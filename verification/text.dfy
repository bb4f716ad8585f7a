/** The string primitives the application applies to ingredient names:
    Python's `str.strip()`, `str.lower()`, `str.split(',')` and `','.join`,
    restricted to ASCII. */
module Text {
  import opened Seqs

  /** Python's `str.isspace` on ASCII: tab, line feed, vertical tab, form feed,
      carriage return, the four information separators 0x1C-0x1F, and space. */
  predicate IsSpace(c: char)
  {
    c == ' ' || 9 <= c as int <= 13 || 28 <= c as int <= 31
  }

  predicate IsUpper(c: char)
  {
    'A' <= c <= 'Z'
  }

  function LowerChar(c: char): (r: char)
    ensures !IsUpper(r)
    ensures IsUpper(c) ==> r as int == c as int + 32
    ensures !IsUpper(c) ==> r == c
  {
    if IsUpper(c) then (c as int + 32) as char else c
  }

  /** `str.lower()`: every ASCII capital becomes its small letter, nothing else changes. */
  function Lower(s: string): (r: string)
    ensures |r| == |s|
    ensures forall i :: 0 <= i < |s| ==> !IsUpper(r[i])
    ensures forall i :: 0 <= i < |s| && !IsUpper(s[i]) ==> r[i] == s[i]
    ensures forall i :: 0 <= i < |s| && IsUpper(s[i]) ==> r[i] as int == s[i] as int + 32
  {
    seq(|s|, i requires 0 <= i < |s| => LowerChar(s[i]))
  }

  /** Lowering twice is lowering once. */
  lemma LowerIdempotent(s: string)
    ensures Lower(Lower(s)) == Lower(s)
  {
    var l := Lower(s);
    assert forall i :: 0 <= i < |l| ==> Lower(l)[i] == l[i];
  }

  /** `str.lstrip()`. */
  function StripLeft(s: string): string
    decreases |s|
  {
    if |s| > 0 && IsSpace(s[0]) then StripLeft(s[1..]) else s
  }

  /** `str.rstrip()`. */
  function StripRight(s: string): string
    decreases |s|
  {
    if |s| > 0 && IsSpace(s[|s| - 1]) then StripRight(s[..|s| - 1]) else s
  }

  /** `str.strip()`. */
  function Strip(s: string): string
  {
    StripRight(StripLeft(s))
  }

  /** `lstrip` drops the leading whitespace, and only that: the result is a
      suffix, everything before it is whitespace, and it does not start with
      whitespace. */
  lemma {:induction false} StripLeftShape(s: string)
    ensures |StripLeft(s)| <= |s|
    ensures StripLeft(s) == s[|s| - |StripLeft(s)|..]
    ensures forall i :: 0 <= i < |s| - |StripLeft(s)| ==> IsSpace(s[i])
    ensures |StripLeft(s)| == 0 || !IsSpace(StripLeft(s)[0])
    decreases |s|
  {
    if |s| > 0 && IsSpace(s[0]) {
      StripLeftShape(s[1..]);
    }
  }

  /** `rstrip` drops the trailing whitespace, and only that. */
  lemma {:induction false} StripRightShape(s: string)
    ensures |StripRight(s)| <= |s|
    ensures StripRight(s) == s[..|StripRight(s)|]
    ensures forall i :: |StripRight(s)| <= i < |s| ==> IsSpace(s[i])
    ensures |StripRight(s)| == 0 || !IsSpace(StripRight(s)[|StripRight(s)| - 1])
    decreases |s|
  {
    if |s| > 0 && IsSpace(s[|s| - 1]) {
      StripRightShape(s[..|s| - 1]);
    }
  }

  /** `strip` leaves an infix of `s` that neither starts nor ends with
      whitespace, and removes only whitespace. */
  lemma StripShape(s: string)
    ensures |StripLeft(s)| <= |s|
    ensures |Strip(s)| <= |s|
    ensures var a := |s| - |StripLeft(s)|;
      && 0 <= a && a + |Strip(s)| <= |s|
      && Strip(s) == s[a..a + |Strip(s)|]
      && (forall i :: 0 <= i < a ==> IsSpace(s[i]))
      && (forall i :: a + |Strip(s)| <= i < |s| ==> IsSpace(s[i]))
    ensures |Strip(s)| == 0 || (!IsSpace(Strip(s)[0]) && !IsSpace(Strip(s)[|Strip(s)| - 1]))
  {
    var l := StripLeft(s);
    StripLeftShape(s);
    StripRightShape(l);
    var r := Strip(s);
    var a := |s| - |l|;
    assert r == s[a..a + |r|];
    if |r| > 0 {
      assert r[0] == l[0];
    }
  }

  /** Stripping is characterised by its result: whitespace around a core that
      neither starts nor ends with whitespace strips to exactly that core. */
  lemma {:induction false} StripPadded(pre: string, core: string, post: string)
    requires forall i :: 0 <= i < |pre| ==> IsSpace(pre[i])
    requires forall i :: 0 <= i < |post| ==> IsSpace(post[i])
    requires |core| == 0 || (!IsSpace(core[0]) && !IsSpace(core[|core| - 1]))
    ensures Strip(pre + core + post) == core
  {
    assert pre + core + post == pre + (core + post);
    StripLeftPadded(pre, core + post);
    if |core| == 0 {
      assert core + post == post;
      StripLeftAllSpace(post);
    } else {
      assert (core + post)[0] == core[0];
      StripRightPadded(core, post);
    }
  }

  lemma {:induction false} StripLeftPadded(pre: string, rest: string)
    requires forall i :: 0 <= i < |pre| ==> IsSpace(pre[i])
    ensures StripLeft(pre + rest) == StripLeft(rest)
    decreases |pre|
  {
    if |pre| > 0 {
      assert (pre + rest)[1..] == pre[1..] + rest;
      StripLeftPadded(pre[1..], rest);
    } else {
      assert pre + rest == rest;
    }
  }

  lemma {:induction false} StripLeftAllSpace(s: string)
    requires forall i :: 0 <= i < |s| ==> IsSpace(s[i])
    ensures StripLeft(s) == []
    decreases |s|
  {
    if |s| > 0 {
      StripLeftAllSpace(s[1..]);
    }
  }

  lemma {:induction false} StripRightPadded(core: string, post: string)
    requires forall i :: 0 <= i < |post| ==> IsSpace(post[i])
    requires |core| == 0 || !IsSpace(core[|core| - 1])
    ensures StripRight(core + post) == core
    decreases |post|
  {
    if |post| > 0 {
      var s := core + post;
      assert s[..|s| - 1] == core + post[..|post| - 1];
      StripRightPadded(core, post[..|post| - 1]);
    } else {
      assert core + post == core;
    }
  }

  /** Stripping twice is stripping once. */
  lemma StripIdempotent(s: string)
    ensures Strip(Strip(s)) == Strip(s)
  {
    var r := Strip(s);
    StripShape(s);
    assert StripLeft(r) == r;
    assert StripRight(r) == r;
  }

  /** The trimmed, lowercased form under which a recipe token is looked up in the pantry. */
  function Normalize(token: string): string
  {
    Lower(Strip(token))
  }

  /** Whitespace around a token does not change its normalised form. */
  lemma NormalizePadded(pre: string, core: string, post: string)
    requires forall i :: 0 <= i < |pre| ==> IsSpace(pre[i])
    requires forall i :: 0 <= i < |post| ==> IsSpace(post[i])
    requires |core| == 0 || (!IsSpace(core[0]) && !IsSpace(core[|core| - 1]))
    ensures Normalize(pre + core + post) == Lower(core)
  {
    StripPadded(pre, core, post);
  }

  /** Number of occurrences of `c` in `s`. */
  function Occurrences(s: string, c: char): nat
    decreases |s|
  {
    if |s| == 0 then 0
    else Occurrences(s[..|s| - 1], c) + (if s[|s| - 1] == c then 1 else 0)
  }

  /** Python's `s.split(',')`: `n` commas give `n + 1` pieces, and `""` gives `[""]`. */
  function Split(s: string): (r: seq<string>)
    ensures |r| == Occurrences(s, ',') + 1
    decreases |s|
  {
    if |s| == 0 then [""]
    else
      var init := Split(s[..|s| - 1]);
      var c := s[|s| - 1];
      if c == ',' then init + [""]
      else init[..|init| - 1] + [init[|init| - 1] + [c]]
  }

  /** No piece of a split holds the separator. */
  lemma {:induction false} SplitPiecesCommaFree(s: string)
    ensures forall i :: 0 <= i < |Split(s)| ==> ',' !in Split(s)[i]
    decreases |s|
  {
    if |s| > 0 {
      var init := Split(s[..|s| - 1]);
      SplitPiecesCommaFree(s[..|s| - 1]);
      var c := s[|s| - 1];
      if c != ',' {
        var r := Split(s);
        assert r == init[..|init| - 1] + [init[|init| - 1] + [c]];
        forall i | 0 <= i < |r|
          ensures ',' !in r[i]
        {
          if i < |init| - 1 {
            assert r[i] == init[i];
          } else {
            assert r[i] == init[|init| - 1] + [c];
          }
        }
      }
    }
  }

  /** Python's `','.join(pieces)`. */
  function Join(pieces: seq<string>): string
    decreases |pieces|
  {
    if |pieces| == 0 then ""
    else if |pieces| == 1 then pieces[0]
    else Join(pieces[..|pieces| - 1]) + "," + pieces[|pieces| - 1]
  }

  /** Joining the pieces of a split gives back the string. */
  lemma {:induction false} JoinSplit(s: string)
    ensures Join(Split(s)) == s
    decreases |s|
  {
    if |s| > 0 {
      JoinSplit(s[..|s| - 1]);
      if s[|s| - 1] == ',' {
        JoinSplitComma(s);
      } else {
        JoinSplitOther(s);
      }
    }
  }

  lemma JoinSplitComma(s: string)
    requires |s| > 0 && s[|s| - 1] == ','
    requires Join(Split(s[..|s| - 1])) == s[..|s| - 1]
    ensures Join(Split(s)) == s
  {
    var p := s[..|s| - 1];
    SnocLast(s);
    var init := Split(p);
    var r := init + [""];
    assert Split(s) == r;
    assert r[..|r| - 1] == init;
  }

  lemma JoinSplitOther(s: string)
    requires |s| > 0 && s[|s| - 1] != ','
    requires Join(Split(s[..|s| - 1])) == s[..|s| - 1]
    ensures Join(Split(s)) == s
  {
    var p := s[..|s| - 1];
    var c := s[|s| - 1];
    SnocLast(s);
    var init := Split(p);
    assert Split(s) == init[..|init| - 1] + [init[|init| - 1] + [c]];
    JoinExtendLast(init, c);
  }

  /** Extending the last piece extends the joined string. */
  lemma JoinExtendLast(pieces: seq<string>, c: char)
    requires |pieces| >= 1
    ensures Join(pieces[..|pieces| - 1] + [pieces[|pieces| - 1] + [c]]) == Join(pieces) + [c]
  {
    var front := pieces[..|pieces| - 1];
    var r := front + [pieces[|pieces| - 1] + [c]];
    assert r[..|r| - 1] == front;
  }

  /** A string without a comma splits into itself. */
  lemma {:induction false} SplitNoComma(s: string)
    requires ',' !in s
    ensures Split(s) == [s]
    decreases |s|
  {
    if |s| > 0 {
      SplitNoComma(s[..|s| - 1]);
      assert s[..|s| - 1] + [s[|s| - 1]] == s;
    }
  }

  /** Appending a comma and a comma-free piece appends exactly one piece. */
  lemma {:induction false} SplitAppendPiece(a: string, b: string)
    requires ',' !in b
    ensures Split(a + "," + b) == Split(a) + [b]
    decreases |b|
  {
    if |b| == 0 {
      assert a + "," + b == a + ",";
      assert (a + ",")[..|a|] == a;
    } else {
      var b' := b[..|b| - 1];
      var s := a + "," + b;
      assert s[..|s| - 1] == a + "," + b';
      SplitAppendPiece(a, b');
      assert b' + [b[|b| - 1]] == b;
    }
  }

  /** Splitting the join of comma-free pieces gives back the pieces. */
  lemma {:induction false} SplitJoin(pieces: seq<string>)
    requires |pieces| >= 1
    requires forall i :: 0 <= i < |pieces| ==> ',' !in pieces[i]
    ensures Split(Join(pieces)) == pieces
    decreases |pieces|
  {
    if |pieces| == 1 {
      SplitNoComma(pieces[0]);
    } else {
      var init := pieces[..|pieces| - 1];
      SplitJoin(init);
      SplitAppendPiece(Join(init), pieces[|pieces| - 1]);
      assert init + [pieces[|pieces| - 1]] == pieces;
    }
  }
}
