/** Post-processing of the similarity scores: recipes paired with their score,
    stably sorted by descending score, and filtered to positive scores. The
    scores themselves come from a text-similarity model and are treated as
    opaque ordered values. */
module Ranking {
  import opened Seqs

  type Score = real

  /** A recipe name paired with its score; `extra` carries whatever else the
      caller zipped in (the image URL, or nothing). */
  datatype Scored<T> = Scored(name: string, score: Score, extra: T)

  function NameOf<T>(e: Scored<T>): string
  {
    e.name
  }

  /** Scores never increase along the list. */
  predicate Descending<T>(s: seq<Scored<T>>)
  {
    forall i, j :: 0 <= i < j < |s| ==> s[i].score >= s[j].score
  }

  /** The entries with score `v`, in list order. */
  function WithScore<T>(s: seq<Scored<T>>, v: Score): seq<Scored<T>>
  {
    Filter(s, (e: Scored<T>) => e.score == v)
  }

  lemma WithScoreCons<T>(x: Scored<T>, s: seq<Scored<T>>, v: Score)
    ensures WithScore([x] + s, v) == (if x.score == v then [x] else []) + WithScore(s, v)
  {
    FilterAppend([x], s, (e: Scored<T>) => e.score == v);
    assert [x][..0] == [];
  }

  /** The entries of score `v` in a non-empty list: its head if that scores
      `v`, then those of the rest. */
  lemma WithScoreFirst<T>(s: seq<Scored<T>>, v: Score)
    requires |s| > 0
    ensures WithScore(s, v) == (if s[0].score == v then [s[0]] else []) + WithScore(s[1..], v)
  {
    ConsFirst(s);
    WithScoreCons(s[0], s[1..], v);
  }

  /** Python's zip: pairs names, scores and extras position by position and
      stops at the shortest input. */
  function Zip<T>(names: seq<string>, scores: seq<Score>, extras: seq<T>): (r: seq<Scored<T>>)
    ensures |r| <= |names| && |r| <= |scores| && |r| <= |extras|
    ensures |r| == |names| || |r| == |scores| || |r| == |extras|
    ensures forall i :: 0 <= i < |r| ==> r[i] == Scored(names[i], scores[i], extras[i])
  {
    var n := if |names| < |scores| then |names| else |scores|;
    var n := if n < |extras| then n else |extras|;
    seq(n, i requires 0 <= i < n => Scored(names[i], scores[i], extras[i]))
  }

  /** Places `x` in front of the first entry whose score is not above its own,
      hence behind every entry scoring strictly higher. */
  function Insert<T>(x: Scored<T>, ys: seq<Scored<T>>): (r: seq<Scored<T>>)
    ensures |r| == |ys| + 1
    ensures forall e :: e in r ==> e == x || e in ys
    ensures multiset(r) == multiset(ys) + multiset{x}
    ensures Descending(ys) ==> Descending(r)
    decreases |ys|
  {
    if |ys| == 0 then [x]
    else if x.score >= ys[0].score then
      DescendingHead(ys);
      DescendingCons(x, ys);
      [x] + ys
    else
      var tail := ys[1..];
      var rest := Insert(x, tail);
      DescendingHead(ys);
      DescendingCons(ys[0], rest);
      assert ys == [ys[0]] + tail;
      [ys[0]] + rest
  }

  /** The head of a non-empty descending list scores at least as high as every
      entry, and the rest of the list is descending. */
  lemma DescendingHead<T>(ys: seq<Scored<T>>)
    requires |ys| > 0
    ensures Descending(ys) ==> forall e :: e in ys ==> e.score <= ys[0].score
    ensures Descending(ys) ==> Descending(ys[1..])
  {
    if !Descending(ys) {
      return;
    }
    forall e | e in ys ensures e.score <= ys[0].score {
      var j :| 0 <= j < |ys| && ys[j] == e;
    }
    var tail := ys[1..];
    forall i, j | 0 <= i < j < |tail| ensures tail[i].score >= tail[j].score {
      assert tail[i] == ys[i + 1] && tail[j] == ys[j + 1];
    }
  }

  /** A descending list stays descending behind an entry scoring at least as high as all of it. */
  lemma DescendingCons<T>(y: Scored<T>, rest: seq<Scored<T>>)
    ensures Descending(rest) && (forall e :: e in rest ==> e.score <= y.score) ==> Descending([y] + rest)
  {
    if Descending(rest) && (forall e :: e in rest ==> e.score <= y.score) {
      var r := [y] + rest;
      forall i, j | 0 <= i < j < |r| ensures r[i].score >= r[j].score {
        assert r[j] == rest[j - 1];
        if i > 0 {
          assert r[i] == rest[i - 1];
        }
      }
    }
  }

  /** `list.sort(key=score, reverse=True)`: the entries rearranged so that
      scores never increase. */
  function SortByScore<T>(xs: seq<Scored<T>>): (r: seq<Scored<T>>)
    ensures multiset(r) == multiset(xs)
    ensures |r| == |xs|
    ensures Descending(r)
    decreases |xs|
  {
    if |xs| == 0 then []
    else
      assert xs == [xs[0]] + xs[1..];
      var r := Insert(xs[0], SortByScore(xs[1..]));
      assert |r| == |multiset(r)|;
      r
  }

  /** Inserting keeps `x` in order with the entries of equal score: it goes in
      front of all of them. */
  lemma {:induction false} InsertWithScore<T>(x: Scored<T>, ys: seq<Scored<T>>, v: Score)
    ensures WithScore(Insert(x, ys), v) == (if x.score == v then [x] else []) + WithScore(ys, v)
    decreases |ys|
  {
    if |ys| == 0 || x.score >= ys[0].score {
      InsertFrontWithScore(x, ys, v);
    } else {
      InsertWithScore(x, ys[1..], v);
      InsertBehindWithScore(x, ys, v);
    }
  }

  lemma InsertFrontWithScore<T>(x: Scored<T>, ys: seq<Scored<T>>, v: Score)
    requires |ys| == 0 || x.score >= ys[0].score
    ensures WithScore(Insert(x, ys), v) == (if x.score == v then [x] else []) + WithScore(ys, v)
  {
    assert Insert(x, ys) == [x] + ys;
    WithScoreCons(x, ys, v);
  }

  lemma InsertBehindWithScore<T>(x: Scored<T>, ys: seq<Scored<T>>, v: Score)
    requires |ys| > 0 && x.score < ys[0].score
    requires WithScore(Insert(x, ys[1..]), v) == (if x.score == v then [x] else []) + WithScore(ys[1..], v)
    ensures WithScore(Insert(x, ys), v) == (if x.score == v then [x] else []) + WithScore(ys, v)
  {
    var rest := Insert(x, ys[1..]);
    var w := WithScore(ys[1..], v);
    assert Insert(x, ys) == [ys[0]] + rest;
    WithScoreCons(ys[0], rest, v);
    WithScoreFirst(ys, v);
    if x.score == v {
      assert WithScore(rest, v) == [x] + w;
      assert WithScore(ys, v) == w;
    } else {
      assert WithScore(rest, v) == w;
    }
  }

  /** The sort is stable: entries with equal scores keep their input order. */
  lemma {:induction false} SortStable<T>(xs: seq<Scored<T>>, v: Score)
    ensures WithScore(SortByScore(xs), v) == WithScore(xs, v)
    decreases |xs|
  {
    if |xs| > 0 {
      SortStable(xs[1..], v);
      InsertWithScore(xs[0], SortByScore(xs[1..]), v);
      WithScoreCons(xs[0], xs[1..], v);
      assert [xs[0]] + xs[1..] == xs;
    }
  }

  /** Inserting an entry under a new name keeps the names distinct. */
  lemma {:induction false} InsertKeepsDistinctNames<T>(x: Scored<T>, ys: seq<Scored<T>>)
    requires DistinctBy(ys, NameOf)
    requires forall e :: e in ys ==> e.name != x.name
    ensures DistinctBy(Insert(x, ys), NameOf)
    decreases |ys|
  {
    if |ys| == 0 || x.score >= ys[0].score {
      DistinctByCons(x, ys, NameOf);
    } else {
      var tail := ys[1..];
      assert DistinctBy(tail, NameOf);
      InsertKeepsDistinctNames(x, tail);
      var rest := Insert(x, tail);
      forall e | e in rest ensures NameOf(e) != NameOf(ys[0]) {
        if e != x {
          var j :| 0 <= j < |tail| && tail[j] == e;
          assert ys[j + 1] == e;
        }
      }
      DistinctByCons(ys[0], rest, NameOf);
    }
  }

  /** Sorting never makes two entries share a name. */
  lemma {:induction false} SortKeepsDistinctNames<T>(xs: seq<Scored<T>>)
    requires DistinctBy(xs, NameOf)
    ensures DistinctBy(SortByScore(xs), NameOf)
    decreases |xs|
  {
    if |xs| > 0 {
      var tail := xs[1..];
      assert DistinctBy(tail, NameOf);
      SortKeepsDistinctNames(tail);
      var sorted := SortByScore(tail);
      forall e | e in sorted ensures e.name != xs[0].name {
        assert e in multiset(sorted);
        var j :| 0 <= j < |tail| && tail[j] == e;
        assert xs[j + 1] == e;
      }
      InsertKeepsDistinctNames(xs[0], sorted);
    }
  }

  /** Two descending lists that agree on the order of every group of equal
      scores are the same list. */
  lemma {:induction false} DescendingStableUnique<T>(a: seq<Scored<T>>, b: seq<Scored<T>>)
    requires Descending(a) && Descending(b)
    requires forall v :: WithScore(a, v) == WithScore(b, v)
    ensures a == b
    decreases |a| + |b|
  {
    if |a| > 0 && |b| > 0 {
      StableHeads(a, b);
      StableTails(a, b);
      DescendingHead(a);
      DescendingHead(b);
      DescendingStableUnique(a[1..], b[1..]);
      ConsFirst(a);
      ConsFirst(b);
    } else if |a| > 0 {
      assert a == [a[0]] + a[1..];
      WithScoreCons(a[0], a[1..], a[0].score);
    } else if |b| > 0 {
      assert b == [b[0]] + b[1..];
      WithScoreCons(b[0], b[1..], b[0].score);
    }
  }

  /** Two descending lists with the same entries per score start with the same
      entry: the highest score's first entry. */
  lemma StableHeads<T>(a: seq<Scored<T>>, b: seq<Scored<T>>)
    requires |a| > 0 && |b| > 0
    requires Descending(a) && Descending(b)
    requires forall v :: WithScore(a, v) == WithScore(b, v)
    ensures a[0] == b[0]
  {
    WithScoreFirst(a, a[0].score);
    WithScoreFirst(b, b[0].score);
    FilterMembers(a, (e: Scored<T>) => e.score == b[0].score);
    FilterMembers(b, (e: Scored<T>) => e.score == a[0].score);
    assert a[0] in WithScore(b, a[0].score);
    assert b[0] in WithScore(a, b[0].score);
    assert a[0].score == b[0].score by {
      var ja :| 0 <= ja < |b| && b[ja] == a[0];
      var jb :| 0 <= jb < |a| && a[jb] == b[0];
    }
    assert a[0] == WithScore(a, a[0].score)[0] == WithScore(b, b[0].score)[0] == b[0];
  }

  /** Dropping the same head from both keeps the entries per score equal. */
  lemma StableTails<T>(a: seq<Scored<T>>, b: seq<Scored<T>>)
    requires |a| > 0 && |b| > 0 && a[0] == b[0]
    requires forall v :: WithScore(a, v) == WithScore(b, v)
    ensures forall v :: WithScore(a[1..], v) == WithScore(b[1..], v)
  {
    forall v
      ensures WithScore(a[1..], v) == WithScore(b[1..], v)
    {
      WithScoreFirst(a, v);
      WithScoreFirst(b, v);
      var pre := if a[0].score == v then [a[0]] else [];
      assert pre + WithScore(a[1..], v) == pre + WithScore(b[1..], v);
      assert WithScore(a[1..], v) == (pre + WithScore(a[1..], v))[|pre|..];
    }
  }

  /** The sorted list is the one and only descending arrangement that keeps
      the input order among equal scores. */
  lemma SortCharacterised<T>(xs: seq<Scored<T>>, r: seq<Scored<T>>)
    ensures r == SortByScore(xs) <==> Descending(r) && forall v :: WithScore(r, v) == WithScore(xs, v)
  {
    forall v
      ensures WithScore(SortByScore(xs), v) == WithScore(xs, v)
    {
      SortStable(xs, v);
    }
    if Descending(r) && forall v :: WithScore(r, v) == WithScore(xs, v) {
      DescendingStableUnique(r, SortByScore(xs));
    }
  }

  /** The entries with a positive score, in list order. */
  function Positive<T>(s: seq<Scored<T>>): seq<Scored<T>>
  {
    Filter(s, (e: Scored<T>) => e.score > 0.0)
  }

  /** The positive filter keeps order and keeps exactly the entries scoring above zero. */
  lemma PositiveMembers<T>(s: seq<Scored<T>>)
    ensures Subseq(Positive(s), s)
    ensures forall e :: e in Positive(s) ==> e in s && e.score > 0.0
    ensures forall e :: e in s && e.score > 0.0 ==> e in Positive(s)
  {
    FilterIsSubseq(s, (e: Scored<T>) => e.score > 0.0);
    FilterMembers(s, (e: Scored<T>) => e.score > 0.0);
  }

  lemma PositiveSnoc<T>(s: seq<Scored<T>>, x: Scored<T>)
    ensures Positive(s + [x]) == Positive(s) + (if x.score > 0.0 then [x] else [])
  {
    var t := s + [x];
    assert t[..|t| - 1] == s;
  }

  /** Appending an entry appends it to its score group. */
  lemma WithScoreSnoc<T>(s: seq<Scored<T>>, x: Scored<T>, v: Score)
    ensures WithScore(s + [x], v) == WithScore(s, v) + (if x.score == v then [x] else [])
  {
    var t := s + [x];
    assert t[..|t| - 1] == s;
  }

  /** The positive filter keeps, for every positive score, all entries of that
      score in their order, and no entry of any other score. */
  lemma {:induction false} WithScorePositive<T>(s: seq<Scored<T>>, v: Score)
    ensures WithScore(Positive(s), v) == if v > 0.0 then WithScore(s, v) else []
    decreases |s|
  {
    if |s| > 0 {
      var init := s[..|s| - 1];
      var x := s[|s| - 1];
      SnocLast(s);
      WithScorePositive(init, v);
      PositiveSnoc(init, x);
      WithScoreSnoc(init, x, v);
      if x.score > 0.0 {
        WithScoreSnoc(Positive(init), x, v);
      }
    }
  }

  /** When exactly the first `m` entries score above zero, the positive
      entries of every prefix are the first of those. */
  lemma {:induction false} PositiveSplitUpTo<T>(s: seq<Scored<T>>, m: nat, j: nat)
    requires m <= |s| && j <= |s|
    requires forall i :: 0 <= i < m ==> s[i].score > 0.0
    requires forall i :: m <= i < |s| ==> s[i].score <= 0.0
    ensures Positive(s[..j]) == s[..if j < m then j else m]
    decreases j
  {
    if j > 0 {
      PositiveSplitUpTo(s, m, j - 1);
      PositiveSnoc(s[..j - 1], s[j - 1]);
      assert s[..j - 1] + [s[j - 1]] == s[..j];
    }
  }

  /** The number of leading entries that score above zero. */
  function LeadingPositive<T>(s: seq<Scored<T>>): (m: nat)
    ensures m <= |s|
    ensures forall i :: 0 <= i < m ==> s[i].score > 0.0
    ensures m < |s| ==> s[m].score <= 0.0
    decreases |s|
  {
    if |s| > 0 && s[0].score > 0.0 then
      var m := 1 + LeadingPositive(s[1..]);
      assert forall i :: 1 <= i < m ==> s[i] == s[1..][i - 1];
      m
    else 0
  }

  /** On a descending list the positive entries form a prefix: everything
      before the cut scores above zero and nothing after it does. */
  lemma PositivePrefix<T>(s: seq<Scored<T>>)
    requires Descending(s)
    ensures |Positive(s)| <= |s|
    ensures Positive(s) == s[..|Positive(s)|]
    ensures forall i :: 0 <= i < |Positive(s)| ==> s[i].score > 0.0
    ensures forall i :: |Positive(s)| <= i < |s| ==> s[i].score <= 0.0
  {
    var m := LeadingPositive(s);
    assert forall i :: m <= i < |s| ==> s[i].score <= s[m].score;
    PositiveSplitUpTo(s, m, |s|);
    assert s[..|s|] == s;
  }

  /** The positive entries among positions `[a, b)` of a descending list are
      the positions `[a, b)` of its positive prefix: filtering after slicing
      gives the same entries as slicing after filtering. */
  lemma PositiveOfSlice<T>(s: seq<Scored<T>>, a: nat, b: nat)
    requires Descending(s)
    requires a <= b <= |s|
    ensures var m := |Positive(s)|;
      Positive(s[a..b]) == s[if a < m then a else m..if b < m then b else m]
  {
    PositivePrefix(s);
    SliceOfSplit(s, |Positive(s)|, a, b);
  }

  lemma SliceOfSplit<T>(s: seq<Scored<T>>, m: nat, a: nat, b: nat)
    requires m <= |s|
    requires forall i :: 0 <= i < m ==> s[i].score > 0.0
    requires forall i :: m <= i < |s| ==> s[i].score <= 0.0
    requires a <= b <= |s|
    ensures Positive(s[a..b]) == s[if a < m then a else m..if b < m then b else m]
  {
    var t := s[a..b];
    var e := if b < m then b else m;
    var c := if a < e then e - a else 0;
    forall i | 0 <= i < c ensures t[i].score > 0.0 {
      assert t[i] == s[a + i];
    }
    forall i | c <= i < |t| ensures t[i].score <= 0.0 {
      assert t[i] == s[a + i];
    }
    PositiveSplitUpTo(t, c, |t|);
    assert t[..|t|] == t;
    if a < e {
      assert t[..c] == s[a..e];
    } else {
      assert t[..c] == [];
    }
  }

  /** A contiguous block of a descending list is descending. */
  lemma DescendingSlice<T>(s: seq<Scored<T>>, a: nat, b: nat)
    requires Descending(s)
    requires a <= b <= |s|
    ensures Descending(s[a..b])
  {
    var t := s[a..b];
    forall i, j | 0 <= i < j < |t| ensures t[i].score >= t[j].score {
      assert t[i] == s[a + i] && t[j] == s[a + j];
    }
  }

  /** The ranking's output: descending, exactly the positive entries of the
      input, those of equal score in input order, and no name twice when the
      input had none twice. */
  lemma RankShape<T>(xs: seq<Scored<T>>)
    ensures Descending(Positive(SortByScore(xs)))
    ensures forall e :: e in Positive(SortByScore(xs)) <==> e in xs && e.score > 0.0
    ensures forall v :: WithScore(Positive(SortByScore(xs)), v) == if v > 0.0 then WithScore(xs, v) else []
    ensures DistinctBy(xs, NameOf) ==> DistinctBy(Positive(SortByScore(xs)), NameOf)
  {
    var sorted := SortByScore(xs);
    var r := Positive(sorted);
    RankKeepsPositive(xs);
    RankStable(xs);
    PositivePrefix(sorted);
    DescendingSlice(sorted, 0, |r|);
    assert sorted[0..|r|] == r;
    PositiveMembers(sorted);
    forall e | e in r ensures e in xs {
      assert e in multiset(sorted);
    }
    if DistinctBy(xs, NameOf) {
      SortKeepsDistinctNames(xs);
      SubseqKeepsDistinctBy(r, sorted, NameOf);
    }
  }

  /** Every positive entry of the input survives the ranking. */
  lemma RankKeepsPositive<T>(xs: seq<Scored<T>>)
    ensures forall e :: e in xs && e.score > 0.0 ==> e in Positive(SortByScore(xs))
  {
    var sorted := SortByScore(xs);
    PositiveMembers(sorted);
    forall e | e in xs && e.score > 0.0 ensures e in sorted {
      assert e in multiset(xs);
    }
  }

  /** The ranking lists the entries of each positive score in input order. */
  lemma RankStable<T>(xs: seq<Scored<T>>)
    ensures forall v :: WithScore(Positive(SortByScore(xs)), v) == if v > 0.0 then WithScore(xs, v) else []
  {
    forall v ensures WithScore(Positive(SortByScore(xs)), v) == if v > 0.0 then WithScore(xs, v) else [] {
      WithScorePositive(SortByScore(xs), v);
      SortStable(xs, v);
    }
  }
}
