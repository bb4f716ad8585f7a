/** The recipe collection as the application reads it: one document per
    recipe, looked up by name with the first match winning. */
module Store {
  import opened Wrappers
  import opened Seqs

  /** A recipe document. `ingredients` is the raw ingredient text and `cleaned`
      the comma-separated cleaned list; either may be absent from a document. */
  datatype RecipeDoc = RecipeDoc(
    name: string,
    ingredients: Option<string>,
    cleaned: Option<string>,
    url: string,
    image: string)

  /** The recipe names of a collection, in collection order. */
  function Names(docs: seq<RecipeDoc>): (r: seq<string>)
    ensures |r| == |docs|
    ensures forall i :: 0 <= i < |docs| ==> r[i] == docs[i].name
  {
    seq(|docs|, i requires 0 <= i < |docs| => docs[i].name)
  }

  /** `i` is the position of the first document named `name`. */
  predicate FirstNamed(docs: seq<RecipeDoc>, i: int, name: string)
  {
    0 <= i < |docs| && docs[i].name == name && forall j :: 0 <= j < i ==> docs[j].name != name
  }

  /** `find_one({"RecipeName": name})`: the first document with that name, if any. */
  function FindByName(docs: seq<RecipeDoc>, name: string): (r: Option<RecipeDoc>)
    ensures r.None? <==> name !in Names(docs)
    ensures r.Some? ==> exists i :: FirstNamed(docs, i, name) && docs[i] == r.value
    decreases |docs|
  {
    if |docs| == 0 then None
    else if docs[0].name == name then
      assert FirstNamed(docs, 0, name);
      Some(docs[0])
    else
      var r := FindByName(docs[1..], name);
      assert Names(docs) == [docs[0].name] + Names(docs[1..]);
      if r.Some? then
        var i :| FirstNamed(docs[1..], i, name) && docs[1..][i] == r.value;
        assert FirstNamed(docs, i + 1, name);
        r
      else r
  }

  lemma {:induction false} FindByNameSnoc(docs: seq<RecipeDoc>, x: RecipeDoc, name: string)
    ensures FindByName(docs + [x], name)
         == if name in Names(docs) then FindByName(docs, name)
            else if x.name == name then Some(x) else None
    decreases |docs|
  {
    if |docs| > 0 {
      assert (docs + [x])[1..] == docs[1..] + [x];
      assert Names(docs) == [docs[0].name] + Names(docs[1..]);
      FindByNameSnoc(docs[1..], x, name);
    } else {
      assert [x][1..] == [];
    }
  }

  function DocName(d: RecipeDoc): string
  {
    d.name
  }

  /** `drop_duplicates(subset=['RecipeName'])` on the fetched documents. */
  function DedupByName(docs: seq<RecipeDoc>): (r: seq<RecipeDoc>)
    ensures |r| <= |docs|
    decreases |docs|
  {
    if |docs| == 0 then []
    else
      var init := docs[..|docs| - 1];
      var x := docs[|docs| - 1];
      var kept := DedupByName(init);
      if x.name in Names(init) then kept else kept + [x]
  }

  /** The documents of `kept` come in the order in which their names first
      occur in `docs`. */
  ghost predicate InFirstOccurrenceOrder(docs: seq<RecipeDoc>, kept: seq<RecipeDoc>)
  {
    forall i, j, p, q ::
      0 <= i < j < |kept| && FirstNamed(docs, p, kept[i].name) && FirstNamed(docs, q, kept[j].name) ==> p < q
  }

  /** Deduplication keeps, in order, the first document of every name and
      nothing else: names become unique, no name is lost, each kept document
      is the one a lookup by its name finds, and the kept documents follow the
      first occurrences of their names. */
  lemma DedupByNameKeepsFirst(docs: seq<RecipeDoc>)
    ensures Subseq(DedupByName(docs), docs)
    ensures DistinctBy(DedupByName(docs), DocName)
    ensures forall n :: n in Names(DedupByName(docs)) <==> n in Names(docs)
    ensures forall d :: d in DedupByName(docs) ==> FindByName(docs, d.name) == Some(d)
    ensures InFirstOccurrenceOrder(docs, DedupByName(docs))
  {
    DedupSubseq(docs);
    DedupNames(docs);
    DedupDistinct(docs);
    DedupFinds(docs);
    DedupOrdered(docs);
  }

  /** A recipe stored twice keeps its first copy in its first place. */
  lemma DedupExample()
    ensures var a := RecipeDoc("a", None, None, "", "");
      var b := RecipeDoc("b", None, None, "", "");
      DedupByName([a, b, a]) == [a, b]
  {
    var a := RecipeDoc("a", None, None, "", "");
    var b := RecipeDoc("b", None, None, "", "");
    assert [a][..0] == [];
    assert DedupByName([a]) == [a];
    assert [a, b][..1] == [a];
    assert Names([a]) == ["a"];
    assert DedupByName([a, b]) == [a, b];
    assert [a, b, a][..2] == [a, b];
    assert Names([a, b])[0] == "a";
  }

  /** A name that occurs before the appended document first occurs at the
      same position without it. */
  lemma FirstNamedInit(init: seq<RecipeDoc>, x: RecipeDoc, p: int, name: string)
    requires name in Names(init)
    requires FirstNamed(init + [x], p, name)
    ensures FirstNamed(init, p, name)
  {
    var k :| 0 <= k < |init| && Names(init)[k] == name;
    assert (init + [x])[k].name == name;
    assert (init + [x])[p] == init[p];
    forall j | 0 <= j < p ensures init[j].name != name {
      assert (init + [x])[j] == init[j];
    }
  }

  lemma {:induction false} DedupOrdered(docs: seq<RecipeDoc>)
    ensures InFirstOccurrenceOrder(docs, DedupByName(docs))
    decreases |docs|
  {
    if |docs| > 0 {
      var init := docs[..|docs| - 1];
      var x := docs[|docs| - 1];
      var kept := DedupByName(init);
      var r := DedupByName(docs);
      SnocLast(docs);
      DedupOrdered(init);
      DedupNames(init);
      forall i, j, p, q | 0 <= i < j < |r| && FirstNamed(docs, p, r[i].name) && FirstNamed(docs, q, r[j].name)
        ensures p < q
      {
        assert r[i] == kept[i];
        assert Names(kept)[i] == r[i].name;
        FirstNamedInit(init, x, p, r[i].name);
        if j < |kept| {
          assert r[j] == kept[j];
          assert Names(kept)[j] == r[j].name;
          FirstNamedInit(init, x, q, r[j].name);
        } else {
          assert r[j] == x && x.name !in Names(init);
          forall k | 0 <= k < |init| ensures docs[k].name != x.name {
            assert Names(init)[k] == docs[k].name;
          }
        }
      }
    }
  }

  lemma {:induction false} DedupSubseq(docs: seq<RecipeDoc>)
    ensures Subseq(DedupByName(docs), docs)
    decreases |docs|
  {
    if |docs| > 0 {
      var init := docs[..|docs| - 1];
      var x := docs[|docs| - 1];
      var kept := DedupByName(init);
      DedupSubseq(init);
      if x.name in Names(init) {
        SubseqExtend(kept, init, x);
        assert init + [x] == docs;
      } else {
        var r := kept + [x];
        assert r[..|r| - 1] == kept;
      }
    }
  }

  lemma {:induction false} DedupNames(docs: seq<RecipeDoc>)
    ensures forall n :: n in Names(DedupByName(docs)) <==> n in Names(docs)
    decreases |docs|
  {
    if |docs| > 0 {
      var init := docs[..|docs| - 1];
      var x := docs[|docs| - 1];
      var kept := DedupByName(init);
      DedupNames(init);
      assert Names(docs) == Names(init) + [x.name];
      if x.name !in Names(init) {
        assert Names(kept + [x]) == Names(kept) + [x.name];
      }
    }
  }

  lemma {:induction false} DedupDistinct(docs: seq<RecipeDoc>)
    ensures DistinctBy(DedupByName(docs), DocName)
    decreases |docs|
  {
    if |docs| > 0 {
      var init := docs[..|docs| - 1];
      var x := docs[|docs| - 1];
      var kept := DedupByName(init);
      DedupDistinct(init);
      DedupNames(init);
      if x.name !in Names(init) {
        var r := kept + [x];
        forall i, j | 0 <= i < j < |r| ensures DocName(r[i]) != DocName(r[j]) {
          if j == |r| - 1 {
            assert Names(kept)[i] == r[i].name;
          } else {
            assert r[i] == kept[i] && r[j] == kept[j];
          }
        }
      }
    }
  }

  lemma {:induction false} DedupFinds(docs: seq<RecipeDoc>)
    ensures forall d :: d in DedupByName(docs) ==> FindByName(docs, d.name) == Some(d)
    decreases |docs|
  {
    if |docs| > 0 {
      var init := docs[..|docs| - 1];
      var x := docs[|docs| - 1];
      var kept := DedupByName(init);
      DedupFinds(init);
      SnocLast(docs);
      forall d | d in DedupByName(docs) ensures FindByName(docs, d.name) == Some(d) {
        FindByNameSnoc(init, x, d.name);
      }
    }
  }
}
