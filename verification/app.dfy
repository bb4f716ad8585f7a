/** The request pipelines of the application, with the document store, the
    session and the text-similarity model passed in as values: the pantry-wide
    recommendation page and its JSON reply, the per-ingredient ranking and its
    paginated listing with missing-ingredient counts, and the page count of
    the favourites listing. */
module App {
  import opened Wrappers
  import opened Seqs
  import opened Text
  import opened Store
  import opened Ranking
  import opened Pagination
  import opened Missing

  /** The text-similarity model: fitted on a corpus of ingredient texts, it
      scores a query against every document of the corpus. */
  type Similarity = (seq<string>, string) -> seq<Score>

  /** A read of a column the table does not have fails: with no recipe holding
      an ingredient text there is no ingredient column, with no pantry no name
      column. */
  datatype RecommendError = NoRecipes | NoPantry

  /** `items_per_page` of the pantry-wide recommendation, left at its default by `/recommend`. */
  const RecommendPageSize: nat := 5
  /** The page size `/recommend` divides by when it reports `totalPages`. */
  const RecommendReportedPageSize: nat := 15
  /** Page size of the per-ingredient listing. */
  const IngredientPageSize: nat := 15
  /** Page size of the favourites listing. */
  const FavoritesPageSize: nat := 10

  /** No document holds an ingredient text, so a table built from them has no
      ingredient column; an empty collection is the simplest case. */
  predicate NoIngredientColumn(docs: seq<RecipeDoc>)
  {
    forall i :: 0 <= i < |docs| ==> docs[i].ingredients.None?
  }

  /** The ingredient text of every document; an absent one reads as empty. */
  function IngredientTexts(docs: seq<RecipeDoc>): (r: seq<string>)
    ensures |r| == |docs|
    ensures forall i :: 0 <= i < |docs| ==> r[i] == docs[i].ingredients.GetOr("")
  {
    seq(|docs|, i requires 0 <= i < |docs| => docs[i].ingredients.GetOr(""))
  }

  function Images(docs: seq<RecipeDoc>): seq<string>
  {
    seq(|docs|, i requires 0 <= i < |docs| => docs[i].image)
  }

  function Nothing(n: nat): seq<()>
  {
    seq(n, i => ())
  }

  /** Every recipe paired with its score against the comma-joined pantry, in
      collection order (`zip` stops at the shorter of names and scores). */
  function PantryScores(docs: seq<RecipeDoc>, pantryNames: seq<string>, similarity: Similarity)
    : seq<Scored<()>>
  {
    Zip(Names(docs), similarity(IngredientTexts(docs), Join(pantryNames)), Nothing(|docs|))
  }

  /** Every recipe scored against the comma-joined pantry and stably sorted by
      descending score, before filtering and paging: the same (name, score)
      pairs, descending, and those of equal score in collection order. */
  function RankForPantry(docs: seq<RecipeDoc>, pantryNames: seq<string>, similarity: Similarity)
    : (r: seq<Scored<()>>)
    ensures Descending(r)
    ensures multiset(r) == multiset(PantryScores(docs, pantryNames, similarity))
    ensures forall v :: WithScore(r, v) == WithScore(PantryScores(docs, pantryNames, similarity), v)
    ensures |r| <= |docs|
    ensures forall e :: e in r ==> e.name in Names(docs)
  {
    var zipped := PantryScores(docs, pantryNames, similarity);
    var r := SortByScore(zipped);
    forall v ensures WithScore(r, v) == WithScore(zipped, v) {
      SortStable(zipped, v);
    }
    assert forall e :: e in r ==> e in zipped by {
      forall e | e in r ensures e in zipped {
        assert e in multiset(r);
      }
    }
    r
  }

  /** The positive entries of any page of a descending list are at most a
      page long, descending, and drawn from the list. */
  lemma PositivePage<T>(ranked: seq<Scored<T>>, pageNumber: int, k: nat)
    requires Descending(ranked)
    ensures var r := Positive(PageSlice(ranked, pageNumber, k));
      && |r| <= k
      && Descending(r)
      && forall e :: e in r ==> e.score > 0.0 && e in ranked
  {
    var page := PageSlice(ranked, pageNumber, k);
    var a := SliceBound((pageNumber - 1) * k, |ranked|);
    PositiveBlock(ranked, a, a + |page|);
  }

  lemma PositiveBlock<T>(ranked: seq<Scored<T>>, a: nat, b: nat)
    requires Descending(ranked)
    requires a <= b <= |ranked|
    ensures var r := Positive(ranked[a..b]);
      && |r| <= b - a
      && Descending(r)
      && forall e :: e in r ==> e.score > 0.0 && e in ranked
  {
    var page := ranked[a..b];
    DescendingSlice(ranked, a, b);
    PositivePrefix(page);
    DescendingSlice(page, 0, |Positive(page)|);
    assert page[0..|Positive(page)|] == Positive(page);
    PositiveMembers(page);
    SliceMembers(ranked, a, b);
  }

  /** For a page number of at least 1, the positive entries of a page of a
      descending list are that page of its positive entries. */
  lemma PageOfPositive<T>(ranked: seq<Scored<T>>, pageNumber: int, k: nat)
    requires Descending(ranked)
    requires pageNumber >= 1
    ensures Positive(PageSlice(ranked, pageNumber, k)) == PageSlice(Positive(ranked), pageNumber, k)
  {
    MulMonotone(0, pageNumber - 1, k);
    PositiveOfBlock(ranked, (pageNumber - 1) * k, k);
  }

  /** From a non-negative start, the positive entries of a block of a
      descending list are that block of its positive entries. */
  lemma PositiveOfBlock<T>(ranked: seq<Scored<T>>, start: int, k: nat)
    requires Descending(ranked)
    requires start >= 0
    ensures Positive(PySlice(ranked, start, start + k)) == PySlice(Positive(ranked), start, start + k)
  {
    var n := |ranked|;
    var end := start + k;
    BlockSlice(ranked, start, k);
    BlockSlice(Positive(ranked), start, k);
    var a := if start < n then start else n;
    var b := if end < n then end else n;
    PositiveOfSlice(ranked, a, b);
    PositivePrefix(ranked);
  }

  /** `get_recommendations`: the positive-score entries among positions
      `[start, start + itemsPerPage)` of the ranking. A page never holds more
      than `itemsPerPage` entries, only positive scores, in descending order,
      and only recipes of the collection. When no recipe has an ingredient
      text or the pantry is empty, the column read fails; the last ensures
      restates, for the empty collection, a consequence of the first two. */
  function GetRecommendations(docs: seq<RecipeDoc>, pantryNames: seq<string>, pageNumber: int,
                              itemsPerPage: nat, similarity: Similarity)
    : (r: Result<seq<Scored<()>>, RecommendError>)
    ensures r.Failure? <==> NoIngredientColumn(docs) || |pantryNames| == 0
    ensures r.Failure? ==> r.error == if NoIngredientColumn(docs) then NoRecipes else NoPantry
    ensures |docs| == 0 ==> r == Failure(NoRecipes)
    ensures r.Success? ==>
      && |r.value| <= itemsPerPage
      && Descending(r.value)
      && (forall e :: e in r.value ==> e.score > 0.0 && e.name in Names(docs))
  {
    if NoIngredientColumn(docs) then Failure(NoRecipes)
    else if |pantryNames| == 0 then Failure(NoPantry)
    else
      var ranked := RankForPantry(docs, pantryNames, similarity);
      var page := PageSlice(ranked, pageNumber, itemsPerPage);
      PositivePage(ranked, pageNumber, itemsPerPage);
      Success(Positive(page))
  }

  /** A collection whose only recipe lacks an ingredient text fails like an
      empty one, whatever the pantry and the similarity model. */
  lemma NoIngredientTextFails(pantryNames: seq<string>, similarity: Similarity)
    ensures GetRecommendations([RecipeDoc("a", None, None, "", "")], pantryNames, 1, 5, similarity)
      == Failure(NoRecipes)
  {
  }

  /** For a page number of at least 1, filtering after the slice is the same as
      slicing the positive-score ranking: the page is page `pageNumber` of the
      positive entries. */
  lemma GetRecommendationsIsPageOfPositive(docs: seq<RecipeDoc>, pantryNames: seq<string>, pageNumber: int,
                                           itemsPerPage: nat, similarity: Similarity)
    requires !NoIngredientColumn(docs) && |pantryNames| > 0
    requires pageNumber >= 1
    ensures var ranked := RankForPantry(docs, pantryNames, similarity);
      GetRecommendations(docs, pantryNames, pageNumber, itemsPerPage, similarity)
        == Success(PageSlice(Positive(ranked), pageNumber, itemsPerPage))
  {
    PageOfPositive(RankForPantry(docs, pantryNames, similarity), pageNumber, itemsPerPage);
  }

  /** The JSON reply of `/recommend`. */
  datatype Recommendation = Recommendation(recommendations: seq<Scored<()>>, totalPages: nat)

  /** `/recommend`: the requested page (1 when absent) of at most 5 entries,
      with `totalPages` counted at 15 per page from the page itself, so it is 1
      when the page has entries and 0 when it has none. It fails as
      `get_recommendations` does; the empty-collection ensures restates a
      consequence of the two before it. */
  function Recommend(docs: seq<RecipeDoc>, pantryNames: seq<string>, page: Option<int>, similarity: Similarity)
    : (r: Result<Recommendation, RecommendError>)
    ensures r.Failure? <==> NoIngredientColumn(docs) || |pantryNames| == 0
    ensures r.Failure? ==> r.error == if NoIngredientColumn(docs) then NoRecipes else NoPantry
    ensures |docs| == 0 ==> r == Failure(NoRecipes)
    ensures r.Success? && page.GetOr(1) >= 1 ==>
      r.value.recommendations
        == PageSlice(Positive(RankForPantry(docs, pantryNames, similarity)), page.GetOr(1), RecommendPageSize)
    ensures r.Success? ==>
      && |r.value.recommendations| <= RecommendPageSize
      && r.value.totalPages <= 1
      && (r.value.totalPages == 1 <==> |r.value.recommendations| > 0)
  {
    match GetRecommendations(docs, pantryNames, page.GetOr(1), RecommendPageSize, similarity)
    case Failure(e) => Failure(e)
    case Success(recs) =>
      assert page.GetOr(1) >= 1 ==>
        recs == PageSlice(Positive(RankForPantry(docs, pantryNames, similarity)), page.GetOr(1), RecommendPageSize)
      by {
        if page.GetOr(1) >= 1 {
          GetRecommendationsIsPageOfPositive(docs, pantryNames, page.GetOr(1), RecommendPageSize, similarity);
        }
      }
      var total := TotalPages(|recs|, RecommendReportedPageSize);
      assert total <= 1 by {
        if total > 1 {
          MulMonotone(1, total - 1, RecommendReportedPageSize);
        }
      }
      Success(Recommendation(recs, total))
  }

  /** `get_recommendations_for_ingredient`: the candidates deduplicated by name,
      scored against the ingredient itself, stably sorted by descending score
      and filtered to positive scores. No candidates give no result; otherwise
      every recipe appears at most once, with the image of its first document. */
  function GetRecommendationsForIngredient(candidates: seq<RecipeDoc>, ingredient: string, similarity: Similarity)
    : (r: seq<Scored<string>>)
    ensures |candidates| == 0 ==> r == []
    ensures |candidates| > 0 ==>
      var scored := ScoreDocs(DedupByName(candidates), ingredient, similarity);
      && (forall e :: e in r <==> e in scored && e.score > 0.0)
      && forall v :: WithScore(r, v) == if v > 0.0 then WithScore(scored, v) else []
    ensures Descending(r)
    ensures DistinctBy(r, NameOf)
    ensures forall e :: e in r ==>
      && e.score > 0.0
      && e.name in Names(candidates)
      && FindByName(candidates, e.name).value.image == e.extra
  {
    if |candidates| == 0 then []
    else
      IngredientRankingShape(candidates, ingredient, similarity);
      IngredientRankingImages(candidates, ingredient, similarity);
      Positive(SortByScore(ScoreDocs(DedupByName(candidates), ingredient, similarity)))
  }

  /** The ranking of the deduplicated candidates keeps exactly their positive
      rows, stably and descending, one per name. */
  lemma IngredientRankingShape(candidates: seq<RecipeDoc>, ingredient: string, similarity: Similarity)
    ensures var scored := ScoreDocs(DedupByName(candidates), ingredient, similarity);
      var r := Positive(SortByScore(scored));
      && (forall e :: e in r <==> e in scored && e.score > 0.0)
      && (forall v :: WithScore(r, v) == if v > 0.0 then WithScore(scored, v) else [])
      && Descending(r)
      && DistinctBy(r, NameOf)
  {
    var zipped := ScoreDocs(DedupByName(candidates), ingredient, similarity);
    assert DistinctBy(zipped, NameOf) by {
      DedupByNameKeepsFirst(candidates);
    }
    RankShape(zipped);
  }

  /** Every ranked row is a recipe of the candidates, with the image of the
      first candidate of that name. */
  lemma IngredientRankingImages(candidates: seq<RecipeDoc>, ingredient: string, similarity: Similarity)
    ensures forall e :: e in Positive(SortByScore(ScoreDocs(DedupByName(candidates), ingredient, similarity))) ==>
      && e.score > 0.0
      && e.name in Names(candidates)
      && FindByName(candidates, e.name).value.image == e.extra
  {
    RankedFromFirstDocs(candidates, ScoreDocs(DedupByName(candidates), ingredient, similarity));
  }

  lemma RankedFromFirstDocs(candidates: seq<RecipeDoc>, zipped: seq<Scored<string>>)
    requires var docs := DedupByName(candidates);
      && |zipped| <= |docs|
      && forall i :: 0 <= i < |zipped| ==> zipped[i].name == docs[i].name && zipped[i].extra == docs[i].image
    ensures forall e :: e in Positive(SortByScore(zipped)) ==>
      && e.score > 0.0
      && e.name in Names(candidates)
      && FindByName(candidates, e.name).value.image == e.extra
  {
    var sorted := SortByScore(zipped);
    FirstDocsScored(candidates, zipped);
    PositiveMembers(sorted);
    forall e | e in Positive(sorted) ensures e in zipped {
      assert e in multiset(sorted);
    }
  }

  /** The deduplicated documents zipped with their scores and images. */
  function ScoreDocs(docs: seq<RecipeDoc>, ingredient: string, similarity: Similarity): (r: seq<Scored<string>>)
    ensures var scores := similarity(IngredientTexts(docs), ingredient);
      && |r| == (if |docs| < |scores| then |docs| else |scores|)
      && forall i :: 0 <= i < |r| ==> r[i].score == scores[i]
    ensures forall i :: 0 <= i < |r| ==> r[i].name == docs[i].name && r[i].extra == docs[i].image
    ensures DistinctBy(docs, DocName) ==> DistinctBy(r, NameOf)
  {
    var r := Zip(Names(docs), similarity(IngredientTexts(docs), ingredient), Images(docs));
    assert DistinctBy(docs, DocName) ==> DistinctBy(r, NameOf) by {
      if DistinctBy(docs, DocName) {
        forall i, j | 0 <= i < j < |r| ensures NameOf(r[i]) != NameOf(r[j]) {
          assert DocName(docs[i]) != DocName(docs[j]);
        }
      }
    }
    r
  }

  /** Every scored entry comes from the first document of its name. */
  lemma FirstDocsScored(candidates: seq<RecipeDoc>, zipped: seq<Scored<string>>)
    requires var docs := DedupByName(candidates);
      && |zipped| <= |docs|
      && forall i :: 0 <= i < |zipped| ==> zipped[i].name == docs[i].name && zipped[i].extra == docs[i].image
    ensures forall e :: e in zipped ==>
      e.name in Names(candidates) && FindByName(candidates, e.name).value.image == e.extra
  {
    var docs := DedupByName(candidates);
    DedupByNameKeepsFirst(candidates);
    forall e | e in zipped
      ensures e.name in Names(candidates) && FindByName(candidates, e.name).value.image == e.extra
    {
      var i :| 0 <= i < |zipped| && zipped[i] == e;
      assert docs[i] in docs;
      assert Names(docs)[i] == e.name;
    }
  }

  /** One row of the per-ingredient listing. */
  datatype Listing = Listing(name: string, score: Score, image: string, missing: int)

  /** `row` lists `e` with the missing count of the recipe of that name: the
      sentinel -1 when the collection has no such recipe, otherwise the length
      of its missing list. */
  predicate RowFor(row: Listing, e: Scored<string>, store: seq<RecipeDoc>, pantryNames: seq<string>)
  {
    && row.name == e.name
    && row.score == e.score
    && row.image == e.extra
    && (row.missing == -1 <==> e.name !in Names(store))
    && (e.name in Names(store) ==>
          row.missing == |MissingIngredientsList(store, e.name, pantryNames).value|)
  }

  /** The per-ingredient listing page. */
  datatype IngredientPage = IngredientPage(recipes: seq<Listing>, totalPages: nat, currentPage: int)

  /** `/recipes/<ingredient>`: the ranking is paged at 15 per page, the
      requested page (1 when absent or not a number) is clamped into range, and
      each recipe on the page is listed with its missing-ingredient count. The
      page shown is never below 1 nor past the last page, holds at most 15 rows,
      is non-empty exactly when some recipe ranks, and lists the ranked recipes
      in rank order; a row's count is the sentinel -1 exactly when the recipe
      is absent from the collection, so candidates drawn from the collection
      never show it. */
  method RecipesForIngredient(candidates: seq<RecipeDoc>, store: seq<RecipeDoc>, pantryNames: seq<string>,
                              ingredient: string, requested: Option<int>, similarity: Similarity)
    returns (view: IngredientPage)
    ensures var ranked := GetRecommendationsForIngredient(candidates, ingredient, similarity);
      && view.totalPages == TotalPages(|ranked|, IngredientPageSize)
      && view.currentPage == ClampPage(requested.GetOr(1), view.totalPages)
      && 1 <= view.currentPage
      && (view.totalPages >= 1 ==> view.currentPage <= view.totalPages)
      && |view.recipes| <= IngredientPageSize
      && (|view.recipes| > 0 <==> |ranked| > 0)
      && var shown := PageSlice(ranked, view.currentPage, IngredientPageSize);
         && |view.recipes| == |shown|
         && forall i :: 0 <= i < |shown| ==> RowFor(view.recipes[i], shown[i], store, pantryNames)
    ensures (forall d :: d in candidates ==> d in store) ==>
      forall i :: 0 <= i < |view.recipes| ==> view.recipes[i].missing >= 0
  {
    var ranked := GetRecommendationsForIngredient(candidates, ingredient, similarity);
    var total := TotalPages(|ranked|, IngredientPageSize);
    var page := ClampPage(requested.GetOr(1), total);
    var paginated := PageSlice(ranked, page, IngredientPageSize);
    ClampedPageShape(ranked, requested.GetOr(1), IngredientPageSize);
    var rows := ListPage(paginated, store, pantryNames);
    view := IngredientPage(rows, total, page);
    if forall d :: d in candidates ==> d in store {
      RankedFromStore(candidates, store, ingredient, similarity);
      PageSliceMembers(ranked, page, IngredientPageSize);
      forall j | 0 <= j < |rows| ensures rows[j].missing >= 0 {
        assert paginated[j] in paginated;
        assert RowFor(rows[j], paginated[j], store, pantryNames);
      }
    }
  }

  /** The loop over the shown recipes: one row per recipe, in order, carrying
      its missing-ingredient count. */
  method ListPage(shown: seq<Scored<string>>, store: seq<RecipeDoc>, pantryNames: seq<string>)
    returns (rows: seq<Listing>)
    ensures |rows| == |shown|
    ensures forall i :: 0 <= i < |shown| ==> RowFor(rows[i], shown[i], store, pantryNames)
  {
    rows := [];
    var i := 0;
    while i < |shown|
      invariant 0 <= i <= |shown|
      invariant |rows| == i
      invariant forall j :: 0 <= j < i ==> RowFor(rows[j], shown[j], store, pantryNames)
    {
      var row := ListRecipe(shown[i], store, pantryNames);
      rows := rows + [row];
      i := i + 1;
    }
  }

  /** One listed recipe: its name, score and image with its missing-ingredient
      count, or -1 when the collection does not hold it. */
  method ListRecipe(e: Scored<string>, store: seq<RecipeDoc>, pantryNames: seq<string>)
    returns (row: Listing)
    ensures RowFor(row, e, store, pantryNames)
  {
    var count := CalculateMissingIngredientsCount(store, e.name, pantryNames);
    row := Listing(e.name, e.score, e.extra, count);
  }

  /** Candidates drawn from the collection rank only recipes the collection holds. */
  lemma RankedFromStore(candidates: seq<RecipeDoc>, store: seq<RecipeDoc>, ingredient: string, similarity: Similarity)
    requires forall d :: d in candidates ==> d in store
    ensures forall e :: e in GetRecommendationsForIngredient(candidates, ingredient, similarity) ==> e.name in Names(store)
  {
    forall e | e in GetRecommendationsForIngredient(candidates, ingredient, similarity)
      ensures e.name in Names(store)
    {
      var i :| 0 <= i < |candidates| && Names(candidates)[i] == e.name;
      assert candidates[i] in store;
      var k :| 0 <= k < |store| && store[k] == candidates[i];
      assert Names(store)[k] == e.name;
    }
  }

  /** `calculate_total_pages`: pages of 10 needed for the favourites; none for
      no favourites, otherwise the last page is non-empty. */
  function FavoritePages(count: nat): (r: nat)
    ensures r == 0 <==> count == 0
    ensures count > 0 ==> (r - 1) * FavoritesPageSize < count <= r * FavoritesPageSize
  {
    TotalPages(count, FavoritesPageSize)
  }
}
