# Pocket-kitchen list rules in Dafny

Pocket-kitchen is a small Flask application. It recommends recipes for the
ingredients a user owns (the *pantry*), lists recipes for one ingredient with
the number of ingredients the user is missing for each, and keeps a shopping
list in the user's session. This project models the deterministic list and
string rules of `app.py`, with the text-similarity model, the document store
and the session passed in as values, and proves their properties:

- **Missing ingredients** (`missing.dfy`, `text.dfy`). A recipe's cleaned
  ingredient text is split on commas. Each piece is trimmed and lowercased,
  then looked up in the lowercased pantry. The counting loop of
  `calculate_missing_ingredients_count` and the list comprehension of
  `missing_ingredients_list` agree, and an unknown recipe gives the sentinel
  -1.
- **Pagination** (`pagination.dfy`). This covers the ceiling division that
  counts pages, the clamp of the requested page, and Python list slicing,
  negative bounds included.
- **Ranking** (`ranking.dfy`, `store.dfy`). Deduplication keeps the first
  document of each recipe name. The sort is stable and descending. Then come
  the positive-score filter, and the slice-then-filter order of
  `get_recommendations`.
- **Request pipelines** (`app.dfy`). These are `get_recommendations`,
  `/recommend`, `get_recommendations_for_ingredient`,
  `/recipes/<ingredient>` and `calculate_total_pages`.
- **Shopping list** (`shopping.dfy`). This covers `add_to`,
  `delete_from_shopping_list` and `move_to_ingredients`.

`wrappers.dfy` holds `Option` and `Result`. `seqs.dfy` holds the
order-preserving filter and the subsequence relation that every list
comprehension of the application is built on.

Four behaviours of `app.py` that shape the model:

- `get_recommendations` raises a `KeyError` when no recipe document has an
  `Ingredients` field, which includes an empty collection, or when the pantry
  is empty. A frame built from the query result has a column only for a
  field some document holds, so reading its `Ingredients` column (line 28)
  or `name` column (line 29) raises. The model returns `Failure(NoRecipes)`
  or `Failure(NoPantry)`, checked in that order (`App.NoIngredientColumn`).
- `get_recommendations` slices the sorted list first (line 41) and filters
  out non-positive scores afterwards. Because the list is sorted by
  descending score, the positive entries form a prefix of it, so for a page
  number of at least 1 this is the same page of the positive entries
  (`App.GetRecommendationsIsPageOfPositive`).
- Empty pieces of a split are not filtered out. An absent or empty
  cleaned-ingredient field splits into one empty piece, which counts as one
  missing ingredient unless the pantry holds the empty name
  (`Missing.EmptyFieldCountsOnce`).
- `/recommend` pages at the default 5 entries, but computes `totalPages` from
  the length of that page at 15 per page. So `totalPages` is 0 or 1
  (`App.Recommend`). Its page number is not clamped: a page number below 1
  becomes a Python slice with negative bounds, which the model reproduces.

## Model

| member | source | states |
|---|---|---|
| Text.Lower | app.py:89 | `str.lower` on ASCII: same length, no capital left, capitals shifted to their small letter, every other character unchanged |
| Text.LowerIdempotent | app.py:81 | lowering an already lowered pantry name changes nothing |
| Missing.LowerAll | app.py:81 | the lowered pantry has one entry per owned name |
| Missing.LowerAllLowers | app.py:81 | position by position the lowered pantry holds the lowered owned names, so every owned name is found in lowered form |
| Text.StripShape | app.py:89 | `strip` leaves an infix of the piece that neither starts nor ends with whitespace, and everything it removes is whitespace |
| Text.StripPadded | app.py:89 | a core without outer whitespace, padded by whitespace on either side, strips to exactly that core |
| Text.StripIdempotent | app.py:89 | stripping a stripped piece changes nothing |
| Text.NormalizePadded | app.py:89 | whitespace around a piece does not change its trimmed, lowercased form |
| Text.Split | app.py:77 | `split(',')` gives one more piece than there are commas, so even the empty string gives one piece |
| Text.SplitPiecesCommaFree | app.py:77 | no piece of a split holds a comma |
| Text.JoinSplit | app.py:77 | joining the pieces with commas gives back the split string |
| Text.SplitJoin | app.py:77 | splitting the comma-join of comma-free pieces gives back the pieces |
| Seqs.FilterIsSubseq | app.py:150 | a list comprehension with a condition keeps a subsequence of its input, in order |
| Seqs.FilterMembers | app.py:246 | a list comprehension with a condition keeps exactly the elements that pass it |
| Store.FindByName | app.py:72-74 | a lookup by name finds nothing exactly when no document has the name, and otherwise finds the first document with it |
| Store.DedupByNameKeepsFirst | app.py:54 | deduplication by name keeps a subsequence with unique names, loses no name, keeps the first document of each name, and lists the kept documents in the order of their names' first occurrences |
| Store.DedupExample | app.py:54 | a recipe stored twice around another keeps its first copy in first place: `[a, b, a]` becomes `[a, b]` |
| Missing.RecipeTokens | app.py:77 | a recipe's cleaned text, with an absent field read as empty, splits into at least one piece |
| Missing.MissingTokens | app.py:150 | the missing list is an order-preserving subsequence of the pieces, kept as written |
| Missing.MissingTokensMembers | app.py:150 | a piece is listed exactly when it occurs and its normalised form is not owned; the list is empty exactly when every normalised piece is owned |
| Missing.MissingTokensCountsPositions | app.py:87-91 | the missing list has exactly one entry per position whose piece is missing |
| Missing.CountMissing | app.py:84-93 | the loop's count equals the length of the missing list and the number of missing positions, and never exceeds the number of pieces |
| Missing.MissingIngredientsList | app.py:137-150 | "recipe not found" exactly when no document has the name; otherwise the missing pieces of the first such document, in order and as written |
| Missing.CalculateMissingIngredientsCount | app.py:70-93 | -1 exactly when the recipe is unknown; otherwise a count between 0 and the number of pieces that equals the missing list's length and is 0 exactly when every normalised piece is owned |
| Missing.MissingExample | app.py:143-150 | with "egg" and "sugar" owned, "egg, Flour , sugar" misses only " Flour ", unstripped |
| Missing.ExampleSplit | app.py:77 | "egg, Flour , sugar" splits into "egg", " Flour " and " sugar" |
| Missing.ExampleNormalize | app.py:89 | those pieces normalise to "egg", "flour" and "sugar" |
| Missing.EmptyFieldCountsOnce | app.py:77 | an empty cleaned field yields one empty piece, which is missing unless the pantry holds the empty name |
| Pagination.TotalPages | app.py:104 | `(n + k - 1) // k` is 0 exactly for no entries; otherwise the last page is non-empty and holds at most `k` entries |
| Pagination.ClampPage | app.py:108 | the clamped page is at least 1, at most the page count when there is a page, the request itself when in range, 1 below the range and the last page above it |
| Pagination.SliceBound | app.py:114 | a slice bound counts from the end when negative and is cut into `[0, len]` |
| Pagination.PySlice | app.py:114 | a Python slice is the contiguous block between the two normalised bounds, empty when they cross |
| Pagination.PageSlice | app.py:110-114 | a page never holds more than `k` entries, whatever the page number |
| Pagination.PageSliceBlock | app.py:110-114 | page `p >= 1` is the block of entries from `(p - 1) * k` up to `(p - 1) * k + k`, cut at the end of the list |
| Pagination.PageSliceMembers | app.py:114 | a page holds only entries of the list |
| Pagination.ClampedPageShape | app.py:104-114 | the clamped page is in range and non-empty for a non-empty list, full before the last page, holds the remainder on the last page, and is page 1 and empty for an empty list |
| Pagination.EntryOnPage | app.py:104-114 | every entry `i` is entry `i % k` of page `i / k + 1`, and that page is in range |
| Pagination.PaginationExample | app.py:102-114 | 37 entries at 15 per page make 3 pages, page 3 holds 7 entries, and a request for page 4 is served page 3 |
| Ranking.Zip | app.py:64 | `zip` pairs entries position by position and stops at the shortest input |
| Ranking.Insert | app.py:37 | inserting one entry into a descending list adds exactly that entry and keeps the list descending |
| Ranking.SortByScore | app.py:37 | the sort is a permutation of its input and its scores never increase |
| Ranking.SortStable | app.py:37 | entries of equal score keep their input order |
| Ranking.SortCharacterised | app.py:37 | a list is the sort's result exactly when it is descending and keeps the input order within each score |
| Ranking.SortKeepsDistinctNames | app.py:65 | sorting a list with unique names keeps the names unique |
| Ranking.PositiveMembers | app.py:67 | the positive filter keeps exactly the entries scoring above zero, in order |
| Ranking.PositivePrefix | app.py:67 | on a descending list the positive entries are a prefix, and everything after the prefix scores at most zero |
| Ranking.PositiveOfSlice | app.py:39-41 | filtering a block of a descending list gives the same block of its positive prefix |
| Ranking.WithScorePositive | app.py:67 | the positive filter keeps every entry of each positive score, in order, and none of any other score |
| Ranking.RankKeepsPositive | app.py:65-67 | every positive entry of the input survives the sort and the filter |
| Ranking.RankStable | app.py:65-67 | after the sort and the filter, the entries of each positive score are those of the input in input order, and no other score remains |
| Ranking.RankShape | app.py:65-67 | the ranking is descending, holds exactly the positive entries of its input with ties in input order, and has unique names when the input has |
| App.IngredientTexts | app.py:28 | one ingredient text per document, in order, with an absent field read as the empty string |
| App.RankForPantry | app.py:21-37 | the pantry-wide ranking holds exactly the zipped (name, score) pairs, is descending, and keeps pairs of equal score in collection order; so it names only recipes of the collection, at most one entry per document |
| App.GetRecommendations | app.py:19-42 | fails exactly when no recipe has an ingredient text (so always for an empty collection) or the pantry is empty, the ingredient column first; otherwise at most `items_per_page` positive entries, descending, naming only recipes of the collection |
| App.NoIngredientTextFails | app.py:21-28 | a collection whose only recipe has no ingredient text fails with the ingredient-column error, for every pantry |
| App.GetRecommendationsIsPageOfPositive | app.py:39-41 | for a page number of at least 1, slicing then filtering gives that page of the positive-score ranking |
| App.PageOfPositive | app.py:39-41 | on a descending list the positive entries of a page are that page of the positive entries |
| App.Recommend | app.py:186-200 | `/recommend` fails exactly when `get_recommendations` does, with the same error; for a requested page (1 when absent) of at least 1 the recommendations are that page, at 5 per page, of the positive entries of the pantry ranking; `totalPages` is at most 1 and equal to 1 exactly when the page has entries |
| App.GetRecommendationsForIngredient | app.py:45-68 | no candidates give no result; otherwise the result holds exactly the positive-scored rows of the deduplicated candidates, ties in candidate order, descending, with unique names from the candidates and the image of each name's first document |
| App.IngredientRankingShape | app.py:54-67 | sorting and filtering the deduplicated rows keeps exactly the positive ones, ties in candidate order, descending, one per name |
| App.IngredientRankingImages | app.py:54-67 | every ranked row is a candidate recipe carrying the image of the first candidate of that name |
| App.ScoreDocs | app.py:57-64 | one row per document while scores last (zip stops at the shorter), each carrying the document's name and image and the score at its position, with unique names when the documents have |
| App.FirstDocsScored | app.py:54-64 | each zipped row after deduplication carries the image of the first candidate with its name |
| App.RecipesForIngredient | app.py:96-120 | the page count is the ceiling of the ranking's length over 15; the shown page is the requested one (1 when absent) clamped to between 1 and the page count, holds at most 15 rows, is non-empty exactly when something ranks, and lists the page's recipes in order with their missing counts; candidates from the collection never show -1 |
| App.ListPage | app.py:117-120 | one row per shown recipe, in order, with name, score, image and the missing count (-1 exactly for an unknown recipe) |
| App.ListRecipe | app.py:118-120 | a listed recipe keeps its name, score and image and carries its missing count, -1 exactly when the collection lacks it |
| App.RankedFromStore | app.py:47-48 | candidates drawn from the collection rank only recipes the collection holds |
| App.FavoritePages | app.py:359-363 | pages of 10 for the favourites: none for no favourites, otherwise the last page is non-empty |
| Shopping.AddTo | app.py:157-163 | the selection goes after the current list, in order, and nothing already listed moves |
| Shopping.FirstIndex | app.py:217 | the position found holds the ingredient and no earlier position does |
| Shopping.RemoveFirst | app.py:217 | `list.remove` deletes the first occurrence and keeps everything else in order |
| Shopping.DeleteFromShoppingList | app.py:210-221 | succeeds exactly when the ingredient is listed and then removes only its first occurrence; otherwise the list is unchanged; one copy leaves the multiset either way |
| Shopping.MoveToIngredients | app.py:240-256 | the new list is a subsequence without any selected name, unselected names keep their count, and the selection is appended to the pantry in order |
| Shopping.UnselectedCounts | app.py:246 | an unselected ingredient keeps its number of copies on the list |
| Shopping.DeleteAfterAdd | app.py:157-221 | deleting an ingredient just added to a list without it gives back that list and success |
| Shopping.MoveAfterAdd | app.py:245-246 | adding a selection and then moving it leaves the same list as moving it straight away |
| Shopping.MoveIdempotent | app.py:245-246 | moving the same selection twice changes the list only once |

## Left out

- Text-similarity scoring, on app.py lines 30-35 and 58-63, is a parameter
  (`App.Similarity`). It covers the TF-IDF fit with English stop words and
  the cosine similarity from a library. Scores are real numbers: no NaN, and
  no floating-point rounding.
- The vectoriser also fails when no word survives stop-word removal (an empty
  vocabulary). The similarity parameter is total, so that failure is not
  modelled.
- The document store is left out: the queries, inserts, deletes and counts.
  The recipe collection and the pantry are sequences passed in. For the
  per-ingredient ranking, the candidates matched by the case-insensitive
  regular expression on line 47 are a parameter; the regular-expression
  match itself is not modelled.
- A field that is present but holds null is not modelled. Neither is a
  pantry name that is not a string. The model reads an absent ingredient or
  cleaned-ingredient field as empty and always has an image.
- A column read fails when every candidate document lacks that field (for
  example no `image-url` at all). The model has no such failure for the
  per-ingredient ranking. It does model the failure of the `Ingredients`
  and `name` reads in `get_recommendations`.
- `str.lower` and `str.strip` are modelled on ASCII only; Unicode case
  mapping and Unicode whitespace are not.
- The session, request parsing, templates, `jsonify`, redirects and the debug
  `print` calls are replaced by parameters and results. `/recipes/<ingredient>`
  reads `page` as an integer, falling back to 1; the model takes an
  `Option<int>` whose `None` stands for a missing or non-numeric value.
  `/recommend` takes `page` from the JSON body without conversion; there the
  model's `Option<int>` covers only an absent key (page 1) or an integer, and
  a string, float or `null` page, which raises in the slice arithmetic, is
  not modelled. The
  JSON body of `/move_to_ingredients` is modelled as a list of strings.
- `get_recipe_url` and the URL lookups are template helpers with no logic of
  their own. The same goes for the ingredient display routes,
  `update_user_ingredients`, `delete_ingredient`, the favourites routes
  (`add_to_favorites`, `remove_from_favorites`, `is_recipe_in_favorites`,
  `favorite_recipes`) and the second `index` route: each is a single store
  call.
- `move_to_ingredients` inserts each selected name into the pantry
  collection. The model appends it to the pantry sequence.
- Unused parameters are dropped: `items_per_page` of
  `get_recommendations_for_ingredient`, and the ingredient name that
  `/recipes/<ingredient>` passes to `calculate_missing_ingredients_count`.
- Missing.LowerAll: states only the length of the lowered pantry. Its
  content, position by position, is stated by `Missing.LowerAllLowers`,
  because a per-position contract on the function itself makes every proof
  about the missing-ingredient count far slower.
- Missing.RecipeTokens: states only that a split has at least one piece. The
  piece structure is stated by `Text.Split`, `Text.JoinSplit` and
  `Text.SplitJoin`.
- Pagination.PageSlice: states only the size bound for every page number.
  The block shape for page numbers of at least 1 is in
  `Pagination.PageSliceBlock`, and the negative-bound behaviour is in
  `Pagination.PySlice`.
