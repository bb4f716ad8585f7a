/** The session shopping list: ingredients are appended from a recipe's
    missing list, deleted one occurrence at a time, and moved into the pantry. */
module Shopping {
  import opened Seqs

  /** `add_to`: the selected ingredients go after the current list, in order,
      and nothing already on the list moves. */
  function AddTo(list: seq<string>, selected: seq<string>): (r: seq<string>)
    ensures |r| == |list| + |selected|
    ensures r[..|list|] == list && r[|list|..] == selected
    ensures multiset(r) == multiset(list) + multiset(selected)
  {
    list + selected
  }

  /** Position of the first occurrence of `x`. */
  function FirstIndex(list: seq<string>, x: string): (i: nat)
    requires x in list
    ensures i < |list| && list[i] == x && x !in list[..i]
    decreases |list|
  {
    if list[0] == x then 0
    else
      var i := 1 + FirstIndex(list[1..], x);
      assert list[..i] == [list[0]] + list[1..][..i - 1];
      i
  }

  /** Python's `list.remove(x)` on a list holding `x`. */
  function RemoveFirst(list: seq<string>, x: string): (r: seq<string>)
    requires x in list
    ensures r == list[..FirstIndex(list, x)] + list[FirstIndex(list, x) + 1..]
    decreases |list|
  {
    if list[0] == x then list[1..]
    else
      var tail := list[1..];
      var j := FirstIndex(tail, x);
      assert FirstIndex(list, x) == j + 1;
      assert list[..j + 1] == [list[0]] + tail[..j];
      assert list[j + 2..] == tail[j + 1..];
      [list[0]] + RemoveFirst(tail, x)
  }

  /** The list after a delete request and the `success` flag of the reply. */
  datatype Deletion = Deletion(list: seq<string>, success: bool)

  /** `delete_from_shopping_list`: succeeds exactly when the ingredient is on the
      list, and then removes its first occurrence and nothing else; otherwise
      the list is left as it was. */
  function DeleteFromShoppingList(list: seq<string>, ingredient: string): (r: Deletion)
    ensures r.success <==> ingredient in list
    ensures !r.success ==> r.list == list
    ensures r.success ==>
      var i := FirstIndex(list, ingredient);
      r.list == list[..i] + list[i + 1..]
    ensures multiset(r.list) == multiset(list) - multiset{ingredient}
  {
    if ingredient in list then
      var i := FirstIndex(list, ingredient);
      assert list == list[..i] + [ingredient] + list[i + 1..];
      Deletion(RemoveFirst(list, ingredient), true)
    else
      assert multiset(list)[ingredient] == 0;
      Deletion(list, false)
  }

  /** The shopping list and the pantry after a move request. */
  datatype Move = Move(list: seq<string>, pantry: seq<string>)

  /** `move_to_ingredients`: every entry equal to a selected name leaves the
      shopping list, the other entries stay in their order with their
      multiplicity, and each selected name is added to the pantry in order. */
  function MoveToIngredients(list: seq<string>, selected: seq<string>, pantry: seq<string>): (r: Move)
    ensures Subseq(r.list, list)
    ensures forall x :: x in r.list ==> x !in selected
    ensures forall x :: x !in selected ==> multiset(r.list)[x] == multiset(list)[x]
    ensures |r.pantry| == |pantry| + |selected|
    ensures r.pantry[..|pantry|] == pantry && r.pantry[|pantry|..] == selected
  {
    var kept := Filter(list, x => x !in selected);
    FilterIsSubseq(list, x => x !in selected);
    FilterMembers(list, x => x !in selected);
    UnselectedCounts(list, selected);
    Move(kept, pantry + selected)
  }

  lemma {:induction false} UnselectedCounts(list: seq<string>, selected: seq<string>)
    ensures forall x :: x !in selected ==> multiset(Filter(list, y => y !in selected))[x] == multiset(list)[x]
    decreases |list|
  {
    if |list| > 0 {
      var init := list[..|list| - 1];
      UnselectedCounts(init, selected);
      assert init + [list[|list| - 1]] == list;
    }
  }

  /** Deleting an ingredient that was just added to a list not holding it
      gives back the list and reports success. */
  lemma DeleteAfterAdd(list: seq<string>, x: string)
    requires x !in list
    ensures DeleteFromShoppingList(AddTo(list, [x]), x) == Deletion(list, true)
  {
    var l := AddTo(list, [x]);
    assert l[..|list|] == list;
    var i := FirstIndex(l, x);
    assert i == |list|;
  }

  /** Adding ingredients and then moving them leaves the same shopping list as
      moving them straight away. */
  lemma MoveAfterAdd(list: seq<string>, selected: seq<string>, pantry: seq<string>)
    ensures MoveToIngredients(AddTo(list, selected), selected, pantry).list
         == MoveToIngredients(list, selected, pantry).list
  {
    var keep := (y: string) => y !in selected;
    FilterAppend(list, selected, keep);
    FilterNone(selected, keep);
  }

  /** Moving the same names twice changes the list only once. */
  lemma MoveIdempotent(list: seq<string>, selected: seq<string>, pantry: seq<string>)
    ensures var once := MoveToIngredients(list, selected, pantry).list;
      MoveToIngredients(once, selected, pantry).list == once
  {
    var keep := (y: string) => y !in selected;
    var once := Filter(list, keep);
    FilterMembers(list, keep);
    FilterAll(once, keep);
  }
}
