/** Missing ingredients of a recipe: the cleaned ingredient text is split on
    commas and every piece whose trimmed, lowercased form is not in the
    lowercased pantry is missing. Two consumers compute this: a counting loop
    and a list comprehension that keeps the pieces as written. */
module Missing {
  import opened Wrappers
  import opened Seqs
  import opened Text
  import opened Store

  /** The pantry as the membership test sees it: every owned name lowercased. */
  function LowerAll(names: seq<string>): (r: seq<string>)
    ensures |r| == |names|
  {
    seq(|names|, i requires 0 <= i < |names| => Lower(names[i]))
  }

  /** The lowered pantry holds, position by position, the lowered owned
      names, so every owned name is found in its lowered form. */
  lemma LowerAllLowers(names: seq<string>)
    ensures forall i :: 0 <= i < |names| ==> LowerAll(names)[i] == Lower(names[i])
    ensures forall n :: n in names ==> Lower(n) in LowerAll(names)
  {
  }

  /** The comma-split pieces of a recipe's cleaned ingredient text; an absent
      field reads as the empty string. */
  function RecipeTokens(doc: RecipeDoc): (r: seq<string>)
    ensures |r| >= 1
  {
    Split(doc.cleaned.GetOr(""))
  }

  /** The list comprehension keeping, in order and unstripped, every token whose
      normalised form is not in the pantry. */
  function MissingTokens(tokens: seq<string>, pantry: seq<string>): (r: seq<string>)
    ensures Subseq(r, tokens)
  {
    FilterIsSubseq(tokens, t => Normalize(t) !in pantry);
    Filter(tokens, t => Normalize(t) !in pantry)
  }

  /** A token is listed exactly when it occurs and its normalised form is not
      owned; the list is empty exactly when every normalised token is owned. */
  lemma MissingTokensMembers(tokens: seq<string>, pantry: seq<string>)
    ensures forall t :: t in MissingTokens(tokens, pantry) <==> t in tokens && Normalize(t) !in pantry
    ensures |MissingTokens(tokens, pantry)| == 0 <==> forall t :: t in tokens ==> Normalize(t) in pantry
  {
    var r := MissingTokens(tokens, pantry);
    FilterMembers(tokens, t => Normalize(t) !in pantry);
    assert |r| > 0 ==> r[0] in r;
  }

  /** Appending a token appends it to the missing list exactly when it is missing. */
  lemma MissingTokensSnoc(tokens: seq<string>, x: string, pantry: seq<string>)
    ensures MissingTokens(tokens + [x], pantry)
         == MissingTokens(tokens, pantry) + (if Normalize(x) !in pantry then [x] else [])
  {
    var s := tokens + [x];
    assert s[..|s| - 1] == tokens;
  }

  /** Positions of the tokens that are missing: an independent definition of the count. */
  function MissingPositions(tokens: seq<string>, pantry: seq<string>): set<nat>
  {
    set i: nat | i < |tokens| && Normalize(tokens[i]) !in pantry
  }

  /** Appending a token adds its position exactly when it is missing. */
  lemma MissingPositionsSnoc(tokens: seq<string>, x: string, pantry: seq<string>)
    ensures MissingPositions(tokens + [x], pantry)
         == MissingPositions(tokens, pantry) + (if Normalize(x) !in pantry then {|tokens|} else {})
    ensures |tokens| !in MissingPositions(tokens, pantry)
  {
    var s := tokens + [x];
    assert forall i :: 0 <= i < |tokens| ==> s[i] == tokens[i];
  }

  /** The comprehension keeps exactly one entry per missing position. */
  lemma {:induction false} MissingTokensCountsPositions(tokens: seq<string>, pantry: seq<string>)
    ensures |MissingTokens(tokens, pantry)| == |MissingPositions(tokens, pantry)|
    decreases |tokens|
  {
    if |tokens| > 0 {
      var n := |tokens| - 1;
      var init := tokens[..n];
      SnocLast(tokens);
      MissingTokensCountsPositions(init, pantry);
      MissingTokensSnoc(init, tokens[n], pantry);
      MissingPositionsSnoc(init, tokens[n], pantry);
    }
  }

  /** The counting loop: one increment per token whose normalised form is not
      in the pantry. */
  method CountMissing(tokens: seq<string>, pantry: seq<string>) returns (count: nat)
    ensures count == |MissingTokens(tokens, pantry)|
    ensures count == |MissingPositions(tokens, pantry)|
    ensures count <= |tokens|
  {
    count := 0;
    var i := 0;
    while i < |tokens|
      invariant 0 <= i <= |tokens|
      invariant count == |MissingTokens(tokens[..i], pantry)|
    {
      MissingTokensSnoc(tokens[..i], tokens[i], pantry);
      PrefixSnoc(tokens, i);
      if Normalize(tokens[i]) !in pantry {
        count := count + 1;
      }
      i := i + 1;
    }
    assert tokens[..i] == tokens;
    MissingTokensCountsPositions(tokens, pantry);
    SubseqMembers(MissingTokens(tokens, pantry), tokens);
  }

  /** The missing-ingredients page: `None` when no recipe has that name (the
      "recipe not found" page), otherwise the missing pieces as written. */
  function MissingIngredientsList(store: seq<RecipeDoc>, recipeName: string, pantryNames: seq<string>)
    : (r: Option<seq<string>>)
    ensures r.None? <==> recipeName !in Names(store)
    ensures r.Some? ==>
      var tokens := RecipeTokens(FindByName(store, recipeName).value);
      && Subseq(r.value, tokens)
      && forall t :: t in r.value <==> t in tokens && Lower(Strip(t)) !in LowerAll(pantryNames)
  {
    match FindByName(store, recipeName)
    case None => None
    case Some(doc) =>
      MissingTokensMembers(RecipeTokens(doc), LowerAll(pantryNames));
      Some(MissingTokens(RecipeTokens(doc), LowerAll(pantryNames)))
  }

  /** Missing-ingredient count of a recipe, or the sentinel -1 when no recipe has
      that name. A found recipe's count is never negative, never exceeds its
      number of pieces, agrees with the length of the missing list, and is zero
      exactly when every normalised piece is in the pantry. */
  method CalculateMissingIngredientsCount(store: seq<RecipeDoc>, recipeName: string, pantryNames: seq<string>)
    returns (count: int)
    ensures count == -1 <==> recipeName !in Names(store)
    ensures count != -1 ==>
      var tokens := RecipeTokens(FindByName(store, recipeName).value);
      && 0 <= count <= |tokens|
      && count == |MissingIngredientsList(store, recipeName, pantryNames).value|
      && count == |MissingPositions(tokens, LowerAll(pantryNames))|
      && (count == 0 <==> forall t :: t in tokens ==> Normalize(t) in LowerAll(pantryNames))
  {
    var found := FindByName(store, recipeName);
    if found.None? {
      return -1;
    }
    var tokens := RecipeTokens(found.value);
    var pantry := LowerAll(pantryNames);
    count := CountMissing(tokens, pantry);
    MissingTokensMembers(tokens, pantry);
  }

  /** With "egg" and "sugar" owned, only the padded, capitalised " Flour "
      piece of "egg, Flour , sugar" is missing. */
  lemma MissingExample()
    ensures MissingTokens(Split("egg, Flour , sugar"), ["egg", "sugar"]) == [" Flour "]
  {
    var pantry := ["egg", "sugar"];
    ExampleSplit();
    ExampleNormalize();
    MissingTokensSnoc([], "egg", pantry);
    assert [] + ["egg"] == ["egg"];
    MissingTokensSnoc(["egg"], " Flour ", pantry);
    assert ["egg"] + [" Flour "] == ["egg", " Flour "];
    MissingTokensSnoc(["egg", " Flour "], " sugar", pantry);
    assert ["egg", " Flour "] + [" sugar"] == ["egg", " Flour ", " sugar"];
  }

  lemma ExampleSplit()
    ensures Split("egg, Flour , sugar") == ["egg", " Flour ", " sugar"]
  {
    SplitJoin(["egg", " Flour ", " sugar"]);
    assert Join(["egg", " Flour ", " sugar"]) == "egg, Flour , sugar";
  }

  lemma ExampleNormalize()
    ensures Normalize("egg") == "egg"
    ensures Normalize(" Flour ") == "flour"
    ensures Normalize(" sugar") == "sugar"
  {
    NormalizeEgg();
    NormalizeFlour();
    NormalizeSugar();
  }

  lemma NormalizeEgg()
    ensures Normalize("egg") == "egg"
  {
    assert StripLeft("egg") == "egg";
    assert StripRight("egg") == "egg";
    assert Lower("egg") == "egg";
  }

  lemma NormalizeFlour()
    ensures Normalize(" Flour ") == "flour"
  {
    NormalizePadded(" ", "Flour", " ");
    assert " " + "Flour" + " " == " Flour ";
    assert Lower("Flour") == "flour";
  }

  lemma NormalizeSugar()
    ensures Normalize(" sugar") == "sugar"
  {
    NormalizePadded(" ", "sugar", "");
    assert " " + "sugar" + "" == " sugar";
    assert Lower("sugar") == "sugar";
  }

  /** An empty or absent cleaned-ingredient field splits into one empty piece,
      which counts as missing unless the pantry holds the empty name. */
  lemma EmptyFieldCountsOnce(pantry: seq<string>)
    requires "" !in pantry
    ensures MissingTokens(Split(""), pantry) == [""]
  {
    assert Strip("") == "";
    assert Normalize("") == "";
  }
}
