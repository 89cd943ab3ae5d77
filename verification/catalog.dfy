/** The meal catalogue: the records the catalogue file holds, the meals the
    database keeps (struct Meal in src/meal_db.hpp), how one becomes the other
    (the record loop of MealDB::load_from_file), and what a filter query means. */
module Catalog {
  import opened Util
  import opened Positions

  datatype Option<T> = None | Some(value: T)

  /** A meal as the database keeps it. `tags` holds the meal's attributes. */
  datatype Meal = Meal(
    id: string,
    name: string,
    mealType: string,
    tags: seq<string>,
    allergens: seq<string>,
    ingredients: seq<string>,
    steps: seq<string>)

  /** A filter: an empty meal type is a wildcard; empty strings among the required
      tags and the avoided allergens are ignored. */
  datatype Query = Query(mealType: string, requiredTags: seq<string>, avoidAllergens: seq<string>)

  /** An array-valued field of a catalogue record: missing, an array of strings, or
      present with some other JSON type. */
  datatype ListField = Absent | List(items: seq<string>) | NonList

  /** One element of the catalogue's top-level JSON array: an object whose fields may
      be missing. A field of the wrong JSON type (a number for `id`, a number inside
      `allergens`) makes the JSON library throw, so only well-typed records exist here;
      `tags` is the legacy name of `attributes`. */
  datatype Record = Record(
    id: Option<string>,
    name: Option<string>,
    mealType: Option<string>,
    attributes: ListField,
    tags: ListField,
    allergens: ListField,
    ingredients: ListField,
    steps: ListField)

  /** item.value(key, ""): the string, or "" when the key is missing. */
  function StringOr(f: Option<string>): string
  {
    match f
    case Some(s) => s
    case None => ""
  }

  /** The elements of an array field; nothing when it is missing or not an array. */
  function ItemsOf(f: ListField): seq<string>
  {
    if f.List? then f.items else []
  }

  /** The meal's tags: "attributes" when it is an array, otherwise the legacy
      "tags" when that is an array, otherwise none. */
  function AttributesOf(r: Record): seq<string>
  {
    if r.attributes.List? then r.attributes.items
    else if r.tags.List? then r.tags.items
    else []
  }

  /** The Meal the loop body builds from one record, before the id/name check. */
  function ExtractMeal(r: Record): Meal
  {
    Meal(StringOr(r.id), StringOr(r.name), StringOr(r.mealType), AttributesOf(r),
         ItemsOf(r.allergens), ItemsOf(r.ingredients), ItemsOf(r.steps))
  }

  /** A built meal is kept only when both its id and its name are non-empty. */
  predicate Accepted(m: Meal)
  {
    m.id != "" && m.name != ""
  }

  /** The catalogue a successful load produces from the records of the array. */
  function LoadedMeals(items: seq<Record>): (meals: seq<Meal>)
    ensures |meals| <= |items|
    ensures forall m :: m in meals ==> Accepted(m)
    decreases |items|
  {
    if items == [] then []
    else
      var m := ExtractMeal(items[|items| - 1]);
      var prefix := LoadedMeals(items[..|items| - 1]);
      assert forall x :: x in prefix + [m] ==> x in prefix || x == m;
      if Accepted(m) then prefix + [m] else prefix
  }

  /** Every record turned into a meal, accepted or not. */
  function Extracted(items: seq<Record>): (ms: seq<Meal>)
    ensures |ms| == |items|
  {
    seq(|items|, i requires 0 <= i < |items| => ExtractMeal(items[i]))
  }

  /** The positions of the records whose meal is accepted. */
  ghost function AcceptedPositions(items: seq<Record>): set<int>
  {
    set i | 0 <= i < |items| && Accepted(ExtractMeal(items[i]))
  }

  /** One more record adds its position exactly when its meal is accepted. */
  lemma {:induction false} AcceptedPositionsStep(items: seq<Record>)
    requires items != []
    ensures var n := |items| - 1;
      AcceptedPositions(items) ==
        AcceptedPositions(items[..n]) + (if Accepted(ExtractMeal(items[n])) then {n} else {})
  {
    var n := |items| - 1;
    forall i ensures i in AcceptedPositions(items) <==>
      i in AcceptedPositions(items[..n]) + (if Accepted(ExtractMeal(items[n])) then {n} else {})
    {
      if 0 <= i < n {
        assert items[..n][i] == items[i];
      }
    }
  }

  /** Loading keeps the accepted meals in the order of their records, one per
      accepted record: the catalogue is a subsequence of the built meals, every
      meal in it is accepted, and it is exactly as long as there are accepted
      records, so it is the built meals with the rejected ones deleted. */
  lemma {:induction false} LoadedMealsKeepOrder(items: seq<Record>)
    ensures IsSubsequence(LoadedMeals(items), Extracted(items))
    ensures |LoadedMeals(items)| == |AcceptedPositions(items)|
    decreases |items|
  {
    if items != [] {
      var n := |items| - 1;
      var m := ExtractMeal(items[n]);
      LoadedMealsKeepOrder(items[..n]);
      AcceptedPositionsStep(items);
      assert n !in AcceptedPositions(items[..n]);
      assert Extracted(items) == Extracted(items[..n]) + [m];
      if Accepted(m) {
        SubsequenceAppendBoth(LoadedMeals(items[..n]), Extracted(items[..n]), m);
      } else {
        SubsequenceExtend(LoadedMeals(items[..n]), Extracted(items[..n]), m);
      }
    }
  }

  /** No acceptable record is lost, and nothing but the meals of records is kept. */
  lemma {:induction false} LoadedMealsMembers(items: seq<Record>)
    ensures forall i :: 0 <= i < |items| && Accepted(ExtractMeal(items[i])) ==>
      ExtractMeal(items[i]) in LoadedMeals(items)
    ensures forall m :: m in LoadedMeals(items) ==> exists i :: 0 <= i < |items| && ExtractMeal(items[i]) == m
    decreases |items|
  {
    if items != [] {
      var n := |items| - 1;
      LoadedMealsMembers(items[..n]);
      forall i | 0 <= i < n ensures items[..n][i] == items[i] { }
      var m := ExtractMeal(items[n]);
      assert forall x :: x in LoadedMeals(items) ==> x in LoadedMeals(items[..n]) || (x == m && Accepted(m));
    }
  }

  /** "attributes" wins whenever it is an array: the legacy field is then never read. */
  lemma {:induction false} AttributesShadowLegacyTags(r: Record, legacy: ListField)
    requires r.attributes.List?
    ensures ExtractMeal(r).tags == r.attributes.items
    ensures ExtractMeal(r.(tags := legacy)) == ExtractMeal(r)
  {
  }

  /** When "attributes" is missing or not an array, the legacy "tags" array alone
      supplies the tags, and a non-array "attributes" is as good as a missing one. */
  lemma {:induction false} LegacyTagsFallback(r: Record)
    requires !r.attributes.List?
    ensures ExtractMeal(r).tags == ItemsOf(r.tags)
    ensures ExtractMeal(r.(attributes := Absent)) == ExtractMeal(r)
  {
  }

  /** The two fields are never merged: the tags are one of them, whole, or nothing. */
  lemma {:induction false} TagsNeverMerged(r: Record)
    ensures var t := ExtractMeal(r).tags;
      (r.attributes.List? && t == r.attributes.items) ||
      (r.tags.List? && t == r.tags.items) ||
      t == []
  {
  }

  // ---------------------------------------------------------------------------
  // What a filter query selects

  predicate TypeMatches(m: Meal, mealType: string)
  {
    mealType == "" || ToLower(m.mealType) == ToLower(mealType)
  }

  predicate HasTags(m: Meal, required: seq<string>)
  {
    forall t :: t in required && t != "" ==> ContainsCi(m.tags, t)
  }

  predicate AvoidsAll(m: Meal, avoid: seq<string>)
  {
    forall a :: a in avoid && a != "" ==> !ContainsCi(m.allergens, a)
  }

  /** Checking the required tags one at a time: the first j+1 hold exactly when the
      first j do and the next one is empty or present. */
  lemma {:induction false} HasTagsStep(m: Meal, required: seq<string>, j: nat)
    requires j < |required|
    ensures HasTags(m, required[..j + 1]) <==>
      HasTags(m, required[..j]) && (required[j] == "" || ContainsCi(m.tags, required[j]))
  {
    assert required[..j + 1] == required[..j] + [required[j]];
  }

  /** Checking the avoided allergens one at a time, as the inner loop of the
      allergen pass does. */
  lemma {:induction false} AvoidsAllStep(m: Meal, avoid: seq<string>, j: nat)
    requires j < |avoid|
    ensures AvoidsAll(m, avoid[..j + 1]) <==>
      AvoidsAll(m, avoid[..j]) && (avoid[j] == "" || !ContainsCi(m.allergens, avoid[j]))
    ensures !AvoidsAll(m, avoid[..j + 1]) ==> !AvoidsAll(m, avoid)
  {
    assert avoid[..j + 1] == avoid[..j] + [avoid[j]];
    forall a | a in avoid[..j + 1] ensures a in avoid { }
  }

  /** A meal matches a query when its type equals the query's (ignoring case) if one
      is given, it has every non-empty required tag (ignoring case), and none of its
      allergens equals a non-empty avoided one (ignoring case). */
  predicate Matches(m: Meal, q: Query)
  {
    TypeMatches(m, q.mealType) && HasTags(m, q.requiredTags) && AvoidsAll(m, q.avoidAllergens)
  }

  /** The catalogue positions of the matching meals, in catalogue order. */
  function Select(meals: seq<Meal>, q: Query): (r: seq<nat>)
    ensures forall p :: p in r ==> p < |meals|
    decreases |meals|
  {
    if meals == [] then []
    else
      var n := |meals| - 1;
      var prefix := Select(meals[..n], q);
      assert forall x :: x in prefix + [n] ==> x in prefix || x == n;
      if Matches(meals[n], q) then prefix + [n] else prefix
  }

  /** Select lists positions in strictly increasing order. */
  lemma {:induction false} SelectAscending(meals: seq<Meal>, q: Query)
    ensures Ascending(Select(meals, q))
    decreases |meals|
  {
    if meals != [] {
      var n := |meals| - 1;
      SelectAscending(meals[..n], q);
      var prefix := Select(meals[..n], q);
      if Matches(meals[n], q) {
        AscendingAppend(prefix, n);
      }
    }
  }

  /** Select lists exactly the positions whose meals match. */
  lemma {:induction false} SelectMembers(meals: seq<Meal>, q: Query)
    ensures forall p: nat :: p in Select(meals, q) <==> p < |meals| && Matches(meals[p], q)
    decreases |meals|
  {
    if meals != [] {
      var n := |meals| - 1;
      SelectMembers(meals[..n], q);
      forall p | 0 <= p < n ensures meals[..n][p] == meals[p] { }
      var prefix := Select(meals[..n], q);
      assert forall x :: x in Select(meals, q) <==> x in prefix || (x == n && Matches(meals[n], q));
    }
  }

  /** Select lists, ascending, exactly the positions whose meals match. */
  lemma {:induction false} SelectSpec(meals: seq<Meal>, q: Query)
    ensures Ascending(Select(meals, q))
    ensures forall p: nat :: p in Select(meals, q) <==> p < |meals| && Matches(meals[p], q)
  {
    SelectAscending(meals, q);
    SelectMembers(meals, q);
  }

  /** With no constraint at all, every position is selected, in order. */
  lemma {:induction false} EmptyQuerySelectsAll(meals: seq<Meal>)
    ensures Select(meals, Query("", [], [])) == AllPositions(|meals|)
    decreases |meals|
  {
    if meals != [] {
      var n := |meals| - 1;
      EmptyQuerySelectsAll(meals[..n]);
      assert Matches(meals[n], Query("", [], []));
      assert AllPositions(n) + [n] == AllPositions(n + 1);
    }
  }

  /** When no meal matches, nothing is selected. */
  lemma {:induction false} NoMatchSelectsNothing(meals: seq<Meal>, q: Query)
    requires forall i :: 0 <= i < |meals| ==> !Matches(meals[i], q)
    ensures Select(meals, q) == []
    decreases |meals|
  {
    if meals != [] {
      var n := |meals| - 1;
      forall i | 0 <= i < n ensures !Matches(meals[..n][i], q) {
        assert meals[..n][i] == meals[i];
      }
      NoMatchSelectsNothing(meals[..n], q);
    }
  }

  /** A meal type no meal has selects nothing, not everything. */
  lemma {:induction false} UnknownTypeSelectsNothing(meals: seq<Meal>, q: Query)
    requires q.mealType != ""
    requires forall m :: m in meals ==> ToLower(m.mealType) != ToLower(q.mealType)
    ensures Select(meals, q) == []
  {
    assert forall i :: 0 <= i < |meals| ==> meals[i] in meals;
    NoMatchSelectsNothing(meals, q);
  }

  /** A required tag no meal has selects nothing, whatever the other terms. */
  lemma {:induction false} UnknownTagSelectsNothing(meals: seq<Meal>, q: Query, t: string)
    requires t in q.requiredTags && t != ""
    requires forall m :: m in meals ==> !ContainsCi(m.tags, t)
    ensures Select(meals, q) == []
  {
    assert forall i :: 0 <= i < |meals| ==> meals[i] in meals;
    NoMatchSelectsNothing(meals, q);
  }

  /** A query that accepts fewer meals selects a subsequence of the positions. */
  lemma {:induction false} SelectMonotone(meals: seq<Meal>, wide: Query, narrow: Query)
    requires forall m :: Matches(m, narrow) ==> Matches(m, wide)
    ensures IsSubsequence(Select(meals, narrow), Select(meals, wide))
    decreases |meals|
  {
    if meals != [] {
      var n: nat := |meals| - 1;
      SelectMonotone(meals[..n], wide, narrow);
      var a, b := Select(meals[..n], narrow), Select(meals[..n], wide);
      if Matches(meals[n], narrow) {
        SubsequenceAppendBoth(a, b, n);
      } else if Matches(meals[n], wide) {
        SubsequenceExtend(a, b, n);
      }
    }
  }

  /** Monotonic narrowing: one more required tag keeps a subsequence of the result. */
  lemma {:induction false} NarrowByTag(meals: seq<Meal>, q: Query, t: string)
    ensures IsSubsequence(Select(meals, q.(requiredTags := q.requiredTags + [t])), Select(meals, q))
  {
    var q' := q.(requiredTags := q.requiredTags + [t]);
    forall m | Matches(m, q') ensures Matches(m, q) {
      forall x | x in q.requiredTags && x != "" ensures ContainsCi(m.tags, x) {
        assert x in q'.requiredTags;
      }
    }
    SelectMonotone(meals, q, q');
  }

  /** Monotonic narrowing: one more avoided allergen keeps a subsequence of the result. */
  lemma {:induction false} NarrowByAvoid(meals: seq<Meal>, q: Query, a: string)
    ensures IsSubsequence(Select(meals, q.(avoidAllergens := q.avoidAllergens + [a])), Select(meals, q))
  {
    var q' := q.(avoidAllergens := q.avoidAllergens + [a]);
    forall m | Matches(m, q') ensures Matches(m, q) {
      forall x | x in q.avoidAllergens && x != "" ensures !ContainsCi(m.allergens, x) {
        assert x in q'.avoidAllergens;
      }
    }
    SelectMonotone(meals, q, q');
  }

  /** The two-meal catalogue used in the examples below: Oatmeal (breakfast,
      quick) and Toast (breakfast, contains gluten). */
  function ExampleMeals(): seq<Meal>
  {
    [Meal("m1", "Oatmeal", "breakfast", ["quick"], [], [], []),
     Meal("m2", "Toast", "breakfast", [], ["gluten"], [], [])]
  }

  /** Breakfasts without gluten: only Oatmeal. */
  lemma {:induction false} AvoidGlutenExample()
    ensures Select(ExampleMeals(), Query("breakfast", [], ["gluten"])) == [0]
  {
    var meals, q := ExampleMeals(), Query("breakfast", [], ["gluten"]);
    assert ContainsCi(meals[1].allergens, "gluten") by { ContainsCiSingleton("gluten", "gluten"); }
    assert !Matches(meals[1], q) by { assert "gluten" in q.avoidAllergens; }
    assert Matches(meals[0], q);
    ExampleSelect(meals, q);
  }

  /** Requiring "quick": only Oatmeal. */
  lemma {:induction false} RequireQuickExample()
    ensures Select(ExampleMeals(), Query("", ["quick"], [])) == [0]
  {
    var meals, q := ExampleMeals(), Query("", ["quick"], []);
    assert ContainsCi(meals[0].tags, "quick") by { ContainsCiSingleton("quick", "quick"); }
    assert Matches(meals[0], q);
    assert !Matches(meals[1], q);
    ExampleSelect(meals, q);
  }

  /** Requiring an attribute no meal has: nothing. */
  lemma {:induction false} RequireUnknownExample()
    ensures Select(ExampleMeals(), Query("", ["nonexistent"], [])) == []
  {
    var meals, q := ExampleMeals(), Query("", ["nonexistent"], []);
    assert !ContainsCi(meals[0].tags, "nonexistent") by {
      ContainsCiSingleton("quick", "nonexistent");
      FoldsApart("quick", "nonexistent");
    }
    assert !Matches(meals[0], q) by { assert "nonexistent" in q.requiredTags; }
    assert !Matches(meals[1], q);
    assert meals[..1][..0] == [];
    assert meals[..1][0] == meals[0];
    assert Select(meals[..1], q) == [];
  }

  /** A one-element list holds the needle, ignoring case, exactly when its element
      folds to the same string. */
  lemma {:induction false} ContainsCiSingleton(x: string, needle: string)
    ensures ContainsCi([x], needle) <==> ToLower(x) == ToLower(needle)
  {
    assert x in [x];
  }

  /** Strings of different lengths never fold to the same string. */
  lemma {:induction false} FoldsApart(a: string, b: string)
    requires |a| != |b|
    ensures ToLower(a) != ToLower(b)
  {
  }

  /** Of two meals, only the first matching selects position 0 alone. */
  lemma {:induction false} ExampleSelect(meals: seq<Meal>, q: Query)
    requires |meals| == 2 && Matches(meals[0], q) && !Matches(meals[1], q)
    ensures Select(meals, q) == [0]
  {
    assert meals[..1][..0] == [];
    assert meals[..1][0] == meals[0];
    assert Select(meals[..1], q) == [0];
  }
}
