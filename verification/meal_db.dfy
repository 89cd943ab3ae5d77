/** The meal catalogue object (class MealDB in src/meal_db.hpp and src/meal_db.cpp):
    the loaded meals, the two lookup tables built from them, and the set of
    favourite meal ids.

    Files are not opened here. What a read would have produced is handed to each
    operation as a value (CatalogFile, FavoritesFile), and whether the favourites
    file could be opened for writing is a parameter of SaveFavorites. */
module MealDatabase {
  import opened Util
  import opened Positions
  import opened Catalog
  import opened MealIndex

  /** The parsed top-level value of the catalogue file. */
  datatype CatalogJson = JsonArray(items: seq<Record>) | NotArray

  /** What reading the catalogue file gave: it could not be opened, the JSON parser
      threw (with its message), or it parsed. */
  datatype CatalogFile = Unopenable | Unparsable(reason: string) | Parsed(json: CatalogJson)

  /** What reading the favourites file gave: it could not be opened (missing or
      unreadable, which the loader does not tell apart), the JSON parser threw,
      or it parsed and its "favorites" member is this field (Absent when the document
      has no such member, or is not an object). */
  datatype FavoritesFile = Unopened | Corrupt | FavoritesJson(favorites: ListField)

  /** The bool result and the error out-parameter of the loaders. */
  datatype Status = Ok | Failed(message: string)

  /** The outcome of save_favorites: the ids written to the "favorites" array, in
      the order they were written, or the error. */
  datatype SaveResult = Saved(written: seq<string>) | SaveFailed(message: string)

  /** The favourite set a favourites file holds: the strings of its "favorites"
      array, or none. */
  function FavoritesIn(file: FavoritesFile): set<string>
  {
    if file.FavoritesJson? && file.favorites.List? then set x | x in file.favorites.items else {}
  }

  predicate Distinct<T(==)>(s: seq<T>)
  {
    forall i, j :: 0 <= i < j < |s| ==> s[i] != s[j]
  }

  // ---------------------------------------------------------------------------
  // favorite_meals

  /** The catalogue positions whose meal id is a favourite, in catalogue order. */
  function FavoritePositions(meals: seq<Meal>, favs: set<string>): (r: seq<nat>)
    ensures forall p :: p in r ==> p < |meals|
    decreases |meals|
  {
    if meals == [] then []
    else
      var n := |meals| - 1;
      var prefix := FavoritePositions(meals[..n], favs);
      assert forall x :: x in prefix + [n] ==> x in prefix || x == n;
      if meals[n].id in favs then prefix + [n] else prefix
  }

  /** favorite_meals lists each catalogue entry whose id is a favourite, once, in
      catalogue order. */
  lemma {:induction false} FavoritePositionsSpec(meals: seq<Meal>, favs: set<string>)
    ensures Ascending(FavoritePositions(meals, favs))
    ensures forall p: nat :: p in FavoritePositions(meals, favs) <==> p < |meals| && meals[p].id in favs
    decreases |meals|
  {
    if meals != [] {
      var n := |meals| - 1;
      var prefix := FavoritePositions(meals[..n], favs);
      FavoritePositionsSpec(meals[..n], favs);
      forall p | 0 <= p < n ensures meals[..n][p] == meals[p] { }
      if meals[n].id in favs {
        AscendingAppend(prefix, n);
      }
    }
  }

  /** A favourite id that names no meal is kept in the set but shows up nowhere: only
      the favourites that occur in the catalogue matter. */
  lemma {:induction false} DanglingFavoritesIgnored(meals: seq<Meal>, favs: set<string>)
    ensures FavoritePositions(meals, favs) ==
      FavoritePositions(meals, favs * (set m | m in meals :: m.id))
  {
    var known := favs * (set m | m in meals :: m.id);
    FavoritePositionsSpec(meals, favs);
    FavoritePositionsSpec(meals, known);
    forall p: nat | p < |meals| && meals[p].id in favs ensures meals[p].id in known {
      assert meals[p] in meals;
    }
    AscendingUnique(FavoritePositions(meals, favs), FavoritePositions(meals, known));
  }

  // ---------------------------------------------------------------------------
  // The two passes of filter that are not table lookups

  /** One required-tag pass: keep the candidates the tag's list allows, in order. */
  method KeepAllowed(candidates: seq<nat>, allowed: set<nat>) returns (next: seq<nat>)
    ensures forall x :: x in next <==> x in candidates && x in allowed
    ensures IsSubsequence(next, candidates)
    ensures Ascending(candidates) ==> Ascending(next)
  {
    next := [];
    var i := 0;
    while i < |candidates|
      invariant i <= |candidates|
      invariant forall x :: x in next <==> x in candidates[..i] && x in allowed
      invariant IsSubsequence(next, candidates[..i])
    {
      var idx := candidates[i];
      SubsequenceFilterStep(next, candidates, i, idx in allowed);
      if idx in allowed {
        next := next + [idx];
      }
      assert candidates[..i + 1] == candidates[..i] + [idx];
      i := i + 1;
    }
    assert candidates[..i] == candidates;
    if Ascending(candidates) {
      SubsequenceAscending(next, candidates);
    }
  }

  /** The allergen pass: keep, in order, the candidates whose meal has none of the
      non-empty avoided allergens. Each meal's check stops at the first hit. */
  method DropAllergic(meals: seq<Meal>, candidates: seq<nat>, avoid: seq<string>) returns (next: seq<nat>)
    requires forall x :: x in candidates ==> x < |meals|
    ensures forall x :: x in next <==> x in candidates && AvoidsAll(meals[x], avoid)
    ensures IsSubsequence(next, candidates)
    ensures Ascending(candidates) ==> Ascending(next)
  {
    next := [];
    var i := 0;
    while i < |candidates|
      invariant i <= |candidates|
      invariant forall x :: x in next <==> x in candidates[..i] && x < |meals| && AvoidsAll(meals[x], avoid)
      invariant IsSubsequence(next, candidates[..i])
    {
      var idx := candidates[i];
      assert idx in candidates;
      var m := meals[idx];
      var ok := true;
      var a := 0;
      while a < |avoid| && ok
        invariant a <= |avoid|
        invariant ok == AvoidsAll(m, avoid[..a])
        invariant !ok ==> !AvoidsAll(m, avoid)
      {
        AvoidsAllStep(m, avoid, a);
        if avoid[a] != "" && ContainsCi(m.allergens, avoid[a]) {
          ok := false;
        }
        a := a + 1;
      }
      SubsequenceFilterStep(next, candidates, i, ok);
      if ok {
        assert avoid[..a] == avoid;
        next := next + [idx];
      }
      assert candidates[..i + 1] == candidates[..i] + [idx];
      i := i + 1;
    }
    assert candidates[..i] == candidates;
    if Ascending(candidates) {
      SubsequenceAscending(next, candidates);
    }
  }

  /** A meal that has every required tag also has the first j of them. */
  lemma {:induction false} HasTagsPrefix(m: Meal, required: seq<string>, j: nat)
    requires j <= |required|
    requires HasTags(m, required)
    ensures HasTags(m, required[..j])
  {
    forall t | t in required[..j] ensures t in required { }
  }

  class MealDB {
    var meals: seq<Meal>
    var byType: Index
    var byTag: Index
    var favorites: set<string>

    /** The lookup tables are the ones build_indexes makes from the current meals. */
    ghost predicate Valid()
      reads this
    {
      byType == TypeIndex(meals) && byTag == TagIndex(meals)
    }

    /** A fresh database: no meals, empty tables, no favourites. */
    constructor()
      ensures Valid()
      ensures meals == [] && favorites == {}
    {
      meals := [];
      byType := map[];
      byTag := map[];
      favorites := {};
    }

    /** load_from_file: on a read or parse failure, or when the top-level value is
        not an array, nothing changes and the error is reported; otherwise the
        catalogue is replaced by the accepted records and the tables are rebuilt. */
    method LoadFromFile(path: string, file: CatalogFile) returns (status: Status)
      requires Valid()
      modifies this`meals, this`byType, this`byTag
      ensures Valid()
      ensures file.Unopenable? ==> status == Failed("Could not open file: " + path)
      ensures file.Unparsable? ==> status == Failed("JSON parse error: " + file.reason)
      ensures file.Parsed? && file.json.NotArray? ==> status == Failed("Expected a JSON array at top-level")
      ensures status.Failed? ==> meals == old(meals) && byType == old(byType) && byTag == old(byTag)
      ensures file.Parsed? && file.json.JsonArray? ==> status == Ok && meals == LoadedMeals(file.json.items)
    {
      match file
      case Unopenable =>
        return Failed("Could not open file: " + path);
      case Unparsable(reason) =>
        return Failed("JSON parse error: " + reason);
      case Parsed(NotArray) =>
        return Failed("Expected a JSON array at top-level");
      case Parsed(JsonArray(items)) =>
        meals := [];
        var i := 0;
        while i < |items|
          invariant i <= |items|
          invariant meals == LoadedMeals(items[..i])
        {
          var m := ExtractMeal(items[i]);
          assert items[..i + 1][..i] == items[..i];
          if Accepted(m) {
            meals := meals + [m];
          }
          i := i + 1;
        }
        assert items[..i] == items;
        BuildIndexes();
        return Ok;
    }

    /** build_indexes: clear both tables, then visit the meals in order, filing each
        under its folded non-empty type and under each of its folded non-empty tags. */
    method BuildIndexes()
      modifies this`byType, this`byTag
      ensures Valid()
    {
      byType := map[];
      byTag := map[];
      var i := 0;
      while i < |meals|
        invariant i <= |meals|
        invariant byType == TypeIndex(meals[..i]) && byTag == TagIndex(meals[..i])
      {
        var m := meals[i];
        assert meals[..i + 1][..i] == meals[..i];
        if m.mealType != "" {
          byType := Push(byType, ToLower(m.mealType), i);
        }
        ghost var before := byTag;
        var j := 0;
        while j < |m.tags|
          invariant j <= |m.tags|
          invariant PushTags(byTag, m.tags[j..], i) == PushTags(before, m.tags, i)
          invariant byType == TypeIndex(meals[..i + 1])
        {
          var t := m.tags[j];
          assert m.tags[j..][1..] == m.tags[j + 1..];
          if t != "" {
            byTag := Push(byTag, ToLower(t), i);
          }
          j := j + 1;
        }
        assert m.tags[j..] == [];
        i := i + 1;
      }
      assert meals[..i] == meals;
    }

    /** The start of filter: the bucket of the folded meal type when a type is
        asked for, otherwise every position. Either way the pool holds exactly the
        meals of the asked type, in catalogue order; `found` is false when the type
        has no bucket, where filter gives up at once. */
    method StartPool(mealType: string) returns (pool: seq<nat>, found: bool)
      requires Valid()
      ensures Ascending(pool)
      ensures forall x: nat :: x in pool <==> x < |meals| && TypeMatches(meals[x], mealType)
      ensures !found ==> pool == [] && mealType != ""
      ensures found <==> mealType == "" || ToLower(mealType) in byType
    {
      if mealType != "" {
        var key := ToLower(mealType);
        TypeBucketMembers(meals, mealType);
        if key !in byType {
          return [], false;
        }
        return byType[key], true;
      }
      pool := [];
      var i := 0;
      while i < |meals|
        invariant i <= |meals|
        invariant pool == AllPositions(i)
      {
        pool := pool + [i];
        i := i + 1;
      }
      AllPositionsSpec(|meals|);
      found := true;
    }

    /** The required-tag pass of filter: blank tags are skipped, and for each other
        tag the pool keeps only the positions in that tag's bucket. The result holds
        exactly the meals of the type that carry every required tag, in catalogue
        order; `found` is false when filter gives up early, because a tag has no
        bucket or nothing is left. */
    method NarrowByTags(mealType: string, tags: seq<string>, pool: seq<nat>)
      returns (candidates: seq<nat>, found: bool)
      requires Valid()
      requires Ascending(pool)
      requires forall x: nat :: x in pool <==> x < |meals| && TypeMatches(meals[x], mealType)
      ensures Ascending(candidates)
      ensures forall x: nat :: x in candidates <==>
        x < |meals| && TypeMatches(meals[x], mealType) && HasTags(meals[x], tags)
      ensures !found ==> candidates == []
    {
      candidates := pool;
      var j := 0;
      while j < |tags|
        invariant j <= |tags|
        invariant Ascending(candidates)
        invariant forall x: nat :: x in candidates <==>
          x < |meals| && TypeMatches(meals[x], mealType) && HasTags(meals[x], tags[..j])
      {
        var tag := tags[j];
        forall x: nat | x < |meals| ensures HasTags(meals[x], tags[..j + 1]) <==>
          HasTags(meals[x], tags[..j]) && (tag == "" || ContainsCi(meals[x].tags, tag))
        {
          HasTagsStep(meals[x], tags, j);
        }
        if tag != "" {
          var key := ToLower(tag);
          TagBucketMembers(meals, tag);
          if key !in byTag {
            forall x: nat | x < |meals| ensures !HasTags(meals[x], tags) {
              assert tag in tags;
            }
            return [], false;
          }
          candidates := KeepAllowed(candidates, set x | x in byTag[key]);
          if candidates == [] {
            forall x: nat | x < |meals| && HasTags(meals[x], tags)
              ensures HasTags(meals[x], tags[..j + 1])
            {
              HasTagsPrefix(meals[x], tags, j + 1);
            }
            return [], false;
          }
        }
        j := j + 1;
      }
      assert tags[..j] == tags;
      found := true;
    }

    /** filter: the positions of the meals matching the query, in catalogue order,
        exactly as the query's meaning selects them. */
    method Filter(q: Query) returns (result: seq<nat>)
      requires Valid()
      ensures result == Select(meals, q)
    {
      SelectSpec(meals, q);
      var candidates, found := StartPool(q.mealType);
      if found {
        candidates, found := NarrowByTags(q.mealType, q.requiredTags, candidates);
      }
      if !found {
        forall x | 0 <= x < |meals| ensures !Matches(meals[x], q) {
          assert x !in candidates;
        }
        NoMatchSelectsNothing(meals, q);
        return [];
      }
      if q.avoidAllergens != [] {
        candidates := DropAllergic(meals, candidates, q.avoidAllergens);
      }
      AscendingUnique(candidates, Select(meals, q));
      result := candidates;
    }

    /** random_pick: some element of a non-empty candidate list. Which one is the
        random generator's choice. */
    method RandomPick(candidates: seq<nat>) returns (pick: nat)
      requires candidates != []
      ensures pick in candidates
    {
      assert candidates[0] in candidates;
      pick :| pick in candidates;
    }

    /** load_favorites: the set is cleared first; a file that cannot be opened
        (missing or unreadable) leaves it empty and succeeds, an unparsable one leaves it empty and fails, and otherwise it
        becomes the strings of the "favorites" array. */
    method LoadFavorites(file: FavoritesFile) returns (status: Status)
      modifies this`favorites
      ensures favorites == FavoritesIn(file)
      ensures file.Corrupt? ==> status == Failed("Could not parse favorites JSON") && favorites == {}
      ensures !file.Corrupt? ==> status == Ok
    {
      favorites := {};
      match file
      case Unopened =>
        return Ok;
      case Corrupt =>
        return Failed("Could not parse favorites JSON");
      case FavoritesJson(field) =>
        if field.List? {
          var ids := field.items;
          var k := 0;
          while k < |ids|
            invariant k <= |ids|
            invariant favorites == set x | x in ids[..k]
          {
            assert ids[..k + 1] == ids[..k] + [ids[k]];
            favorites := favorites + {ids[k]};
            k := k + 1;
          }
          assert ids[..k] == ids;
        }
        return Ok;
    }

    /** save_favorites: every favourite is written once into the "favorites" array,
        in the set's own order, unless the file cannot be opened for writing. Reading
        back what was written gives the same set. */
    method SaveFavorites(writable: bool) returns (result: SaveResult)
      ensures !writable ==> result == SaveFailed("Could not write favorites file")
      ensures writable ==> result.Saved?
      ensures result.Saved? ==> Distinct(result.written)
      ensures result.Saved? ==> FavoritesIn(FavoritesJson(List(result.written))) == favorites
    {
      var written: seq<string> := [];
      var rest := favorites;
      while rest != {}
        invariant rest <= favorites
        invariant forall x :: x in written <==> x in favorites && x !in rest
        invariant Distinct(written)
        decreases |rest|
      {
        var id :| id in rest;
        written := written + [id];
        rest := rest - {id};
      }
      if !writable {
        return SaveFailed("Could not write favorites file");
      }
      return Saved(written);
    }

    /** add_favorite: true exactly when the id was not already a favourite. */
    method AddFavorite(id: string) returns (added: bool)
      modifies this`favorites
      ensures added <==> id !in old(favorites)
      ensures favorites == old(favorites) + {id}
    {
      added := id !in favorites;
      favorites := favorites + {id};
    }

    /** remove_favorite: true exactly when the id was a favourite. */
    method RemoveFavorite(id: string) returns (removed: bool)
      modifies this`favorites
      ensures removed <==> id in old(favorites)
      ensures favorites == old(favorites) - {id}
    {
      removed := id in favorites;
      favorites := favorites - {id};
    }

    /** favorite_meals: the catalogue entries whose id is a favourite, as positions
        into the catalogue (the source returns pointers into it), in catalogue order. */
    method FavoriteMeals() returns (result: seq<nat>)
      ensures result == FavoritePositions(meals, favorites)
      ensures Ascending(result)
      ensures forall p: nat :: p in result <==> p < |meals| && meals[p].id in favorites
    {
      result := [];
      var i := 0;
      while i < |meals|
        invariant i <= |meals|
        invariant result == FavoritePositions(meals[..i], favorites)
      {
        assert meals[..i + 1][..i] == meals[..i];
        if meals[i].id in favorites {
          result := result + [i];
        }
        i := i + 1;
      }
      assert meals[..i] == meals;
      FavoritePositionsSpec(meals, favorites);
    }
  }
}
