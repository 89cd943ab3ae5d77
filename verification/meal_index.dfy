/** The two lookup tables of MealDB (by_type_ and by_tag_ in src/meal_db.hpp):
    each maps a folded key to the list of catalogue positions filed under it. The
    functions here build them the way MealDB::build_indexes does, one push at a
    time; the lemmas say what the finished tables hold. */
module MealIndex {
  import opened Util
  import opened Positions
  import opened Catalog

  type Index = map<string, seq<nat>>

  /** The list filed under `k`; a key that was never pushed to files nothing. */
  function Bucket(idx: Index, k: string): seq<nat>
  {
    if k in idx then idx[k] else []
  }

  /** idx[k].push_back(i): a missing key starts out as an empty list. */
  function Push(idx: Index, k: string, i: nat): (r: Index)
    ensures Bucket(r, k) == Bucket(idx, k) + [i]
    ensures forall k' :: k' != k ==> Bucket(r, k') == Bucket(idx, k')
    ensures forall k' :: k' in r <==> k' in idx || k' == k
  {
    idx[k := Bucket(idx, k) + [i]]
  }

  /** The meal type table after meals 0 .. |meals|-1 have been visited: a meal with
      a non-empty type is filed under its folded type. */
  function TypeIndex(meals: seq<Meal>): Index
    decreases |meals|
  {
    if meals == [] then map[]
    else
      var n := |meals| - 1;
      var idx := TypeIndex(meals[..n]);
      if meals[n].mealType == "" then idx else Push(idx, ToLower(meals[n].mealType), n)
  }

  /** The inner loop over one meal's tags: position i is filed under every
      non-empty tag, folded, once per occurrence. */
  function PushTags(idx: Index, tags: seq<string>, i: nat): Index
    decreases |tags|
  {
    if tags == [] then idx
    else PushTags(if tags[0] == "" then idx else Push(idx, ToLower(tags[0]), i), tags[1..], i)
  }

  /** The tag table after meals 0 .. |meals|-1 have been visited. */
  function TagIndex(meals: seq<Meal>): Index
    decreases |meals|
  {
    if meals == [] then map[]
    else
      var n := |meals| - 1;
      PushTags(TagIndex(meals[..n]), meals[n].tags, n)
  }

  /** Meal `m` is filed under key `k` of the type table. */
  predicate OfType(m: Meal, k: string)
  {
    m.mealType != "" && ToLower(m.mealType) == k
  }

  /** Some non-empty tag among `tags` folds to `k`. */
  predicate TagIn(tags: seq<string>, k: string)
  {
    exists t :: t in tags && t != "" && ToLower(t) == k
  }

  /** Every key of a type table files a non-empty, ascending list of positions of
      `meals`, and each position listed under k holds a meal whose non-empty type
      folds to k. */
  ghost predicate TypeIndexSound(meals: seq<Meal>, idx: Index)
  {
    && (forall k :: k in idx ==> idx[k] != [])
    && (forall k :: Ascending(Bucket(idx, k)))
    && (forall k, j :: 0 <= j < |Bucket(idx, k)| ==>
          Bucket(idx, k)[j] < |meals| && OfType(meals[Bucket(idx, k)[j]], k))
  }

  /** Every meal with a non-empty type is filed under its folded type. */
  ghost predicate TypeIndexComplete(meals: seq<Meal>, idx: Index)
  {
    forall i :: 0 <= i < |meals| && meals[i].mealType != "" ==>
      i in Bucket(idx, ToLower(meals[i].mealType))
  }

  /** Visiting one more meal keeps the type table sound. */
  lemma {:induction false} TypeIndexSoundStep(meals: seq<Meal>)
    requires meals != []
    requires TypeIndexSound(meals[..|meals| - 1], TypeIndex(meals[..|meals| - 1]))
    ensures TypeIndexSound(meals, TypeIndex(meals))
  {
    var n: nat := |meals| - 1;
    var prev, idx := TypeIndex(meals[..n]), TypeIndex(meals);
    var typ := meals[n].mealType;
    assert idx == if typ == "" then prev else Push(prev, ToLower(typ), n);
    forall k ensures Ascending(Bucket(idx, k)) {
      TypeBucketStep(meals, prev, idx, k);
    }
    forall k, j | 0 <= j < |Bucket(idx, k)|
      ensures Bucket(idx, k)[j] < |meals| && OfType(meals[Bucket(idx, k)[j]], k)
    {
      TypeEntryStep(meals, prev, idx, k, j);
    }
  }

  /** One entry of the type table after one more meal: either it was there before,
      and names an earlier meal of that type, or it is the new meal. */
  lemma {:induction false} TypeEntryStep(meals: seq<Meal>, prev: Index, idx: Index, k: string, j: nat)
    requires meals != []
    requires TypeIndexSound(meals[..|meals| - 1], prev)
    requires var typ := meals[|meals| - 1].mealType;
      idx == if typ == "" then prev else Push(prev, ToLower(typ), |meals| - 1)
    requires j < |Bucket(idx, k)|
    ensures Bucket(idx, k)[j] < |meals| && OfType(meals[Bucket(idx, k)[j]], k)
  {
    var n: nat := |meals| - 1;
    var typ := meals[n].mealType;
    var b := Bucket(prev, k);
    if typ != "" && k == ToLower(typ) {
      assert Bucket(idx, k) == b + [n];
      if j < |b| {
        assert Bucket(idx, k)[j] == b[j];
        assert b[j] < n && OfType(meals[..n][b[j]], k);
        assert meals[..n][b[j]] == meals[b[j]];
      } else {
        assert Bucket(idx, k)[j] == n;
      }
    } else {
      assert Bucket(idx, k) == b;
      assert b[j] < n && OfType(meals[..n][b[j]], k);
      assert meals[..n][b[j]] == meals[b[j]];
    }
  }

  /** One bucket of the type table after one more meal stays ascending: the new
      position is larger than every earlier one. */
  lemma {:induction false} TypeBucketStep(meals: seq<Meal>, prev: Index, idx: Index, k: string)
    requires meals != []
    requires TypeIndexSound(meals[..|meals| - 1], prev)
    requires var typ := meals[|meals| - 1].mealType;
      idx == if typ == "" then prev else Push(prev, ToLower(typ), |meals| - 1)
    ensures Ascending(Bucket(idx, k))
  {
    var n: nat := |meals| - 1;
    var typ := meals[n].mealType;
    var b := Bucket(prev, k);
    if typ != "" && k == ToLower(typ) {
      forall y | y in b ensures y < n {
        var j :| 0 <= j < |b| && b[j] == y;
      }
      AscendingAppend(b, n);
    }
  }

  /** Visiting one more meal keeps the type table complete. */
  lemma {:induction false} TypeIndexCompleteStep(meals: seq<Meal>)
    requires meals != []
    requires TypeIndexComplete(meals[..|meals| - 1], TypeIndex(meals[..|meals| - 1]))
    ensures TypeIndexComplete(meals, TypeIndex(meals))
  {
    var n: nat := |meals| - 1;
    var prev, idx := TypeIndex(meals[..n]), TypeIndex(meals);
    var typ := meals[n].mealType;
    forall i | 0 <= i < |meals| && meals[i].mealType != ""
      ensures i in Bucket(idx, ToLower(meals[i].mealType))
    {
      var k := ToLower(meals[i].mealType);
      if typ == "" {
        assert idx == prev;
        assert i < n;
        assert meals[..n][i] == meals[i];
      } else {
        assert idx == Push(prev, ToLower(typ), n);
        if i < n {
          assert meals[..n][i] == meals[i];
          assert i in Bucket(prev, k);
          if k == ToLower(typ) {
            assert Bucket(idx, k) == Bucket(prev, k) + [n];
          } else {
            assert Bucket(idx, k) == Bucket(prev, k);
          }
        } else {
          assert Bucket(idx, ToLower(typ)) == Bucket(prev, ToLower(typ)) + [n];
        }
      }
    }
  }

  /** The type table build_indexes makes is sound and complete: every key files a
      non-empty ascending list, position i is listed under k only when meal i has a
      non-empty type folding to k, and every such meal is listed there. */
  lemma {:induction false} TypeIndexSpec(meals: seq<Meal>)
    ensures TypeIndexSound(meals, TypeIndex(meals))
    ensures TypeIndexComplete(meals, TypeIndex(meals))
    decreases |meals|
  {
    if meals != [] {
      TypeIndexSpec(meals[..|meals| - 1]);
      TypeIndexSoundStep(meals);
      TypeIndexCompleteStep(meals);
    }
  }

  /** A table being built for positions up to i: every key files a non-empty,
      non-decreasing list of positions no later than i. */
  ghost predicate Shaped(idx: Index, i: nat)
  {
    && (forall k :: k in idx ==> idx[k] != [])
    && (forall k :: NonDecreasing(Bucket(idx, k)))
    && (forall k, j :: 0 <= j < |Bucket(idx, k)| ==> Bucket(idx, k)[j] <= i)
  }

  /** One push of i keeps a table shaped for i. */
  lemma {:induction false} PushKeepsShape(idx: Index, key: string, i: nat)
    requires Shaped(idx, i)
    ensures Shaped(Push(idx, key, i), i)
  {
    var r := Push(idx, key, i);
    var b := Bucket(idx, key);
    forall k | k in r ensures r[k] != [] {
      if k != key { assert Bucket(r, k) == Bucket(idx, k); }
    }
    forall k ensures NonDecreasing(Bucket(r, k)) {
      if k == key {
        forall a, c | 0 <= a < c < |b| + 1 ensures (b + [i])[a] <= (b + [i])[c] {
          if c == |b| {
            assert b[a] <= i;
          }
        }
      }
    }
    forall k, j | 0 <= j < |Bucket(r, k)| ensures Bucket(r, k)[j] <= i {
      if k == key && j < |b| {
        assert Bucket(r, k)[j] == b[j];
      }
    }
  }

  /** One meal's tag loop keeps a table shaped for its position. */
  lemma {:induction false} PushTagsKeepsShape(idx: Index, tags: seq<string>, i: nat)
    requires Shaped(idx, i)
    ensures Shaped(PushTags(idx, tags, i), i)
    decreases |tags|
  {
    if tags != [] {
      if tags[0] != "" {
        PushKeepsShape(idx, ToLower(tags[0]), i);
      }
      PushTagsKeepsShape(if tags[0] == "" then idx else Push(idx, ToLower(tags[0]), i), tags[1..], i);
    }
  }

  /** What one meal's tag loop does to a table: lists only grow at their end, only
      by i, only under keys some non-empty tag folds to, and under every such key. */
  lemma {:induction false} PushTagsSpec(idx: Index, tags: seq<string>, i: nat)
    ensures var r := PushTags(idx, tags, i);
      && (forall k :: Bucket(idx, k) <= Bucket(r, k))
      && (forall k, j :: |Bucket(idx, k)| <= j < |Bucket(r, k)| ==> Bucket(r, k)[j] == i && TagIn(tags, k))
      && (forall t :: t in tags && t != "" ==> |Bucket(idx, ToLower(t))| < |Bucket(r, ToLower(t))|)
    decreases |tags|
  {
    if tags != [] {
      var next := if tags[0] == "" then idx else Push(idx, ToLower(tags[0]), i);
      var r := PushTags(idx, tags, i);
      assert r == PushTags(next, tags[1..], i);
      PushTagsSpec(next, tags[1..], i);
      forall k | TagIn(tags[1..], k) ensures TagIn(tags, k) {
        var t :| t in tags[1..] && t != "" && ToLower(t) == k;
        assert t in tags;
      }
      forall k, j | |Bucket(idx, k)| <= j < |Bucket(r, k)| ensures Bucket(r, k)[j] == i && TagIn(tags, k) {
        if j < |Bucket(next, k)| {
          assert tags[0] != "" && k == ToLower(tags[0]);
          assert tags[0] in tags;
          assert Bucket(r, k)[j] == Bucket(next, k)[j];
        }
      }
      forall t | t in tags && t != "" ensures |Bucket(idx, ToLower(t))| < |Bucket(r, ToLower(t))| {
        if t != tags[0] {
          assert t in tags[1..];
        }
      }
    }
  }

  /** Every key of a tag table files a non-empty, non-decreasing list of positions of
      `meals` (a meal with the same tag twice is filed twice), and each position
      listed under k holds a meal with a non-empty tag folding to k. */
  ghost predicate TagIndexSound(meals: seq<Meal>, idx: Index)
  {
    && (forall k :: k in idx ==> idx[k] != [])
    && (forall k :: NonDecreasing(Bucket(idx, k)))
    && (forall k, j :: 0 <= j < |Bucket(idx, k)| ==>
          Bucket(idx, k)[j] < |meals| && TagIn(meals[Bucket(idx, k)[j]].tags, k))
  }

  /** Every non-empty tag of every meal files that meal under the tag's fold. */
  ghost predicate TagIndexComplete(meals: seq<Meal>, idx: Index)
  {
    forall i, t :: 0 <= i < |meals| && t in meals[i].tags && t != "" ==>
      i in Bucket(idx, ToLower(t))
  }

  /** Visiting one more meal keeps the tag table sound. */
  lemma {:induction false} TagIndexSoundStep(meals: seq<Meal>)
    requires meals != []
    requires TagIndexSound(meals[..|meals| - 1], TagIndex(meals[..|meals| - 1]))
    ensures TagIndexSound(meals, TagIndex(meals))
  {
    var n: nat := |meals| - 1;
    var prev, idx := TagIndex(meals[..n]), TagIndex(meals);
    assert idx == PushTags(prev, meals[n].tags, n);
    assert Shaped(prev, n);
    PushTagsKeepsShape(prev, meals[n].tags, n);
    PushTagsSpec(prev, meals[n].tags, n);
    forall k, j | 0 <= j < |Bucket(idx, k)|
      ensures Bucket(idx, k)[j] < |meals| && TagIn(meals[Bucket(idx, k)[j]].tags, k)
    {
      var b := Bucket(prev, k);
      if j < |b| {
        assert Bucket(idx, k)[j] == b[j];
        assert meals[..n][b[j]] == meals[b[j]];
      }
    }
  }

  /** Visiting one more meal keeps the tag table complete. */
  lemma {:induction false} TagIndexCompleteStep(meals: seq<Meal>)
    requires meals != []
    requires TagIndexComplete(meals[..|meals| - 1], TagIndex(meals[..|meals| - 1]))
    ensures TagIndexComplete(meals, TagIndex(meals))
  {
    var n: nat := |meals| - 1;
    var prev, idx := TagIndex(meals[..n]), TagIndex(meals);
    assert idx == PushTags(prev, meals[n].tags, n);
    PushTagsSpec(prev, meals[n].tags, n);
    forall i, t | 0 <= i < |meals| && t in meals[i].tags && t != ""
      ensures i in Bucket(idx, ToLower(t))
    {
      var k := ToLower(t);
      if i < n {
        assert meals[..n][i] == meals[i];
        assert i in Bucket(prev, k);
      } else {
        assert Bucket(idx, k)[|Bucket(idx, k)| - 1] == n;
      }
    }
  }

  /** The tag table build_indexes makes is sound and complete: every key files a
      non-empty non-decreasing list, position i is listed under k only when one of
      meal i's non-empty tags folds to k, and under every such k. */
  lemma {:induction false} TagIndexSpec(meals: seq<Meal>)
    ensures TagIndexSound(meals, TagIndex(meals))
    ensures TagIndexComplete(meals, TagIndex(meals))
    decreases |meals|
  {
    if meals != [] {
      TagIndexSpec(meals[..|meals| - 1]);
      TagIndexSoundStep(meals);
      TagIndexCompleteStep(meals);
    }
  }

  /** A non-empty tag matches, ignoring case, exactly the meals filed under its fold. */
  lemma {:induction false} TagInFolded(tags: seq<string>, tag: string)
    requires tag != ""
    ensures TagIn(tags, ToLower(tag)) <==> ContainsCi(tags, tag)
  {
    ContainsCiNonEmpty(tags, tag);
  }

  /** The type table answers the type step of a query: the list under the folded
      type is ascending and holds exactly the positions whose type matches. */
  lemma {:induction false} TypeBucketMembers(meals: seq<Meal>, typ: string)
    requires typ != ""
    ensures Ascending(Bucket(TypeIndex(meals), ToLower(typ)))
    ensures forall x: nat :: x in Bucket(TypeIndex(meals), ToLower(typ)) <==>
      x < |meals| && TypeMatches(meals[x], typ)
  {
    TypeIndexSpec(meals);
    var key := ToLower(typ);
    var b := Bucket(TypeIndex(meals), key);
    forall x: nat | x < |meals| && TypeMatches(meals[x], typ) ensures x in b {
      assert |ToLower(meals[x].mealType)| == |key| > 0;
    }
    forall x: nat | x in b ensures x < |meals| && TypeMatches(meals[x], typ) {
      var j :| 0 <= j < |b| && b[j] == x;
    }
  }

  /** The tag table answers one required-tag step of a query: the list under the
      folded tag holds exactly the positions whose meal has that tag. */
  lemma {:induction false} TagBucketMembers(meals: seq<Meal>, tag: string)
    requires tag != ""
    ensures forall x: nat :: x in Bucket(TagIndex(meals), ToLower(tag)) <==>
      x < |meals| && ContainsCi(meals[x].tags, tag)
  {
    TagIndexSpec(meals);
    var key := ToLower(tag);
    var b := Bucket(TagIndex(meals), key);
    forall x: nat | x < |meals| && ContainsCi(meals[x].tags, tag) ensures x in b {
      TagInFolded(meals[x].tags, tag);
      var t :| t in meals[x].tags && t != "" && ToLower(t) == key;
    }
    forall x: nat | x in b ensures x < |meals| && ContainsCi(meals[x].tags, tag) {
      var j :| 0 <= j < |b| && b[j] == x;
      TagInFolded(meals[x].tags, tag);
    }
  }
}
