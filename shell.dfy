/** The application shell (`AppIndex`), which owns the liked and disliked
    recipe sets, keeps them apart by `idMeal`, persists them and republishes
    a set it had to prune. */
module Shell {
  import opened Recipes
  import opened Storage

  const LikedKey: string := "_likedRecipes"
  const DislikedKey: string := "_dislikedRecipes"

  /** The ids a conflict set contributes: every truthy `idMeal` among its
      members, and nothing for a member without one. */
  function ConflictIds(c: seq<Recipe>): (ids: set<string>)
    ensures "" !in ids
    ensures forall id :: id in ids <==> id != "" && exists i :: 0 <= i < |c| && c[i].idMeal == id
    decreases |c|
  {
    if c == [] then {}
    else
      var init := c[..|c| - 1];
      var last := c[|c| - 1];
      assert forall i :: 0 <= i < |init| ==> init[i] == c[i];
      ConflictIds(init) + (if last.idMeal != "" then {last.idMeal} else {})
  }

  /** The test a source member passes to be kept: it has no id, or its id is
      not a conflict id. */
  predicate Survives(ids: set<string>, r: Recipe): (b: bool)
    ensures r.idMeal !in ids ==> b
    ensures "" !in ids ==> (b <==> r.idMeal !in ids)
  {
    r.idMeal == "" || r.idMeal !in ids
  }

  /** The members of `s` that survive, in the order of `s`. */
  function Pruned(s: seq<Recipe>, ids: set<string>): (r: seq<Recipe>)
    ensures |r| <= |s|
    ensures forall x :: x in r ==> x in s && Survives(ids, x)
    decreases |s|
  {
    if s == [] then []
    else
      var rest := Pruned(s[..|s| - 1], ids);
      assert s == s[..|s| - 1] + [s[|s| - 1]];
      if Survives(ids, s[|s| - 1]) then rest + [s[|s| - 1]] else rest
  }

  /** Some member of `a` has a truthy id that a member of `b` has too. */
  predicate SharesId(a: seq<Recipe>, b: seq<Recipe>)
  {
    exists x, y :: x in a && y in b && x.idMeal != "" && x.idMeal == y.idMeal
  }

  lemma {:induction false} PrunedMembers(s: seq<Recipe>, ids: set<string>)
    ensures forall x :: x in Pruned(s, ids) <==> x in s && Survives(ids, x)
    decreases |s|
  {
    if s != [] {
      var init := s[..|s| - 1];
      PrunedMembers(init, ids);
      assert s == init + [s[|s| - 1]];
    }
  }

  lemma {:induction false} PrunedIsSet(s: seq<Recipe>, ids: set<string>)
    requires IsSet(s)
    ensures IsSet(Pruned(s, ids))
    decreases |s|
  {
    if s != [] {
      var init := s[..|s| - 1];
      var last := s[|s| - 1];
      assert IsSet(init);
      PrunedIsSet(init, ids);
      PrunedMembers(init, ids);
      assert last !in init;
      if Survives(ids, last) {
        assert SetAdd(Pruned(init, ids), last) == Pruned(s, ids);
      }
    }
  }

  /** Pruning never grows a set, and keeps its size exactly when every member
      survives. */
  lemma {:induction false} PrunedSize(s: seq<Recipe>, ids: set<string>)
    ensures |Pruned(s, ids)| <= |s|
    ensures |Pruned(s, ids)| == |s| <==> forall x :: x in s ==> Survives(ids, x)
    decreases |s|
  {
    if s != [] {
      var init := s[..|s| - 1];
      var last := s[|s| - 1];
      PrunedSize(init, ids);
      assert s == init + [last];
      if !Survives(ids, last) {
        assert |Pruned(s, ids)| < |s|;
      }
    }
  }

  /** Pruning commutes with concatenation, so it keeps the relative order of
      the members it keeps. */
  lemma {:induction false} PrunedAppend(a: seq<Recipe>, b: seq<Recipe>, ids: set<string>)
    ensures Pruned(a + b, ids) == Pruned(a, ids) + Pruned(b, ids)
    decreases |b|
  {
    if b == [] {
      assert a + b == a;
    } else {
      var init := b[..|b| - 1];
      assert (a + b)[..|a + b| - 1] == a + init;
      assert (a + b)[|a + b| - 1] == b[|b| - 1];
      PrunedAppend(a, init, ids);
    }
  }

  /** Pruning twice by the same ids is pruning once. */
  lemma {:induction false} PrunedIdempotent(s: seq<Recipe>, ids: set<string>)
    ensures Pruned(Pruned(s, ids), ids) == Pruned(s, ids)
    decreases |s|
  {
    if s != [] {
      var init := s[..|s| - 1];
      var last := s[|s| - 1];
      PrunedIdempotent(init, ids);
      if Survives(ids, last) {
        PrunedAppend(Pruned(init, ids), [last], ids);
        assert Pruned([last], ids) == [last] by {
          assert [last][..0] == [];
        }
      }
    }
  }

  /** After pruning `s` by the ids of `c`, no member of the result shares a
      truthy id with `c`. */
  lemma PruneRemovesConflicts(s: seq<Recipe>, c: seq<Recipe>)
    ensures !SharesId(Pruned(s, ConflictIds(c)), c)
  {
    PrunedMembers(s, ConflictIds(c));
  }

  /** Pruning `s` by the ids of `c` changes its size exactly when `s` shares
      a truthy id with `c`. */
  lemma SizeChangesIffConflict(s: seq<Recipe>, c: seq<Recipe>)
    ensures |Pruned(s, ConflictIds(c))| != |s| <==> SharesId(s, c)
  {
    PrunedSize(s, ConflictIds(c));
    if SharesId(s, c) {
      var x, y :| x in s && y in c && x.idMeal != "" && x.idMeal == y.idMeal;
      var j :| 0 <= j < |c| && c[j] == y;
      assert !Survives(ConflictIds(c), x);
    }
  }

  /** Pruning one side keeps two sets apart that already were. */
  lemma PrunedStaysApart(a: seq<Recipe>, b: seq<Recipe>, ids: set<string>)
    requires !SharesId(a, b)
    ensures !SharesId(Pruned(a, ids), b) && !SharesId(b, Pruned(a, ids))
  {
    PrunedMembers(a, ids);
  }

  function GetLocalStorage(store: Store): (r: Result<seq<Recipe>, ParseError>)
    ensures LikedKey !in store || store[LikedKey] == Blank ==> r == Ok([])
    ensures r.Err? <==> LikedKey in store && store[LikedKey] == Malformed
    ensures r.Ok? ==> IsSet(r.value)
    ensures LikedKey in store && store[LikedKey].Json? ==>
              r.Ok? && forall x :: x in r.value <==> x in store[LikedKey].items
  {
    ReadKey(store, LikedKey)
  }

  function GetLocalStorageHateRecipies(store: Store): (r: Result<seq<Recipe>, ParseError>)
    ensures DislikedKey !in store || store[DislikedKey] == Blank ==> r == Ok([])
    ensures r.Err? <==> DislikedKey in store && store[DislikedKey] == Malformed
    ensures r.Ok? ==> IsSet(r.value)
    ensures DislikedKey in store && store[DislikedKey].Json? ==>
              r.Ok? && forall x :: x in r.value <==> x in store[DislikedKey].items
  {
    ReadKey(store, DislikedKey)
  }

  class AppIndex {
    var likedRecipes: seq<Recipe>
    var dislikedRecipes: seq<Recipe>
    /** The contents of `localStorage`. */
    var storage: Store
    /** Every publish this component has made, oldest first. */
    var events: seq<Publish>

    ghost predicate Valid()
      reads this
    {
      IsSet(likedRecipes) && IsSet(dislikedRecipes)
    }

    /** No truthy id is both liked and disliked. */
    ghost predicate Apart()
      reads this
    {
      !SharesId(likedRecipes, dislikedRecipes)
    }

    /** The field initialisers, given the two sets already read back. */
    constructor (store: Store, liked: seq<Recipe>, disliked: seq<Recipe>)
      requires IsSet(liked) && IsSet(disliked)
      ensures Valid()
      ensures likedRecipes == liked && dislikedRecipes == disliked
      ensures storage == store && events == []
    {
      likedRecipes := liked;
      dislikedRecipes := disliked;
      storage := store;
      events := [];
    }

    /** Publishes both initial sets, so that pages render the persisted state. */
    method ConnectedCallback()
      modifies this`events
      ensures events == old(events) + [Publish(LikedTopic, likedRecipes), Publish(DislikedTopic, dislikedRecipes)]
    {
      events := events + [Publish(LikedTopic, likedRecipes)];
      events := events + [Publish(DislikedTopic, dislikedRecipes)];
    }

    /** A new set holding the members of `sourceSet` that share no truthy id
        with a member of `conflictSet`, in the order of `sourceSet`. */
    method RemoveConflictingItems(sourceSet: seq<Recipe>, conflictSet: seq<Recipe>) returns (result: seq<Recipe>)
      requires IsSet(sourceSet)
      ensures result == Pruned(sourceSet, ConflictIds(conflictSet))
      ensures IsSet(result)
      ensures forall x :: x in result <==> x in sourceSet && Survives(ConflictIds(conflictSet), x)
    {
      result := [];
      var conflictIds: set<string> := {};
      for i := 0 to |conflictSet|
        invariant conflictIds == ConflictIds(conflictSet[..i])
      {
        var item := conflictSet[i];
        assert conflictSet[..i + 1][..i] == conflictSet[..i];
        if item.idMeal != "" {
          conflictIds := conflictIds + {item.idMeal};
        }
      }
      assert conflictSet[..|conflictSet|] == conflictSet;
      for i := 0 to |sourceSet|
        invariant result == Pruned(sourceSet[..i], conflictIds)
      {
        var item := sourceSet[i];
        assert sourceSet[..i + 1][..i] == sourceSet[..i];
        if item.idMeal == "" || item.idMeal !in conflictIds {
          PrunedMembers(sourceSet[..i], conflictIds);
          assert item !in sourceSet[..i];
          result := SetAdd(result, item);
        }
      }
      assert sourceSet[..|sourceSet|] == sourceSet;
      PrunedIsSet(sourceSet, conflictIds);
      PrunedMembers(sourceSet, conflictIds);
    }

    /** Writes `setItem` under `key` as a JSON array in insertion order. */
    method SaveToLocalStorage(key: string, setItem: seq<Recipe>)
      modifies this`storage
      ensures storage == old(storage)[key := Json(setItem)]
    {
      storage := storage[key := Json(setItem)];
    }

    /** Handler for a published liked set: prunes the disliked set, and only
        if that removed something replaces, republishes and persists it; then
        persists the liked set it was given. */
    method SetLocalStorage(setItem: seq<Recipe>)
      requires Valid()
      modifies this
      ensures Valid()
      ensures likedRecipes == old(likedRecipes)
      ensures SharesId(old(dislikedRecipes), setItem) ==>
                && dislikedRecipes == Pruned(old(dislikedRecipes), ConflictIds(setItem))
                && events == old(events) + [Publish(DislikedTopic, dislikedRecipes)]
                && storage == old(storage)[DislikedKey := Json(dislikedRecipes)][LikedKey := Json(setItem)]
      ensures !SharesId(old(dislikedRecipes), setItem) ==>
                && dislikedRecipes == old(dislikedRecipes)
                && events == old(events)
                && storage == old(storage)[LikedKey := Json(setItem)]
      ensures !SharesId(dislikedRecipes, setItem)
      ensures old(Apart()) ==> Apart()
    {
      var updatedDisliked := RemoveConflictingItems(dislikedRecipes, setItem);
      SizeChangesIffConflict(dislikedRecipes, setItem);
      PruneRemovesConflicts(dislikedRecipes, setItem);
      if Apart() {
        PrunedStaysApart(dislikedRecipes, likedRecipes, ConflictIds(setItem));
      }
      if |updatedDisliked| != |dislikedRecipes| {
        dislikedRecipes := updatedDisliked;
        events := events + [Publish(DislikedTopic, dislikedRecipes)];
        SaveToLocalStorage(DislikedKey, dislikedRecipes);
      }
      storage := storage[LikedKey := Json(setItem)];
    }

    /** Handler for a published disliked set: the mirror image of
        `SetLocalStorage`, with liked and disliked swapped. */
    method SetLocalStorageHateRecipies(setItem: seq<Recipe>)
      requires Valid()
      modifies this
      ensures Valid()
      ensures dislikedRecipes == old(dislikedRecipes)
      ensures SharesId(old(likedRecipes), setItem) ==>
                && likedRecipes == Pruned(old(likedRecipes), ConflictIds(setItem))
                && events == old(events) + [Publish(LikedTopic, likedRecipes)]
                && storage == old(storage)[LikedKey := Json(likedRecipes)][DislikedKey := Json(setItem)]
      ensures !SharesId(old(likedRecipes), setItem) ==>
                && likedRecipes == old(likedRecipes)
                && events == old(events)
                && storage == old(storage)[DislikedKey := Json(setItem)]
      ensures !SharesId(likedRecipes, setItem)
      ensures old(Apart()) ==> Apart()
    {
      var updatedLiked := RemoveConflictingItems(likedRecipes, setItem);
      SizeChangesIffConflict(likedRecipes, setItem);
      PruneRemovesConflicts(likedRecipes, setItem);
      if Apart() {
        PrunedStaysApart(likedRecipes, dislikedRecipes, ConflictIds(setItem));
      }
      if |updatedLiked| != |likedRecipes| {
        likedRecipes := updatedLiked;
        events := events + [Publish(LikedTopic, likedRecipes)];
        SaveToLocalStorage(LikedKey, likedRecipes);
      }
      storage := storage[DislikedKey := Json(setItem)];
    }
  }

  /** Creates the shell over the current storage. Reading either key back
      throws when its text is malformed, and then no shell is created. */
  method Start(store: Store) returns (r: Result<AppIndex, ParseError>)
    ensures r.Err? <==> GetLocalStorage(store).Err? || GetLocalStorageHateRecipies(store).Err?
    ensures r.Ok? ==>
              && fresh(r.value) && r.value.Valid()
              && GetLocalStorage(store) == Ok(r.value.likedRecipes)
              && GetLocalStorageHateRecipies(store) == Ok(r.value.dislikedRecipes)
              && r.value.storage == store && r.value.events == []
  {
    var liked := GetLocalStorage(store);
    if liked.Err? {
      return Err(liked.error);
    }
    var disliked := GetLocalStorageHateRecipies(store);
    if disliked.Err? {
      return Err(disliked.error);
    }
    var app := new AppIndex(store, liked.value, disliked.value);
    r := Ok(app);
  }

  /** A liked set that takes in a disliked recipe: the shell starts with
      liked {A} and disliked {B} in storage, and a page publishes liked
      {A, B}. The disliked set is pruned to empty, republished once and
      persisted, and the liked set is persisted as given. */
  method LikeADislikedRecipe(a: Recipe, b: Recipe) returns (disliked: seq<Recipe>, published: seq<Publish>, store: Store)
    requires b.idMeal != ""
    ensures disliked == [] && published == [Publish(DislikedTopic, [])]
    ensures ReadKey(store, DislikedKey) == Ok([])
    ensures LikedKey in store && store[LikedKey] == Json([a, b])
  {
    var initial := map[LikedKey := Json([a]), DislikedKey := Json([b])];
    assert GetLocalStorage(initial) == Ok([a]) by {
      assert initial[LikedKey] == Json([a]);
    }
    assert GetLocalStorageHateRecipies(initial) == Ok([b]) by {
      assert initial[DislikedKey] == Json([b]);
    }
    var started := Start(initial);
    var app := started.value;
    assert Pruned([b], ConflictIds([a, b])) == [] by {
      assert [b][..0] == [];
      assert [a, b][1] == b;
      assert !Survives(ConflictIds([a, b]), b);
    }
    SizeChangesIffConflict([b], [a, b]);
    app.SetLocalStorage([a, b]);
    disliked, published, store := app.dislikedRecipes, app.events, app.storage;
    assert store[DislikedKey] == Json([]);
  }
}
