/** Values shared by the application shell and its pages: recipe objects,
    publish events, and the JavaScript `Set` of recipes. */
module Recipes {

  datatype Option<+T> = None | Some(value: T)

  datatype Result<+T, +E> = Ok(value: T) | Err(error: E)

  /** A recipe object. `handle` stands for the object's identity, which is
      what a JavaScript `Set` compares members by; `idMeal` is the recipe id,
      with "" standing for a missing or empty (falsy) id. The display fields
      (title, thumbnail, category) pass through untouched and are not kept. */
  datatype Recipe = Recipe(handle: nat, idMeal: string)

  /** One call `publish(topic, payload)` on the message channel. */
  datatype Publish = Publish(topic: string, payload: seq<Recipe>)

  const LikedTopic: string := "liked-recipes"
  const DislikedTopic: string := "disliked-recipes"

  /** A `Set` is represented by its members in insertion order, the order in
      which `for ... of` and `Array.from` visit them; no member occurs twice. */
  predicate IsSet(s: seq<Recipe>)
  {
    forall i, j :: 0 <= i < j < |s| ==> s[i] != s[j]
  }

  /** `Set.prototype.add`: a new member goes to the end, a present one is ignored. */
  function SetAdd(s: seq<Recipe>, x: Recipe): (r: seq<Recipe>)
    ensures x in r
    ensures forall y :: y in r <==> y in s || y == x
    ensures IsSet(s) ==> IsSet(r)
    ensures x in s ==> r == s
    ensures x !in s ==> r == s + [x]
  {
    if x in s then s else s + [x]
  }

  /** `Set.prototype.delete`: the members other than `x`, in order. */
  function SetDelete(s: seq<Recipe>, x: Recipe): (r: seq<Recipe>)
    ensures forall y :: y in r <==> y in s && y != x
    decreases |s|
  {
    if s == [] then []
    else
      var init := s[..|s| - 1];
      var r := SetDelete(init, x);
      assert s == init + [s[|s| - 1]];
      if s[|s| - 1] == x then r else r + [s[|s| - 1]]
  }

  lemma {:induction false} SetDeleteAppend(a: seq<Recipe>, b: seq<Recipe>, x: Recipe)
    ensures SetDelete(a + b, x) == SetDelete(a, x) + SetDelete(b, x)
    decreases |b|
  {
    if b == [] {
      assert a + b == a;
    } else {
      var init := b[..|b| - 1];
      assert (a + b)[..|a + b| - 1] == a + init;
      assert (a + b)[|a + b| - 1] == b[|b| - 1];
      SetDeleteAppend(a, init, x);
    }
  }

  lemma {:induction false} SetDeleteAbsent(s: seq<Recipe>, x: Recipe)
    requires x !in s
    ensures SetDelete(s, x) == s
    decreases |s|
  {
    if s != [] {
      var init := s[..|s| - 1];
      assert s == init + [s[|s| - 1]];
      SetDeleteAbsent(init, x);
    }
  }

  /** Deleting a member that sits, once, between `a` and `b` leaves exactly `a + b`. */
  lemma SetDeleteBetween(a: seq<Recipe>, x: Recipe, b: seq<Recipe>)
    requires x !in a && x !in b
    ensures SetDelete(a + [x] + b, x) == a + b
  {
    SetDeleteAppend(a + [x], b, x);
    SetDeleteAppend(a, [x], x);
    SetDeleteAbsent(a, x);
    SetDeleteAbsent(b, x);
    assert SetDelete([x], x) == [] by {
      assert [x][..0] == [];
    }
  }

  /** A JavaScript `Set` object of recipes that a page mutates in place. */
  class RecipeSet {
    var members: seq<Recipe>

    constructor ()
      ensures members == []
    {
      members := [];
    }

    method Add(x: Recipe)
      modifies this
      ensures members == SetAdd(old(members), x)
    {
      members := SetAdd(members, x);
    }

    method Delete(x: Recipe)
      modifies this
      ensures members == SetDelete(old(members), x)
    {
      members := SetDelete(members, x);
    }
  }
}
