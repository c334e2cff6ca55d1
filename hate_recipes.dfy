/** The page that lists the disliked recipes (`HateRecipesPage`). It holds
    the `Set` it last received on the `disliked-recipes` topic, mutates it
    when a toggle is clicked, and publishes it back. */
module HateRecipes {
  import opened Recipes

  /** The members of `s` whose id differs from `id`, in the order of `s`.
      Unlike the shell's pruning, an empty id is compared like any other. */
  function WithoutId(s: seq<Recipe>, id: string): (r: seq<Recipe>)
    ensures |r| <= |s|
    ensures forall x :: x in r ==> x in s && x.idMeal != id
    decreases |s|
  {
    if s == [] then []
    else
      var rest := WithoutId(s[..|s| - 1], id);
      assert s == s[..|s| - 1] + [s[|s| - 1]];
      if s[|s| - 1].idMeal == id then rest else rest + [s[|s| - 1]]
  }

  /** Deleting by id leaves no member with that id, keeps every member with
      another id, and adds nothing. */
  lemma {:induction false} WithoutIdMembers(s: seq<Recipe>, id: string)
    ensures forall x :: x in WithoutId(s, id) <==> x in s && x.idMeal != id
    decreases |s|
  {
    if s != [] {
      WithoutIdMembers(s[..|s| - 1], id);
      assert s == s[..|s| - 1] + [s[|s| - 1]];
    }
  }

  lemma {:induction false} WithoutIdIsSet(s: seq<Recipe>, id: string)
    requires IsSet(s)
    ensures IsSet(WithoutId(s, id))
    decreases |s|
  {
    if s != [] {
      var init := s[..|s| - 1];
      var last := s[|s| - 1];
      assert IsSet(init);
      WithoutIdIsSet(init, id);
      WithoutIdMembers(init, id);
      assert last !in init;
      if last.idMeal != id {
        assert SetAdd(WithoutId(init, id), last) == WithoutId(s, id);
      }
    }
  }

  /** Deleting the same id a second time changes nothing. */
  lemma {:induction false} WithoutIdIdempotent(s: seq<Recipe>, id: string)
    ensures WithoutId(WithoutId(s, id), id) == WithoutId(s, id)
    decreases |s|
  {
    if s != [] {
      var init := s[..|s| - 1];
      var last := s[|s| - 1];
      WithoutIdIdempotent(init, id);
      if last.idMeal != id {
        var once := WithoutId(init, id) + [last];
        assert once[..|once| - 1] == WithoutId(init, id);
      }
    }
  }

  /** One step of the deletion loop over a set: visiting `items[i]` takes the
      state "first `i` entries filtered, the rest untouched" to the same state
      for `i + 1`, deleting the entry exactly when its id matches. */
  lemma DeleteStep(items: seq<Recipe>, i: nat, id: string)
    requires IsSet(items) && i < |items|
    ensures var now := WithoutId(items[..i], id) + items[i..];
            var next := WithoutId(items[..i + 1], id) + items[i + 1..];
            if items[i].idMeal == id then SetDelete(now, items[i]) == next else now == next
  {
    var item := items[i];
    assert items[..i + 1][..i] == items[..i];
    assert items[i..] == [item] + items[i + 1..];
    if item.idMeal == id {
      WithoutIdMembers(items[..i], id);
      assert item !in items[..i];
      assert item !in items[i + 1..];
      SetDeleteBetween(WithoutId(items[..i], id), item, items[i + 1..]);
      assert WithoutId(items[..i], id) + items[i..] == WithoutId(items[..i], id) + [item] + items[i + 1..];
    }
  }

  /** `Array.prototype.find` on `idMeal`: the first member with that id. */
  function FindById(s: seq<Recipe>, id: string): (r: Option<Recipe>)
    ensures r.Some? <==> exists i :: 0 <= i < |s| && s[i].idMeal == id
    ensures r.Some? ==> r.value in s && r.value.idMeal == id
    ensures r.Some? ==> exists i :: 0 <= i < |s| && s[i] == r.value && forall k :: 0 <= k < i ==> s[k].idMeal != id
    decreases |s|
  {
    if s == [] then None
    else if s[0].idMeal == id then Some(s[0])
    else
      var r := FindById(s[1..], id);
      assert forall i :: 0 < i < |s| ==> s[i] == s[1..][i - 1];
      r
  }

  /** The `selected` state a recipe's toggle renders with, given the page's
      set (`None` while nothing has been received). */
  function Selected(d: Option<seq<Recipe>>, recipe: Recipe): (b: bool)
    ensures b <==> d.Some? && exists m :: m in d.value && m.idMeal == recipe.idMeal
  {
    match d
    case None => false
    case Some(s) => FindById(s, recipe.idMeal).Some?
  }

  /** Whether `render` shows the list rather than "No hates recipes yet". */
  function ShowsList(d: Option<seq<Recipe>>): (b: bool)
    ensures b <==> d.Some? && exists m :: m in d.value
  {
    match d
    case None => false
    case Some(s) =>
      assert s != [] ==> s[0] in s;
      |s| > 0
  }

  /** The list is shown exactly when some recipe's toggle would render
      selected, and every listed recipe's toggle does. */
  lemma ShowsListIffSomeSelected(d: Option<seq<Recipe>>)
    ensures ShowsList(d) <==> exists m :: m in (if d.Some? then d.value else []) && Selected(d, m)
    ensures forall m :: d.Some? && m in d.value ==> Selected(d, m)
  {
    if ShowsList(d) {
      assert d.value[0] in d.value && Selected(d, d.value[0]);
    }
  }

  class HateRecipesPage {
    /** The set received on `disliked-recipes`; `null` until the first one. */
    var dislikedRecipes: RecipeSet?
    /** Every publish this page has made, oldest first. */
    var events: seq<Publish>

    constructor ()
      ensures dislikedRecipes == null && events == []
    {
      dislikedRecipes := null;
      events := [];
    }

    /** What the page currently renders from. */
    function Current(): Option<seq<Recipe>>
      reads this, dislikedRecipes
    {
      if dislikedRecipes == null then None else Some(dislikedRecipes.members)
    }

    /** The subscription handler for `disliked-recipes`. */
    method OnDislikedRecipes(data: RecipeSet)
      modifies this`dislikedRecipes
      ensures dislikedRecipes == data
    {
      dislikedRecipes := data;
    }

    /** Deletes from `target`, in place, every member with the id of `recipe`.
        Each deletion removes the entry just visited, which does not disturb
        the iteration, so walking a snapshot visits the same entries. */
    method Delete(recipe: Recipe, target: RecipeSet)
      requires IsSet(target.members)
      modifies target
      ensures target.members == WithoutId(old(target.members), recipe.idMeal)
      ensures IsSet(target.members)
      ensures forall x :: x in target.members <==> x in old(target.members) && x.idMeal != recipe.idMeal
    {
      var items := target.members;
      for i := 0 to |items|
        invariant target.members == WithoutId(items[..i], recipe.idMeal) + items[i..]
      {
        var item := items[i];
        DeleteStep(items, i, recipe.idMeal);
        if item.idMeal == recipe.idMeal {
          target.Delete(item);
        }
      }
      assert items[..|items|] == items;
      WithoutIdIsSet(items, recipe.idMeal);
      WithoutIdMembers(items, recipe.idMeal);
    }

    /** The toggle's click handler, as written. `selected` is the button's
        state after the click. The deselect branch deletes from the page's
        `_likedRecipes`, which the page never declares or assigns; it is the
        caller-supplied `likedRecipes` here, and `null` stands for the
        `undefined` it is at run time, over which `for ... of` throws before
        anything is published. */
    method AddDisLikedRecipes(selected: bool, recipe: Recipe, likedRecipes: RecipeSet?) returns (thrown: bool)
      requires dislikedRecipes != null ==> IsSet(dislikedRecipes.members)
      requires likedRecipes != null ==> IsSet(likedRecipes.members)
      modifies this`events, dislikedRecipes, likedRecipes
      ensures thrown <==> dislikedRecipes != null && !selected && likedRecipes == null
      ensures dislikedRecipes == null || thrown ==> events == old(events)
      ensures dislikedRecipes != null && thrown ==> dislikedRecipes.members == old(dislikedRecipes.members)
      ensures (dislikedRecipes == null || thrown) && likedRecipes != null ==>
                likedRecipes.members == old(likedRecipes.members)
      ensures dislikedRecipes != null && selected ==>
                && dislikedRecipes.members == SetAdd(old(dislikedRecipes.members), recipe)
                && (likedRecipes != null && likedRecipes != dislikedRecipes ==>
                      likedRecipes.members == old(likedRecipes.members))
      ensures dislikedRecipes != null && !selected && likedRecipes != null ==>
                && likedRecipes.members == WithoutId(old(likedRecipes.members), recipe.idMeal)
                && (likedRecipes != dislikedRecipes ==>
                      dislikedRecipes.members == old(dislikedRecipes.members))
      ensures dislikedRecipes != null && !thrown ==>
                events == old(events) + [Publish(DislikedTopic, dislikedRecipes.members)]
    {
      thrown := false;
      if dislikedRecipes == null {
        return;
      }
      if selected {
        dislikedRecipes.Add(recipe);
      } else if likedRecipes == null {
        thrown := true;
        return;
      } else {
        Delete(recipe, likedRecipes);
      }
      events := events + [Publish(DislikedTopic, dislikedRecipes.members)];
    }

    /** The click handler as evidently intended: deselecting deletes from the
        page's own disliked set. Afterwards the toggle renders in the state
        the user left it in. */
    method ToggleDisliked(selected: bool, recipe: Recipe)
      requires dislikedRecipes != null ==> IsSet(dislikedRecipes.members)
      modifies this`events, dislikedRecipes
      ensures dislikedRecipes == null ==> events == old(events)
      ensures dislikedRecipes != null ==>
                && dislikedRecipes.members == (if selected then SetAdd(old(dislikedRecipes.members), recipe)
                                               else WithoutId(old(dislikedRecipes.members), recipe.idMeal))
                && IsSet(dislikedRecipes.members)
                && events == old(events) + [Publish(DislikedTopic, dislikedRecipes.members)]
      ensures Selected(Current(), recipe) == (dislikedRecipes != null && selected)
    {
      if dislikedRecipes == null {
        return;
      }
      if selected {
        dislikedRecipes.Add(recipe);
      } else {
        Delete(recipe, dislikedRecipes);
      }
      events := events + [Publish(DislikedTopic, dislikedRecipes.members)];
    }
  }

  /** Deselecting a disliked recipe, as written: the page holds {B} and the
      user clicks B's toggle off. The handler throws, B stays in the set, its
      toggle still renders selected, and nothing is published. */
  method DeselectLeavesRecipeDisliked(b: Recipe) returns (thrown: bool, after: seq<Recipe>, published: seq<Publish>)
    ensures thrown
    ensures after == [b] && Selected(Some(after), b)
    ensures published == []
  {
    var page := new HateRecipesPage();
    var held := new RecipeSet();
    held.Add(b);
    page.OnDislikedRecipes(held);
    thrown := page.AddDisLikedRecipes(false, b, null);
    after, published := held.members, page.events;
    assert after[0] == b;
  }

  /** The same click with the corrected handler: B leaves the set, its toggle
      renders deselected, and the emptied set is published once. */
  method DeselectRemovesRecipe(b: Recipe) returns (after: seq<Recipe>, published: seq<Publish>)
    ensures after == [] && !Selected(Some(after), b)
    ensures published == [Publish(DislikedTopic, [])]
  {
    var page := new HateRecipesPage();
    var held := new RecipeSet();
    held.Add(b);
    page.OnDislikedRecipes(held);
    assert WithoutId([b], b.idMeal) == [] by {
      assert [b][..0] == [];
    }
    page.ToggleDisliked(false, b);
    after, published := held.members, page.events;
  }
}
