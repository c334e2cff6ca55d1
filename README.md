# Liked / disliked recipe reconciliation

A Dafny model of the state-synchronisation layer of the Cells Recipes web
application. Two recipe collections, the liked set and the disliked set, are
kept mutually exclusive by recipe id (`idMeal`):

- The application shell (`AppIndex`) owns both sets. At startup it reads them
  back from `localStorage` and publishes both.
- When a page publishes a new version of one set, the shell prunes the other
  set of every member that shares an id with it. If the pruning removed
  anything, it replaces, republishes and persists the pruned set. It then
  persists the set it was given.
- The hate-recipes page (`HateRecipesPage`) lists the disliked set. It renders
  a toggle per recipe whose selected state is derived from the set. A click
  adds the recipe to its `Set` or deletes from a `Set` in place, and the page
  then publishes the disliked set.

Modules, one per concern:

- `Recipes` (`recipes.dfy`):
  - recipe objects, publish events and JavaScript `Set` semantics;
  - a `Set` is a sequence without repeats, in insertion order;
  - `Set.add` and `Set.delete`;
  - the class `RecipeSet`, a `Set` object that a page mutates in place.
- `Storage` (`storage.dfy`): what `localStorage` holds under a key, and how a
  key is read back as a set.
- `Shell` (`shell.dfy`): `app-index.ts`, with the conflict filter, the
  class `AppIndex` and its two reconciling handlers, and startup.
- `HateRecipes` (`hate_recipes.dfy`): `hate-recipes-page.ts`, with the in-place
  deletion, the click handler, the selected state and the render condition.

Abstractions:

- A recipe is `Recipe(handle, idMeal)`. `handle` stands for object identity,
  which is what a `Set` compares. The id `""` stands for a missing or falsy
  `idMeal`.
- `localStorage` is a field `storage: map<string, Stored>` of the shell.
- `publish(topic, payload)` appends `Publish(topic, payload)` to a field
  `events`.

Behaviour of the program that the model follows:

- The storage keys are `"_likedRecipes"` and `"_dislikedRecipes"`
  (app-index.ts:118,132,136,141).
- Reading back text that `JSON.parse` rejects is an error (`Err(SyntaxError)`):
  the parse at app-index.ts:137,142 is not guarded.
- The conflict ids are the truthy ids of the conflict set (app-index.ts:155).
  A member without an id is never pruned (app-index.ts:163).
- The page's deletion compares ids with `===` (hate-recipes-page.ts:163). A
  recipe without an id therefore matches every other recipe without one.

## Model

| member | source | states |
|---|---|---|
| `Recipes.SetAdd` | oc_example/src/pages/hate-recipes/hate-recipes-page.ts:154 | after `add` the recipe is a member, nothing that was there is lost, nothing else is added, adding a present member changes nothing, and a set stays a set |
| `Recipes.SetDelete` | oc_example/src/pages/hate-recipes/hate-recipes-page.ts:164 | after `delete(x)` the members are exactly the old members other than `x` |
| `Recipes.SetDeleteBetween` | oc_example/src/pages/hate-recipes/hate-recipes-page.ts:164 | deleting a member that occurs once leaves the members before and after it, in order |
| `Recipes.RecipeSet.Add` | oc_example/src/pages/hate-recipes/hate-recipes-page.ts:154 | the set object's new members are `SetAdd` of its old members |
| `Recipes.RecipeSet.Delete` | oc_example/src/pages/hate-recipes/hate-recipes-page.ts:164 | the set object's new members are `SetDelete` of its old members |
| `Storage.FromArray` | oc_example/src/components/app-index.ts:137 | `new Set(array)` is a set with exactly the array's elements, and equals the array when the array has no repeats |
| `Storage.ReadKey` | oc_example/src/components/app-index.ts:135-143 | an absent key or empty text reads as the empty set; among the stored forms modelled (empty text, a JSON array, text `JSON.parse` rejects), the rejected text and only that is an error; a JSON array reads as a set with exactly the array's members |
| `Storage.ReadAfterWrite` | oc_example/src/components/app-index.ts:174-177 | a set written under a key reads back as the same members in the same order |
| `Shell.ConflictIds` | oc_example/src/components/app-index.ts:150-158 | the conflict ids are exactly the truthy ids of the conflict set's members; a member without an id contributes none |
| `Shell.Survives` | oc_example/src/components/app-index.ts:163 | a member whose id is not a conflict id is kept; since conflict ids are never empty, the `!recipe.idMeal` half of the test adds nothing beyond "its id is not a conflict id" |
| `Shell.Pruned` | oc_example/src/components/app-index.ts:161-166 | what the second loop builds: never longer than the source, and every member is a source member that passes the keep test; the converse, size, order and idempotence are in `PrunedMembers`, `PrunedSize`, `PrunedAppend` and `PrunedIdempotent` |
| `Shell.PrunedMembers` | oc_example/src/components/app-index.ts:161-166 | a recipe is in the pruned set iff it is in the source and has no id or an id outside the conflict ids, so the result is a subset of the source |
| `Shell.PrunedIsSet` | oc_example/src/components/app-index.ts:161-166 | pruning a set yields a set |
| `Shell.PrunedSize` | oc_example/src/components/app-index.ts:110 | pruning never grows a set, and keeps its size exactly when every member survives |
| `Shell.PrunedAppend` | oc_example/src/components/app-index.ts:161-166 | pruning distributes over concatenation, so kept members stay in source order |
| `Shell.PrunedIdempotent` | oc_example/src/components/app-index.ts:148-169 | pruning again by the same conflict set changes nothing |
| `Shell.PruneRemovesConflicts` | oc_example/src/components/app-index.ts:153-166 | no member of the result shares a truthy id with any member of the conflict set |
| `Shell.SizeChangesIffConflict` | oc_example/src/components/app-index.ts:109-110 | the size changes exactly when some source member shares a truthy id with a conflict member |
| `Shell.PrunedStaysApart` | oc_example/src/components/app-index.ts:107-133 | pruning one of two sets that share no id keeps them apart, in both argument orders |
| `Shell.GetLocalStorage` | oc_example/src/components/app-index.ts:135-138 | reading `"_likedRecipes"`: absent or empty text gives the empty set, malformed text is an error, any other result is a set, and a stored JSON array reads back with exactly its members |
| `Shell.GetLocalStorageHateRecipies` | oc_example/src/components/app-index.ts:140-143 | the same for `"_dislikedRecipes"` |
| `Shell.AppIndex.constructor` | oc_example/src/components/app-index.ts:30-34 | both fields hold the sets read back, the storage is the given one, and nothing has been published |
| `Shell.Start` | oc_example/src/components/app-index.ts:30-34 | the shell is created exactly when both keys read back without error, with the two fields equal to what was read |
| `Shell.AppIndex.ConnectedCallback` | oc_example/src/components/app-index.ts:38-51 | the liked set and then the disliked set are published once each |
| `Shell.AppIndex.RemoveConflictingItems` | oc_example/src/components/app-index.ts:148-169 | the two loops compute exactly the pruned source: a set, in source order, keeping every member with no id or a non-conflicting id; the inputs are values and stay unchanged |
| `Shell.AppIndex.SaveToLocalStorage` | oc_example/src/components/app-index.ts:174-178 | only the given key changes, and it now holds the set as an array in insertion order |
| `Shell.AppIndex.SetLocalStorage` | oc_example/src/components/app-index.ts:107-119 | on a shared id: the disliked field becomes the pruned set, one `disliked-recipes` publish of it, and `"_dislikedRecipes"` written. With no shared id: field, log and that key unchanged. Always: `"_likedRecipes"` holds the incoming set, the liked field is untouched, the disliked field shares no id with the incoming set, and fields that were apart stay apart |
| `Shell.AppIndex.SetLocalStorageHateRecipies` | oc_example/src/components/app-index.ts:121-133 | the mirror image, with liked and disliked swapped |
| `Shell.LikeADislikedRecipe` | oc_example/src/components/app-index.ts:107-119 | with liked {A} and disliked {B} stored, publishing liked {A, B} empties the disliked set, publishes it once, persists it empty and persists the liked array as given |
| `HateRecipes.WithoutId` | oc_example/src/pages/hate-recipes/hate-recipes-page.ts:161-167 | what `_delete` leaves in the set: never longer than before, and every member comes from the old set and lacks the deleted id; that every other member stays, and idempotence, are in `WithoutIdMembers` and `WithoutIdIdempotent` |
| `HateRecipes.WithoutIdMembers` | oc_example/src/pages/hate-recipes/hate-recipes-page.ts:161-167 | after deletion by id, no member has that id, every member with another id is kept, and nothing is added |
| `HateRecipes.WithoutIdIsSet` | oc_example/src/pages/hate-recipes/hate-recipes-page.ts:161-167 | deletion by id keeps a set a set |
| `HateRecipes.WithoutIdIdempotent` | oc_example/src/pages/hate-recipes/hate-recipes-page.ts:161-167 | deleting the same id a second time changes nothing |
| `HateRecipes.DeleteStep` | oc_example/src/pages/hate-recipes/hate-recipes-page.ts:162-166 | visiting one entry advances "visited part filtered, rest untouched" by one, deleting the entry exactly when its id matches |
| `HateRecipes.FindById` | oc_example/src/pages/hate-recipes/hate-recipes-page.ts:115 | `find` succeeds iff some member has the id, and then returns the first such member |
| `HateRecipes.Selected` | oc_example/src/pages/hate-recipes/hate-recipes-page.ts:113-117 | the toggle is selected iff the page holds a set and some member has the recipe's id |
| `HateRecipes.ShowsList` | oc_example/src/pages/hate-recipes/hate-recipes-page.ts:51-53 | the list template is rendered exactly when a set has been received and it has a member; `ShowsListIffSomeSelected` ties this to the toggles' selected state |
| `HateRecipes.ShowsListIffSomeSelected` | oc_example/src/pages/hate-recipes/hate-recipes-page.ts:51-53 | the list is shown, rather than "No hates recipes yet", exactly when some listed recipe's toggle renders selected; every listed recipe's toggle does |
| `HateRecipes.HateRecipesPage.constructor` | oc_example/src/pages/hate-recipes/hate-recipes-page.ts:24-25 | the page starts with no set (`null`) and no publishes |
| `HateRecipes.HateRecipesPage.OnDislikedRecipes` | oc_example/src/pages/hate-recipes/hate-recipes-page.ts:30-33 | the subscription handler makes the received set the page's set |
| `HateRecipes.HateRecipesPage.Delete` | oc_example/src/pages/hate-recipes/hate-recipes-page.ts:161-167 | the loop leaves the set object holding exactly its old members whose id differs from the recipe's, in order, still a set |
| `HateRecipes.HateRecipesPage.AddDisLikedRecipes` | oc_example/src/pages/hate-recipes/hate-recipes-page.ts:149-159 | with no set: returns at once, no mutation and no publish. Selected: the recipe is added and nothing present is removed. Deselected: deletes by id from the `_likedRecipes` it is handed, or throws when that is `undefined`. Unless it returned or threw, `disliked-recipes` is published once, after the mutation, with the mutated set |
| `HateRecipes.HateRecipesPage.ToggleDisliked` | oc_example/src/pages/hate-recipes/hate-recipes-page.ts:149-159 | corrected handler: adds or deletes by id in the page's own set, publishes it once, and afterwards the toggle's derived selected state equals the button's |
| `HateRecipes.DeselectLeavesRecipeDisliked` | oc_example/src/pages/hate-recipes/hate-recipes-page.ts:155 | as written, deselecting B on a page holding {B} throws, B stays, its toggle still renders selected, nothing is published |
| `HateRecipes.DeselectRemovesRecipe` | oc_example/src/pages/hate-recipes/hate-recipes-page.ts:155 | with the corrected handler the same click empties the set, the toggle renders deselected, and the empty set is published once |

## Left out

- Routing, page transitions and `startApp` (app-index.ts:12-19) are UI and framework plumbing.
- Also left out as UI plumbing: template markup and `render`/`_headerTpl` beyond the list-or-empty condition; `firstUpdated` DOM queries; `_headerTransition` and the `scroll` topic; `_toogleDarkMode`; the `_navigateTo*` handlers; `onPageLeave`; `requestUpdate`.
- `Storage.ReadKey`: a stored value is only `Blank` (empty text), `Json(items)` (JSON text of an array) or `Malformed` (text `JSON.parse` rejects); JSON text itself is not modelled. Other valid JSON is not modelled, and the program treats it as follows at app-index.ts:137,142: `"null"` reads as the empty set; a number, `true`/`false` or an object such as `"{}"` throws a `TypeError` in `new Set(...)`, since the value is not iterable; a JSON string such as `"\"ab\""` reads as the set of its characters.
- `JSON.parse` creates a fresh object per array element. The model keeps the handles that were written, so object identity across a reload is not modelled.
- `localStorage` failures (quota exceeded, storage disabled) are not modelled. Writes always succeed.
- The publish/subscribe registry's delivery, fan-out order and the subscribe/unsubscribe lifecycle are not modelled. Publishes are only logged, and handlers are called directly.
- Object aliasing between components is not modelled: published payloads are values. In the program, a page mutates the very `Set` instance the shell published, so the shell's own fields follow those in-place changes. In the model they do not.
  - The shell never assigns the field for the set it is handed (app-index.ts:107-118 leaves `_likedRecipes` alone). So in the model that field keeps its old value.
  - Hence the model proves exclusion between the incoming set and the pruned field, and preservation of exclusion between the two fields. It does not prove exclusion between the two persisted keys.
- A missing `idMeal` and an empty one are both `""`. `undefined === ""` is false in JavaScript, so `Delete` would not match those two against each other; the model does.

## Findings

| source | as written | input that shows it | evidently intended | confidence | as-written member | corrected member |
|---|---|---|---|---|---|---|
| oc_example/src/pages/hate-recipes/hate-recipes-page.ts:155 | the deselect branch deletes from `this._likedRecipes`, which the page never declares or assigns; it is `undefined`, so `for (const item of set)` throws a TypeError before the publish at line 157 | a page holding disliked {B}; the user clicks B's toggle off | delete from `this._dislikedRecipes`, then publish it | medium, not executed | `HateRecipes.DeselectLeavesRecipeDisliked` | `HateRecipes.HateRecipesPage.ToggleDisliked` |
