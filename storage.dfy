/** The browser's `localStorage` as the shell uses it: each key holds the JSON
    text of an array of recipe records. JSON text itself is not modelled; a
    stored value is described by what `JSON.parse` would make of it. */
module Storage {
  import opened Recipes

  datatype Stored =
    | Blank                      // the empty string, which is falsy and never parsed
    | Json(items: seq<Recipe>)   // a JSON array of recipe records, in array order
    | Malformed                  // text that `JSON.parse` rejects

  /** The exception `JSON.parse` throws. */
  datatype ParseError = SyntaxError

  type Store = map<string, Stored>

  /** `new Set(array)`: the array's elements added one by one, in order. */
  function FromArray(items: seq<Recipe>): (r: seq<Recipe>)
    ensures IsSet(r)
    ensures forall x :: x in r <==> x in items
    ensures IsSet(items) ==> r == items
    decreases |items|
  {
    if items == [] then []
    else
      var init := items[..|items| - 1];
      var r := SetAdd(FromArray(init), items[|items| - 1]);
      assert init + [items[|items| - 1]] == items;
      r
  }

  /** Reads `key` back as a set: `getItem`, then `new Set(JSON.parse(text))`
      when the text is truthy and an empty set otherwise. The parse is not
      guarded, so malformed text is an error. Only array JSON is modelled. */
  function ReadKey(store: Store, key: string): (r: Result<seq<Recipe>, ParseError>)
    ensures key !in store || store[key] == Blank ==> r == Ok([])
    ensures r.Err? <==> key in store && store[key] == Malformed
    ensures r.Ok? ==> IsSet(r.value)
    ensures key in store && store[key].Json? ==>
              r.Ok? && forall x :: x in r.value <==> x in store[key].items
  {
    if key !in store then Ok([])
    else
      match store[key]
      case Blank => Ok([])
      case Json(items) => Ok(FromArray(items))
      case Malformed => Err(SyntaxError)
  }

  /** Writing a set (as `JSON.stringify(Array.from(s))`) and reading it back
      gives the same members in the same order. */
  lemma ReadAfterWrite(store: Store, key: string, s: seq<Recipe>)
    requires IsSet(s)
    ensures ReadKey(store[key := Json(s)], key) == Ok(s)
  {
  }
}
