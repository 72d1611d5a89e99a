/**
 * `load_cookies`: the cookie jar built from a JSON cookie file, either a
 * browser-exported list of cookie objects or an object used as the jar as is.
 */
module Cookies {
  /** One object of an exported cookie list, restricted to its string fields. */
  type CookieItem = map<string, string>

  /** The cookie jar handed to `requests`: cookie name to value. */
  type Jar = map<string, string>

  /** What reading the cookie file gave: a list, an object, or an exception on the way. */
  datatype CookieFile = CookieList(items: seq<CookieItem>) | CookieObject(jar: Jar) | Unreadable

  /** The comprehension's filter: `'name' in item and 'value' in item`. */
  predicate HasNameAndValue(item: CookieItem) {
    "name" in item && "value" in item
  }

  /** Item `i` is kept by the filter and no later kept item has its name. */
  predicate LastKept(items: seq<CookieItem>, i: int) {
    0 <= i < |items| && HasNameAndValue(items[i]) &&
    forall k :: i < k < |items| && HasNameAndValue(items[k]) ==> items[k]["name"] != items[i]["name"]
  }

  /** `{item['name']: item['value'] for item in data if ...}`: items in order, a later name overwriting an earlier one. */
  function ListToJar(items: seq<CookieItem>): (jar: Jar)
    ensures forall name :: name in jar ==>
      exists i :: 0 <= i < |items| && HasNameAndValue(items[i]) && items[i]["name"] == name && items[i]["value"] == jar[name]
    decreases |items|
  {
    if items == [] then map[]
    else
      var jar := ListToJar(items[..|items| - 1]);
      var item := items[|items| - 1];
      if HasNameAndValue(item) then jar[item["name"] := item["value"]] else jar
  }

  /**
   * `load_cookies(cookie_file)`: `{}` when reading or converting fails, an
   * object as is, and for a list the names of the items that carry both a
   * name and a value, each bound to the value of the last such item.
   */
  function LoadCookies(file: CookieFile): (jar: Jar)
    ensures file.Unreadable? ==> jar == map[]
    ensures file.CookieObject? ==> jar == file.jar
    ensures file.CookieList? ==> forall name :: name in jar <==>
      exists i :: 0 <= i < |file.items| && HasNameAndValue(file.items[i]) && file.items[i]["name"] == name
    ensures file.CookieList? ==> forall i :: LastKept(file.items, i) ==>
      file.items[i]["name"] in jar && jar[file.items[i]["name"]] == file.items[i]["value"]
  {
    match file
    case CookieList(items) =>
      JarNames(items);
      forall i | LastKept(items, i)
        ensures items[i]["name"] in ListToJar(items) && ListToJar(items)[items[i]["name"]] == items[i]["value"]
      {
        LastItemWins(items, i);
      }
      ListToJar(items)
    case CookieObject(j) => j
    case Unreadable => map[]
  }

  /** A name is in the jar exactly when some kept item carries it. */
  lemma {:induction false} JarNames(items: seq<CookieItem>)
    ensures forall name :: name in ListToJar(items) <==>
      exists i :: 0 <= i < |items| && HasNameAndValue(items[i]) && items[i]["name"] == name
    decreases |items|
  {
    if items != [] {
      var init := items[..|items| - 1];
      JarNames(init);
      forall name | name in ListToJar(items)
        ensures exists i :: 0 <= i < |items| && HasNameAndValue(items[i]) && items[i]["name"] == name
      {
        if name !in ListToJar(init) {
          assert items[|items| - 1]["name"] == name;
        } else {
          var i :| 0 <= i < |init| && HasNameAndValue(init[i]) && init[i]["name"] == name;
          assert items[i] == init[i];
        }
      }
      forall name | exists i :: 0 <= i < |items| && HasNameAndValue(items[i]) && items[i]["name"] == name
        ensures name in ListToJar(items)
      {
        var i :| 0 <= i < |items| && HasNameAndValue(items[i]) && items[i]["name"] == name;
        if i < |init| {
          assert init[i] == items[i];
        }
      }
    }
  }

  /** The value stored under a name is that of the last kept item carrying the name. */
  lemma {:induction false} LastItemWins(items: seq<CookieItem>, i: nat)
    requires LastKept(items, i)
    ensures items[i]["name"] in ListToJar(items)
    ensures ListToJar(items)[items[i]["name"]] == items[i]["value"]
    decreases |items|
  {
    var init := items[..|items| - 1];
    if i < |items| - 1 {
      assert init[i] == items[i];
      forall k | i < k < |init| && HasNameAndValue(init[k]) ensures init[k]["name"] != init[i]["name"] {
        assert init[k] == items[k];
      }
      assert LastKept(init, i);
      LastItemWins(init, i);
    }
  }

  /** Items lacking a name or a value leave the jar as it was. */
  lemma SkippedItemChangesNothing(items: seq<CookieItem>, item: CookieItem)
    requires !HasNameAndValue(item)
    ensures ListToJar(items + [item]) == ListToJar(items)
  {
    assert (items + [item])[..|items|] == items;
  }
}
