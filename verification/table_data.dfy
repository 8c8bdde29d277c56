/**
 * A configuration table keyed by the hash of each item's name.  The RON
 * parse is outside the model (its failure is a panic); loading starts from
 * the parsed item list.  Names and the hasher are parameters: `name`
 * stands for `get_name` and `hash` for `DefaultHasher` over a string.
 */
module TableData {
  import opened Wrappers

  datatype Table<T> = Table(dict: map<nat, T>)

  /** `load_from_bytes`: insert the items in list order, so a later item with the same hash replaces an earlier one. */
  function Load<T>(items: seq<T>, name: T -> string, hash: string -> nat): (r: Table<T>)
    ensures forall k :: k in r.dict <==> exists i :: 0 <= i < |items| && hash(name(items[i])) == k
  {
    if |items| == 0 then Table(map[])
    else
      var init := Load(items[..|items| - 1], name, hash);
      var last := items[|items| - 1];
      assert forall i :: 0 <= i < |items| - 1 ==> items[..|items| - 1][i] == items[i];
      Table(init.dict[hash(name(last)) := last])
  }

  /**
   * Every item is found under the hash of its name unless a later item's
   * name hashes the same, in which case the later one wins.
   */
  lemma {:induction false} LoadLastWins<T>(items: seq<T>, name: T -> string, hash: string -> nat, i: nat)
    requires i < |items|
    ensures var k := hash(name(items[i]));
            k in Load(items, name, hash).dict
            && ((forall j :: i < j < |items| ==> hash(name(items[j])) != k) ==> Load(items, name, hash).dict[k] == items[i])
  {
    if i < |items| - 1 {
      LoadLastWins(items[..|items| - 1], name, hash, i);
    }
  }

  /** `find`. */
  function Find<T>(t: Table<T>, key: nat): (r: Option<T>)
    ensures r.None? <==> key !in t.dict
    ensures r.Some? ==> r.value == t.dict[key]
  {
    if key in t.dict then Some(t.dict[key]) else None
  }

  /** `index`: panics on an absent key; otherwise the item `find` returns. */
  function Index<T>(t: Table<T>, key: nat): (r: T)
    requires key in t.dict
    ensures Find(t, key) == Some(r)
  {
    t.dict[key]
  }

  /** `index_by_str`: hash the string, then `index`. */
  function IndexByStr<T>(t: Table<T>, s: string, hash: string -> nat): (r: T)
    requires hash(s) in t.dict
    ensures Find(t, hash(s)) == Some(r)
  {
    Index(t, hash(s))
  }

  /** A loaded item looked up by its own name is the last item carrying a name with that hash. */
  lemma IndexByNameFindsItem<T>(items: seq<T>, name: T -> string, hash: string -> nat, i: nat)
    requires i < |items| && forall j :: i < j < |items| ==> hash(name(items[j])) != hash(name(items[i]))
    ensures hash(name(items[i])) in Load(items, name, hash).dict
    ensures IndexByStr(Load(items, name, hash), name(items[i]), hash) == items[i]
  {
    LoadLastWins(items, name, hash, i);
  }
}
