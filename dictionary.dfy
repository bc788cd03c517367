/** A Python dictionary as the program uses it: its entries in insertion
    order, with lookup and item assignment. */
module Dictionary {

  import opened Wrappers
  import opened Sequences

  datatype Item<V> = Item(key: string, value: V)

  type Dict<V> = seq<Item<V>>

  function Keys<V>(d: Dict<V>): (ks: seq<string>)
    ensures |ks| == |d| && forall i :: 0 <= i < |d| ==> ks[i] == d[i].key
    decreases |d|
  {
    if d == [] then [] else [d[0].key] + Keys(d[1..])
  }

  predicate DistinctKeys<V>(d: Dict<V>) {
    Distinct(Keys(d))
  }

  /** Lookup: the value of the first entry with the key. */
  function Get<V>(d: Dict<V>, key: string): (r: Option<V>)
    ensures r.Some? <==> key in Keys(d)
    decreases |d|
  {
    if d == [] then None
    else if d[0].key == key then Some(d[0].value)
    else
      assert forall i :: 1 <= i < |d| ==> d[i] == d[1..][i - 1];
      Get(d[1..], key)
  }

  /** Item assignment `d[key] = value`: an existing key keeps its place and
      gets the new value, a new key goes last. */
  function Put<V>(d: Dict<V>, key: string, value: V): (r: Dict<V>)
    ensures key in Keys(d) ==> Keys(r) == Keys(d)
    ensures key !in Keys(d) ==> Keys(r) == Keys(d) + [key]
    decreases |d|
  {
    if d == [] then [Item(key, value)]
    else if d[0].key == key then
      var r := [Item(key, value)] + d[1..];
      assert r[1..] == d[1..];
      r
    else
      var r := [d[0]] + Put(d[1..], key, value);
      assert r[1..] == Put(d[1..], key, value);
      r
  }

  /** After the assignment the key maps to the new value and every other key
      to what it mapped to before. */
  lemma {:induction false} PutGet<V>(d: Dict<V>, key: string, value: V, k: string)
    ensures Get(Put(d, key, value), k) == if k == key then Some(value) else Get(d, k)
    decreases |d|
  {
    if d != [] && d[0].key != key {
      var r := Put(d, key, value);
      assert r[0] == d[0] && r[1..] == Put(d[1..], key, value);
      PutGet(d[1..], key, value, k);
    }
  }

  /** Assignment keeps the keys of a dictionary distinct. */
  lemma PutKeepsKeysDistinct<V>(d: Dict<V>, key: string, value: V)
    requires DistinctKeys(d)
    ensures DistinctKeys(Put(d, key, value))
  {
    var r := Put(d, key, value);
    var ks := Keys(r);
    forall i, j | 0 <= i < j < |r| ensures r[i].key != r[j].key {
      assert ks[i] == r[i].key && ks[j] == r[j].key;
      if j < |d| {
        assert Keys(d)[i] == d[i].key && Keys(d)[j] == d[j].key;
      } else {
        assert Keys(d)[i] == d[i].key;
      }
    }
  }

}
