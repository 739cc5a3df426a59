/**
 Insertion-ordered maps from names to values, as the type system keeps its
 field and method tables: `set` on a present name replaces its value in
 place, `set` on a new name appends it, and iteration follows insertion
 order.
 */
module OrderedMaps {
  import opened Wrappers

  datatype Entry<V> = Entry(key: string, value: V)

  function Keys<V>(t: seq<Entry<V>>): (r: seq<string>)
    ensures |r| == |t|
    ensures forall i :: 0 <= i < |t| ==> r[i] == t[i].key
  {
    if |t| == 0 then [] else [t[0].key] + Keys(t[1..])
  }

  ghost predicate DistinctKeys<V>(t: seq<Entry<V>>) {
    forall i, j :: 0 <= i < j < |t| ==> t[i].key != t[j].key
  }

  /** The value stored under `k`, if any. */
  function Get<V>(t: seq<Entry<V>>, k: string): (r: Option<V>)
    ensures r.None? <==> k !in Keys(t)
  {
    if |t| == 0 then None
    else if t[0].key == k then Some(t[0].value)
    else
      assert Keys(t) == [t[0].key] + Keys(t[1..]);
      Get(t[1..], k)
  }

  /** The map after `set(k, v)`: the key keeps its place, or is appended when new. */
  function Put<V>(t: seq<Entry<V>>, k: string, v: V): (r: seq<Entry<V>>)
    ensures Keys(r) == if k in Keys(t) then Keys(t) else Keys(t) + [k]
  {
    if |t| == 0 then [Entry(k, v)]
    else if t[0].key == k then
      assert Keys([Entry(k, v)] + t[1..]) == [k] + Keys(t[1..]);
      assert Keys(t) == [k] + Keys(t[1..]);
      [Entry(k, v)] + t[1..]
    else
      var rest := Put(t[1..], k, v);
      assert Keys(t) == [t[0].key] + Keys(t[1..]);
      assert Keys([t[0]] + rest) == [t[0].key] + Keys(rest);
      [t[0]] + rest
  }

  /** After `set(k, v)`, `k` reads `v` and every other key reads what it read before. */
  lemma {:induction false} PutGet<V>(t: seq<Entry<V>>, k: string, v: V, k': string)
    ensures Get(Put(t, k, v), k') == if k' == k then Some(v) else Get(t, k')
  {
    if |t| > 0 && t[0].key != k {
      PutGet(t[1..], k, v, k');
    }
  }

  /**
   `after` is `before` with `k` set to `v`: the key keeps its place or is
   appended, it reads `v`, and every other key reads what it read before.
   */
  ghost predicate PutOf<V>(after: seq<Entry<V>>, before: seq<Entry<V>>, k: string, v: V) {
    && Keys(after) == (if k in Keys(before) then Keys(before) else Keys(before) + [k])
    && Get(after, k) == Some(v)
    && forall k' :: k' != k ==> Get(after, k') == Get(before, k')
  }

  lemma PutIsPutOf<V>(t: seq<Entry<V>>, k: string, v: V)
    ensures PutOf(Put(t, k, v), t, k, v)
  {
    forall k' {
      PutGet(t, k, v, k');
    }
  }

  /** `set` never duplicates a key. */
  lemma {:induction false} PutKeepsKeysDistinct<V>(t: seq<Entry<V>>, k: string, v: V)
    requires DistinctKeys(t)
    ensures DistinctKeys(Put(t, k, v))
  {
    var r := Put(t, k, v);
    assert Keys(r) == if k in Keys(t) then Keys(t) else Keys(t) + [k];
    forall i, j | 0 <= i < j < |r| ensures r[i].key != r[j].key {
      assert Keys(r)[i] == r[i].key && Keys(r)[j] == r[j].key;
      if j < |t| {
        assert Keys(t)[i] == t[i].key && Keys(t)[j] == t[j].key;
      } else {
        assert Keys(t)[i] == t[i].key;
      }
    }
  }
}
