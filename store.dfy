/**
 * The typed key space of store/store.go: one map from key to either a byte
 * string or a list of byte strings. The functions are the model of each
 * operation as one atomic step on the map; the class `Store` is the object the
 * server holds, whose methods update its map in place and are proved to do what
 * the functions say.
 */
module Store {
  import opened Ascii

  /** What a key holds: the `[]byte` that Set stores or the `*list.List` that LPush creates. */
  datatype Entry = Str(bytes: Bytes) | List(items: seq<Bytes>)

  type Data = map<Bytes, Entry>

  /**
   * The list that pushing each of s to the front, in order, builds: the last of
   * s ends up first.
   */
  function Reversed(s: seq<Bytes>): (r: seq<Bytes>)
    ensures |r| == |s|
  {
    if s == [] then [] else [s[|s| - 1]] + Reversed(s[..|s| - 1])
  }

  /** Reversed lists s back to front. */
  lemma {:induction false} ReversedAt(s: seq<Bytes>, k: nat)
    requires k < |s|
    ensures Reversed(s)[k] == s[|s| - 1 - k]
  {
    if k > 0 {
      ReversedAt(s[..|s| - 1], k - 1);
    }
  }

  /** `Get`: the byte string a key holds; nothing for an absent key or a list key. */
  function Lookup(data: Data, key: Bytes): (r: Option<Bytes>)
  {
    if key in data && data[key].Str? then Some(data[key].bytes) else None
  }

  /** Get finds v exactly when the key holds the byte string v. */
  lemma LookupFinds(data: Data, key: Bytes, v: Bytes)
    ensures Lookup(data, key) == Some(v) <==> key in data && data[key] == Str(v)
  {
  }

  /**
   * `LPush`: the values pushed to the front of the key's list one by one, and
   * the length of the list afterwards. An absent key gets a new list; a key
   * holding a byte string is left alone and the count is 0.
   */
  function Pushed(data: Data, key: Bytes, values: seq<Bytes>): (Data, int)
  {
    if key !in data then (data[key := List(Reversed(values))], |values|)
    else
      match data[key]
      case Str(_) => (data, 0)
      case List(items) => (data[key := List(Reversed(values) + items)], |items| + |values|)
  }

  /**
   * `LPop`: the front element of the key's list, removed from it. An absent
   * key, a byte-string key and an empty list give nothing and change nothing.
   */
  function Popped(data: Data, key: Bytes): (Data, Option<Bytes>)
  {
    if key in data && data[key].List? && |data[key].items| > 0 then
      (data[key := List(data[key].items[1..])], Some(data[key].items[0]))
    else (data, None)
  }

  /** The list a key holds, taking an absent key as an empty list. */
  function ListOf(data: Data, key: Bytes): seq<Bytes>
  {
    if key in data && data[key].List? then data[key].items else []
  }

  /**
   * LPush on a key that does not hold a byte string: the key then holds a list,
   * the values in reverse order in front of what it held, and the count
   * returned is that list's length. Every other key keeps its entry.
   */
  lemma PushedList(data: Data, key: Bytes, values: seq<Bytes>)
    requires key !in data || data[key].List?
    ensures var (after, n) := Pushed(data, key, values);
      && key in after && after[key] == List(Reversed(values) + ListOf(data, key))
      && n == |after[key].items|
      && (forall k | k in data && k != key :: k in after && after[k] == data[k])
      && after.Keys == data.Keys + {key}
  {
    if key !in data {
      assert Reversed(values) + [] == Reversed(values);
    }
  }

  /** Pushing one more value puts it in front of the values pushed before it. */
  lemma PushedOne(values: seq<Bytes>, i: nat)
    requires i < |values|
    ensures Reversed(values[..i + 1]) == [values[i]] + Reversed(values[..i])
  {
    assert values[..i + 1][..i] == values[..i];
  }

  /** LPush on a key without a byte string, in one formula: the new list and its length. */
  lemma PushedAll(data: Data, key: Bytes, values: seq<Bytes>)
    requires key !in data || data[key].List?
    ensures Pushed(data, key, values).0 == data[key := List(Reversed(values) + ListOf(data, key))]
    ensures Pushed(data, key, values).1 == |values| + |ListOf(data, key)|
  {
    if key !in data {
      assert Reversed(values) + [] == Reversed(values);
    }
  }

  /** LPush on a key holding a byte string changes nothing and returns 0. */
  lemma PushedString(data: Data, key: Bytes, values: seq<Bytes>)
    requires key in data && data[key].Str?
    ensures Pushed(data, key, values) == (data, 0)
  {
  }

  /** Pushing the values one call at a time builds the same list as pushing them in one call. */
  lemma {:induction false} PushedInTurn(data: Data, key: Bytes, a: seq<Bytes>, b: seq<Bytes>)
    requires key !in data || data[key].List?
    ensures Pushed(Pushed(data, key, a).0, key, b).0 == Pushed(data, key, a + b).0
  {
    var l := ListOf(data, key);
    PushedList(data, key, a);
    var d1 := Pushed(data, key, a).0;
    PushedList(d1, key, b);
    ReversedConcat(a, b);
    assert Reversed(b) + (Reversed(a) + l) == Reversed(a + b) + l;
  }

  /** Reversing a + b puts the reversal of b first. */
  lemma ReversedConcat(a: seq<Bytes>, b: seq<Bytes>)
    ensures Reversed(a + b) == Reversed(b) + Reversed(a)
  {
    var r, s := Reversed(a + b), Reversed(b) + Reversed(a);
    forall k | 0 <= k < |r| ensures r[k] == s[k] {
      ReversedAt(a + b, k);
      if k < |b| {
        ReversedAt(b, k);
      } else {
        ReversedAt(a, k - |b|);
      }
    }
  }

  /**
   * LPop on a non-empty list returns its front element and leaves the key
   * holding the rest, possibly an empty list; every other key keeps its entry.
   */
  lemma PoppedFront(data: Data, key: Bytes)
    requires |ListOf(data, key)| > 0
    ensures var (after, v) := Popped(data, key);
      && v == Some(ListOf(data, key)[0])
      && key in after && after[key] == List(ListOf(data, key)[1..])
      && (forall k | k != key :: (k in after <==> k in data) && (k in data ==> after[k] == data[k]))
  {
  }

  /** LPop without a non-empty list under the key returns nothing and changes nothing. */
  lemma PoppedNothing(data: Data, key: Bytes)
    ensures Popped(data, key).1.None? <==> |ListOf(data, key)| == 0
    ensures Popped(data, key).1.None? ==> Popped(data, key).0 == data
  {
  }

  /**
   * Last in, first out: after pushing a and then b on a key that does not hold
   * a byte string, two pops give b and then a, and leave the list as it was.
   */
  lemma {:induction false} PushPushPopPop(data: Data, key: Bytes, a: Bytes, b: Bytes)
    requires key !in data || data[key].List?
    ensures var d1 := Pushed(Pushed(data, key, [a]).0, key, [b]).0;
      var (d2, first) := Popped(d1, key);
      var (d3, second) := Popped(d2, key);
      && first == Some(b) && second == Some(a)
      && ListOf(d3, key) == ListOf(data, key)
  {
    var l := ListOf(data, key);
    PushedList(data, key, [a]);
    var d0 := Pushed(data, key, [a]).0;
    PushedList(d0, key, [b]);
    var d1 := Pushed(d0, key, [b]).0;
    assert Reversed([a]) == [a] && Reversed([b]) == [b];
    assert ListOf(d1, key) == [b] + ([a] + l);
    PoppedFront(d1, key);
    var d2 := Popped(d1, key).0;
    assert ListOf(d2, key) == [a] + l;
    PoppedFront(d2, key);
  }

  /** After pushing values, the first pop returns the last of them. */
  lemma PushThenPop(data: Data, key: Bytes, values: seq<Bytes>)
    requires key !in data || data[key].List?
    requires values != []
    ensures Popped(Pushed(data, key, values).0, key).1 == Some(values[|values| - 1])
  {
    PushedList(data, key, values);
    ReversedAt(values, 0);
  }

  /** The object the server holds; its one field is the map the operations update in place. */
  class Store {
    var data: Data

    /** `NewStore`: an empty map. */
    constructor ()
      ensures data == map[]
    {
      data := map[];
    }

    /** `Set`: the key now holds value, whatever it held before; no other key changes. */
    method Set(key: Bytes, value: Bytes)
      modifies this
      ensures data == old(data)[key := Str(value)]
    {
      data := data[key := Str(value)];
    }

    /** `Get`: (v, true) exactly when the key holds the byte string v; (empty, false) otherwise. */
    method Get(key: Bytes) returns (value: Bytes, ok: bool)
      ensures ok <==> key in data && data[key].Str?
      ensures ok ==> data[key] == Str(value)
      ensures !ok ==> value == []
    {
      if key !in data {
        return [], false;
      }
      match data[key]
      case Str(bytes) => value, ok := bytes, true;
      case List(_) => value, ok := [], false;
    }

    /** `LPush`: each value is pushed to the front of the key's list in turn. */
    method LPush(key: Bytes, values: seq<Bytes>) returns (n: int)
      modifies this
      ensures data == Pushed(old(data), key, values).0
      ensures n == Pushed(old(data), key, values).1
    {
      if key in data && data[key].Str? {
        return 0;
      }
      var l := ListOf(data, key);
      var i := 0;
      while i < |values|
        invariant i <= |values|
        invariant data == old(data)
        invariant l == Reversed(values[..i]) + ListOf(data, key)
      {
        PushedOne(values, i);
        l := [values[i]] + l;
        i := i + 1;
      }
      assert values[..i] == values;
      PushedAll(data, key, values);
      data := data[key := List(l)];
      n := |l|;
    }

    /** `LPop`: the front element of the key's list, removed from the list. */
    method LPop(key: Bytes) returns (value: Bytes, ok: bool)
      modifies this
      ensures (data, if ok then Some(value) else None) == Popped(old(data), key)
      ensures !ok ==> value == []
    {
      if key !in data || data[key].Str? || |data[key].items| == 0 {
        return [], false;
      }
      var items := data[key].items;
      value, ok := items[0], true;
      data := data[key := List(items[1..])];
    }
  }
}
