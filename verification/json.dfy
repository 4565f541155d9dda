/** JSON documents as values, and the mutable JSON object node that the
    merge code edits in place.

    An object is a sequence of members in insertion order: the order is
    observable in the serialized output, and `Remove` followed by an indexer
    assignment moves a key to the end. Numbers are kept as integers; equality
    of two values is structural equality of this datatype. */
module JsonModel {

  datatype Option<+T> = None | Some(value: T)

  datatype Json =
    | JNull
    | JBool(b: bool)
    | JNum(n: int)
    | JStr(s: string)
    | JArr(items: seq<Json>)
    | JObj(members: seq<(string, Json)>)

  type Member = (string, Json)

  function Keys(ms: seq<Member>): (ks: seq<string>)
    ensures |ks| == |ms|
    ensures forall i :: 0 <= i < |ms| ==> ks[i] == ms[i].0
  {
    seq(|ms|, i requires 0 <= i < |ms| => ms[i].0)
  }

  /** Every key occurs once. */
  predicate UniqueKeys(ms: seq<Member>)
  {
    forall i, j :: 0 <= i < j < |ms| ==> ms[i].0 != ms[j].0
  }

  /** No name occurs twice in a field list. */
  predicate NoDup(ks: seq<string>)
  {
    forall i, j :: 0 <= i < j < |ks| ==> ks[i] != ks[j]
  }

  function Elements(ks: seq<string>): set<string>
  {
    set k | k in ks
  }

  /** The value stored under `k` (the first member with that key), JSON null included. */
  function Find(ms: seq<Member>, k: string): (r: Option<Json>)
    ensures r.Some? <==> k in Keys(ms)
  {
    if ms == [] then None
    else if ms[0].0 == k then Some(ms[0].1)
    else
      KeysSplit(ms);
      Find(ms[1..], k)
  }

  /** The value of `k` as the System.Text.Json indexer returns it: a missing key
      and a key holding JSON null both read as null (`None`). */
  function NodeAt(ms: seq<Member>, k: string): (r: Option<Json>)
    ensures r.Some? <==> Find(ms, k).Some? && Find(ms, k).value != JNull
    ensures r.Some? ==> r == Find(ms, k)
  {
    match Find(ms, k)
    case Some(JNull) => None
    case other => other
  }

  /** The value of `k`, JSON null when it is missing. */
  function ValueAt(ms: seq<Member>, k: string): Json
  {
    match Find(ms, k)
    case Some(v) => v
    case None => JNull
  }

  /** The members whose key is not in `ks`, in their original order. */
  function Without(ms: seq<Member>, ks: set<string>): (r: seq<Member>)
    ensures |r| <= |ms|
  {
    if ms == [] then []
    else if ms[0].0 in ks then Without(ms[1..], ks)
    else [ms[0]] + Without(ms[1..], ks)
  }

  /** The indexer assignment `node[k] = v`: an existing member keeps its place
      and takes the new value; a new key is appended at the end. */
  function Put(ms: seq<Member>, k: string, v: Json): (r: seq<Member>)
    ensures k in Keys(ms) ==> Keys(r) == Keys(ms)
    ensures k !in Keys(ms) ==> r == ms + [(k, v)]
  {
    if ms == [] then [(k, v)]
    else if ms[0].0 == k then
      KeysCons((k, v), ms[1..]);
      KeysSplit(ms);
      [(k, v)] + ms[1..]
    else
      KeysSplit(ms);
      KeysCons(ms[0], Put(ms[1..], k, v));
      [ms[0]] + Put(ms[1..], k, v)
  }

  lemma KeysCons(m: Member, ms: seq<Member>)
    ensures Keys([m] + ms) == [m.0] + Keys(ms)
  {
  }

  lemma KeysSplit(ms: seq<Member>)
    requires ms != []
    ensures Keys(ms) == [ms[0].0] + Keys(ms[1..])
  {
  }

  /** The members `(k, value of k in from)` for the keys of `ks`, in that order. */
  function Entries(from: seq<Member>, ks: seq<string>): (r: seq<Member>)
    ensures |r| == |ks|
    ensures forall i :: 0 <= i < |ks| ==> r[i] == (ks[i], ValueAt(from, ks[i]))
  {
    seq(|ks|, i requires 0 <= i < |ks| => (ks[i], ValueAt(from, ks[i])))
  }

  lemma {:induction false} FindAppend(a: seq<Member>, b: seq<Member>, k: string)
    ensures Find(a + b, k) == if Find(a, k).Some? then Find(a, k) else Find(b, k)
  {
    if a != [] {
      assert (a + b)[1..] == a[1..] + b;
      FindAppend(a[1..], b, k);
    } else {
      assert a + b == b;
    }
  }

  lemma {:induction false} FindWithout(ms: seq<Member>, ks: set<string>, k: string)
    ensures Find(Without(ms, ks), k) == if k in ks then None else Find(ms, k)
  {
    if ms != [] {
      FindWithout(ms[1..], ks, k);
    }
  }

  lemma {:induction false} WithoutAppend(a: seq<Member>, b: seq<Member>, ks: set<string>)
    ensures Without(a + b, ks) == Without(a, ks) + Without(b, ks)
  {
    if a == [] {
      assert a + b == b;
    } else {
      assert (a + b)[1..] == a[1..] + b;
      WithoutAppend(a[1..], b, ks);
    }
  }

  lemma {:induction false} WithoutWithout(ms: seq<Member>, a: set<string>, b: set<string>)
    ensures Without(Without(ms, a), b) == Without(ms, a + b)
  {
    if ms != [] {
      WithoutWithout(ms[1..], a, b);
    }
  }

  lemma {:induction false} WithoutNothing(ms: seq<Member>, ks: set<string>)
    requires forall i :: 0 <= i < |ms| ==> ms[i].0 !in ks
    ensures Without(ms, ks) == ms
  {
    if ms != [] {
      WithoutNothing(ms[1..], ks);
    }
  }

  lemma WithoutEmpty(ms: seq<Member>)
    ensures Without(ms, {}) == ms
  {
    WithoutNothing(ms, {});
  }

  lemma {:induction false} WithoutKeys(ms: seq<Member>, ks: set<string>)
    ensures forall k :: k in Keys(Without(ms, ks)) <==> k in Keys(ms) && k !in ks
  {
    forall k
      ensures k in Keys(Without(ms, ks)) <==> k in Keys(ms) && k !in ks
    {
      FindWithout(ms, ks, k);
    }
  }

  lemma {:induction false} WithoutUnique(ms: seq<Member>, ks: set<string>)
    requires UniqueKeys(ms)
    ensures UniqueKeys(Without(ms, ks))
  {
    if ms != [] {
      WithoutUnique(ms[1..], ks);
      if ms[0].0 !in ks {
        WithoutKeys(ms[1..], ks);
        assert forall j :: 0 <= j < |ms[1..]| ==> Keys(ms[1..])[j] == ms[j + 1].0 != ms[0].0;
        var r := [ms[0]] + Without(ms[1..], ks);
        forall i, j | 0 <= i < j < |r|
          ensures r[i].0 != r[j].0
        {
          if i == 0 {
            assert r[j].0 == Keys(Without(ms[1..], ks))[j - 1];
          }
        }
      }
    }
  }

  lemma {:induction false} FindPut(ms: seq<Member>, k: string, v: Json, j: string)
    ensures Find(Put(ms, k, v), j) == if j == k then Some(v) else Find(ms, j)
  {
    if ms != [] && ms[0].0 != k {
      FindPut(ms[1..], k, v, j);
    }
  }

  /** Storing back the value a key already has changes nothing. */
  lemma {:induction false} PutSame(ms: seq<Member>, k: string)
    requires Find(ms, k).Some?
    ensures Put(ms, k, Find(ms, k).value) == ms
  {
    if ms[0].0 != k {
      PutSame(ms[1..], k);
    }
  }

  lemma {:induction false} FindEntries(from: seq<Member>, ks: seq<string>, k: string)
    ensures Find(Entries(from, ks), k) == if k in ks then Some(ValueAt(from, k)) else None
  {
    if ks != [] {
      assert Entries(from, ks)[1..] == Entries(from, ks[1..]);
      FindEntries(from, ks[1..], k);
    }
  }

  lemma {:induction false} WithoutEntries(from: seq<Member>, ks: seq<string>, drop: set<string>)
    requires forall k :: k in ks ==> k !in drop
    ensures Without(Entries(from, ks), drop) == Entries(from, ks)
  {
    WithoutNothing(Entries(from, ks), drop);
  }

  lemma EntriesAppend(from: seq<Member>, ks: seq<string>, k: string)
    ensures Entries(from, ks + [k]) == Entries(from, ks) + [(k, ValueAt(from, k))]
  {
  }

  /** A `Remove` followed by an indexer assignment appends the key at the end. */
  lemma RemoveThenPut(ms: seq<Member>, k: string, v: Json)
    ensures Put(Without(ms, {k}), k, v) == Without(ms, {k}) + [(k, v)]
  {
    WithoutKeys(ms, {k});
  }

  /** A mutable JSON object (`JsonObject` / `JObject`): its member list is
      changed in place by `Remove` and by indexer assignment. */
  class ObjectNode {
    var members: seq<Member>

    constructor (ms: seq<Member>)
      ensures members == ms
    {
      members := ms;
    }

    /** `node.Remove(k)`: drops the member with key `k`, if any. */
    method Remove(k: string)
      modifies this
      ensures members == Without(old(members), {k})
      ensures k !in Keys(members)
    {
      members := Without(members, {k});
      WithoutKeys(old(members), {k});
    }

    /** `node[k] = v`. */
    method Set(k: string, v: Json)
      modifies this
      ensures members == Put(old(members), k, v)
      ensures Find(members, k) == Some(v)
    {
      members := Put(members, k, v);
      FindPut(old(members), k, v, k);
    }
  }
}
