/** What holds of a hash map after any sequence of puts and deletes. */
module HashMapRuns {
  import opened Slots
  import opened HashCost
  import opened HashMaps

  datatype Call<K, V> = CallPut(key: K, value: V) | CallDelete(key: K)

  function AfterCall<K(==), V>(s: Entries<K, V>, call: Call<K, V>): Entries<K, V> {
    match call
    case CallPut(k, v) => AfterPut(s, k, v)
    case CallDelete(k) => AfterDelete(s, k)
  }

  /** The element array after a run of calls on a new map. */
  function AfterCalls<K(==), V>(calls: seq<Call<K, V>>): Entries<K, V> {
    if calls == [] then [] else AfterCall(AfterCalls(calls[..|calls| - 1]), calls[|calls| - 1])
  }

  /** The last call that concerns a key, if any. */
  function LastCall<K(==), V>(calls: seq<Call<K, V>>, key: K): (i: int)
    ensures -1 <= i < |calls|
    ensures i >= 0 ==> calls[i].key == key
    ensures forall j :: i < j < |calls| ==> calls[j].key != key
  {
    if calls == [] then -1
    else if calls[|calls| - 1].key == key then |calls| - 1
    else LastCall(calls[..|calls| - 1], key)
  }

  /** What a lookup of `key` finds. */
  function Lookup<K(==), V>(s: Entries<K, V>, key: K): seq<V> {
    var i := IndexOf(s, key);
    if i >= 0 then [s[i].value] else []
  }

  lemma PutLookup<K, V>(s: Entries<K, V>, k: K, v: V, key: K)
    requires Distinct(s)
    ensures Distinct(AfterPut(s, k, v))
    ensures Lookup(AfterPut(s, k, v), key) == if key == k then [v] else Lookup(s, key)
  {
    hide IndexOf;
    PutDistinct(s, k, v);
    hide Distinct;
    var s' := AfterPut(s, k, v);
    var i := IndexOf(s, key);
    if key == k {
      IndexIsUnique(s', k, if i >= 0 then i else |s|);
    } else if i >= 0 {
      assert s'[i].key == key;
      IndexIsUnique(s', key, i);
    } else {
      assert forall j :: 0 <= j < |s'| ==> s'[j].key == k || s'[j] == s[j];
    }
  }

  lemma PutDistinct<K, V>(s: Entries<K, V>, k: K, v: V)
    requires Distinct(s)
    ensures Distinct(AfterPut(s, k, v))
  {
    hide IndexOf;
  }

  lemma DeleteLookup<K, V>(s: Entries<K, V>, k: K, key: K)
    requires Distinct(s)
    ensures Distinct(AfterDelete(s, k))
    ensures Lookup(AfterDelete(s, k), key) == if key == k then [] else Lookup(s, key)
  {
    hide IndexOf;
    var d := IndexOf(s, k);
    if d >= 0 {
      DeleteDistinct(s, d);
      var s', f := AfterDelete(s, k), |s| - 1;
      var i := IndexOf(s, key);
      if key != k && i >= 0 {
        IndexIsUnique(s', key, if i == f then d else i);
      } else {
        assert forall j :: 0 <= j < |s'| ==> s'[j] == if j == d then s[f] else s[j];
      }
    }
  }

  /** The map remembers exactly the last put of each key: after any run of calls, whatever the hash
      function, a lookup finds the value of the last put that no delete of the key follows. */
  lemma {:induction false} LookupFindsLastPut<K, V>(calls: seq<Call<K, V>>, key: K)
    ensures Distinct(AfterCalls(calls))
    ensures var i := LastCall(calls, key);
            Lookup(AfterCalls(calls), key) == if i >= 0 && calls[i].CallPut? then [calls[i].value] else []
  {
    if calls != [] {
      var before := calls[..|calls| - 1];
      LookupFindsLastPut(before, key);
      match calls[|calls| - 1] {
        case CallPut(k, v) => PutLookup(AfterCalls(before), k, v, key);
        case CallDelete(k) => DeleteLookup(AfterCalls(before), k, key);
      }
    }
  }

  function FirstPut<K(==), V>(calls: seq<Call<K, V>>, key: K): (i: nat)
    ensures i <= |calls|
    ensures i < |calls| ==> calls[i].CallPut? && calls[i].key == key
    ensures forall j :: 0 <= j < i ==> !(calls[j].CallPut? && calls[j].key == key)
  {
    if calls == [] then 0
    else if calls[0].CallPut? && calls[0].key == key then 0
    else 1 + FirstPut(calls[1..], key)
  }

  /** Every element's key was put, and elements are in the order of the first puts of their keys. */
  ghost predicate InPutOrder<K, V>(calls: seq<Call<K, V>>, s: Entries<K, V>) {
    && (forall i :: 0 <= i < |s| ==> FirstPut(calls, s[i].key) < |calls|)
    && (forall i, j :: 0 <= i < j < |s| ==> FirstPut(calls, s[i].key) < FirstPut(calls, s[j].key))
  }

  /** Without deletes, keys sit in the order of their first put. */
  lemma {:induction false} InsertionOrder<K, V>(calls: seq<Call<K, V>>)
    requires forall c :: c in calls ==> c.CallPut?
    ensures InPutOrder(calls, AfterCalls(calls))
  {
    if calls != [] {
      hide FirstPut, LastCall, IndexOf;
      var before := calls[..|calls| - 1];
      InsertionOrder(before);
      NextPutKeepsOrder(calls, AfterCalls(before));
    }
  }

  lemma NextPutKeepsOrder<K, V>(calls: seq<Call<K, V>>, s: Entries<K, V>)
    requires calls != [] && forall c :: c in calls ==> c.CallPut?
    requires s == AfterCalls(calls[..|calls| - 1]) && InPutOrder(calls[..|calls| - 1], s)
    ensures InPutOrder(calls, AfterCall(s, calls[|calls| - 1]))
  {
    hide FirstPut, LastCall, AfterCalls;
    var last := calls[|calls| - 1];
    assert last in calls;
    PrefixKeepsOrder(calls, s);
    if IndexOf(s, last.key) == -1 {
      AbsentMeansUntouched(calls[..|calls| - 1], last.key);
      FirstPutIsLast(calls);
    }
  }

  lemma PrefixKeepsOrder<K, V>(calls: seq<Call<K, V>>, s: Entries<K, V>)
    requires calls != [] && InPutOrder(calls[..|calls| - 1], s)
    ensures InPutOrder(calls, s)
    ensures forall i :: 0 <= i < |s| ==> FirstPut(calls, s[i].key) < |calls| - 1
  {
    hide FirstPut;
    var before := calls[..|calls| - 1];
    forall i | 0 <= i < |s| ensures FirstPut(calls, s[i].key) == FirstPut(before, s[i].key) {
      FirstPutOfPrefix(calls, |calls| - 1, s[i].key);
    }
  }

  lemma AbsentMeansUntouched<K, V>(calls: seq<Call<K, V>>, key: K)
    requires forall c :: c in calls ==> c.CallPut?
    requires IndexOf(AfterCalls(calls), key) == -1
    ensures LastCall(calls, key) == -1
  {
    LookupFindsLastPut(calls, key);
    forall j | 0 <= j < |calls| ensures calls[j].CallPut? {
      assert calls[j] in calls;
    }
  }

  lemma FirstPutOfPrefix<K, V>(calls: seq<Call<K, V>>, n: nat, key: K)
    requires n <= |calls| && FirstPut(calls[..n], key) < n
    ensures FirstPut(calls, key) == FirstPut(calls[..n], key)
  {
    var i, j := FirstPut(calls, key), FirstPut(calls[..n], key);
    assert calls[..n][j] == calls[j];
    assert i < n ==> calls[..n][i] == calls[i];
  }

  lemma FirstPutIsLast<K, V>(calls: seq<Call<K, V>>)
    requires calls != [] && forall c :: c in calls ==> c.CallPut?
    requires LastCall(calls[..|calls| - 1], calls[|calls| - 1].key) == -1
    ensures FirstPut(calls, calls[|calls| - 1].key) == |calls| - 1
  {
    var last := |calls| - 1;
    assert calls[last].CallPut?;
    assert forall j :: 0 <= j < last ==> calls[..last][j].key != calls[last].key;
    assert forall j :: 0 <= j < last ==> calls[..last][j] == calls[j];
  }

  method Apply<K(==), V>(m: HashMap<K, V>, call: Call<K, V>) returns (ghost op: Operation)
    requires m.Valid()
    modifies m.Repr()
    ensures m.Valid() && fresh(m.Repr() - old(m.Repr()))
    ensures m.elems == AfterCall(old(m.elems), call)
    ensures var e := OperationEffect(old(m.CurrentSizes()), op);
            m.CurrentSizes() == e.sizes && m.work == old(m.work) + e.work
  {
    match call
    case CallPut(k, v) =>
      ghost var isNew := IndexOf(m.elems, k) == -1;
      var i, reused := m.Put(k, v);
      op := Put(isNew, reused);
    case CallDelete(k) =>
      var deleted := m.Delete(k);
      op := Delete(deleted);
  }

  /** The map is in the state, and has done the work, of the operations `ops` on a new map. */
  ghost predicate Did<K, V>(m: HashMap<K, V>, ops: seq<Operation>)
    reads m, m.table
  {
    RunEffect(Sizes(0, 0, 0, 0), ops) == Effect(m.CurrentSizes(), m.work)
  }

  method ApplyNext<K(==), V>(m: HashMap<K, V>, call: Call<K, V>, ghost ops: seq<Operation>)
    returns (ghost ops': seq<Operation>)
    requires m.Valid() && Did(m, ops)
    modifies m.Repr()
    ensures m.Valid() && fresh(m.Repr() - old(m.Repr()))
    ensures m.elems == AfterCall(old(m.elems), call)
    ensures |ops'| == |ops| + 1 && Did(m, ops')
  {
    ghost var op := Apply(m, call);
    RunExtend(Sizes(0, 0, 0, 0), ops, op);
    ops' := ops + [op];
  }

  /** Any run of calls on a new map, with any hash function: the element array is what the calls
      describe, and the work done is at most a constant for each call. */
  method Replay<K(==), V>(hashOf: K -> nat, calls: seq<Call<K, V>>)
    returns (m: HashMap<K, V>, ghost ops: seq<Operation>)
    ensures fresh(m.Repr()) && m.Valid()
    ensures m.elems == AfterCalls(calls)
    ensures |ops| == |calls| && Did(m, ops) && m.work <= 36 * (|calls| + 1)
    ensures m.table != null ==> m.table.slotCount <= 8 || m.table.slotCount <= 4 * |m.elems| + 3
    decreases |calls|
  {
    if calls == [] {
      m := new HashMap<K, V>(hashOf);
      ops := [];
    } else {
      m, ops := Replay(hashOf, calls[..|calls| - 1]);
      ops := ApplyNext(m, calls[|calls| - 1], ops);
    }
    AmortisedConstant(ops);
  }

  lemma {:induction false} RunExtend(s: Sizes, ops: seq<Operation>, op: Operation)
    ensures var e := RunEffect(s, ops);
            var e' := OperationEffect(e.sizes, op);
            RunEffect(s, ops + [op]) == Effect(e'.sizes, e.work + e'.work)
    decreases |ops|
  {
    if ops == [] {
    } else {
      assert (ops + [op])[1..] == ops[1..] + [op];
      RunExtend(OperationEffect(s, ops[0]).sizes, ops[1..], op);
    }
  }
}
