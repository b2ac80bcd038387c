/** The timeout table as a state machine over its operations. */
module Deadlines {

  /** Deadlines are stored in 32 bits, and compared with as many bits of the index. */
  const U32: nat := 0x1_0000_0000

  datatype Entry<I> = Entry(deadline: nat, info: I)

  datatype Table<K, I> = Table(index: nat, entries: map<K, Entry<I>>)

  datatype Op<K, I> =
    | Add(key: K, periods: nat, info: I)
    | Remove(key: K)
    | Tick
    | ExpireAll

  /** No entry is overdue. */
  ghost predicate Current<K, I>(t: Table<K, I>) {
    forall k :: k in t.entries ==> t.entries[k].deadline >= t.index
  }

  /** The entries that go off at a tick. */
  function Due<K, I>(t: Table<K, I>): map<K, Entry<I>> {
    map k | k in t.entries && t.entries[k].deadline == t.index % U32 :: t.entries[k]
  }

  /** The entries handed to the handler by one operation. */
  function Fired<K, I>(t: Table<K, I>, op: Op<K, I>): map<K, Entry<I>> {
    match op
    case Tick => Due(t)
    case ExpireAll => t.entries
    case _ => map[]
  }

  /** The table after one operation. An entry is added only under a fresh key. */
  function Next<K, I>(t: Table<K, I>, op: Op<K, I>): Table<K, I> {
    match op
    case Add(k, periods, info) =>
      if k in t.entries then t else t.(entries := t.entries[k := Entry((t.index + periods) % U32, info)])
    case Remove(k) => t.(entries := t.entries - {k})
    case Tick => Table(t.index + 1, t.entries - Due(t).Keys)
    case ExpireAll => Table(0, map[])
  }

  function Run<K, I>(t: Table<K, I>, ops: seq<Op<K, I>>): Table<K, I>
    decreases |ops|
  {
    if ops == [] then t else Run(Next(t, ops[0]), ops[1..])
  }

  /** How often a run fires a key. */
  function Firings<K, I>(t: Table<K, I>, ops: seq<Op<K, I>>, k: K): nat
    decreases |ops|
  {
    if ops == [] then 0
    else (if k in Fired(t, ops[0]) then 1 else 0) + Firings(Next(t, ops[0]), ops[1..], k)
  }

  function Ticks<K, I>(ops: seq<Op<K, I>>): nat {
    if ops == [] then 0 else (if ops[0].Tick? then 1 else 0) + Ticks(ops[1..])
  }

  /** The run leaves a key alone: it is neither removed nor added again, and nothing is flushed. */
  ghost predicate LeavesAlone<K, I>(ops: seq<Op<K, I>>, k: K) {
    forall i :: 0 <= i < |ops| ==>
      !ops[i].ExpireAll? && (ops[i].Remove? ==> ops[i].key != k) && (ops[i].Add? ==> ops[i].key != k)
  }

  /** One operation leaves an entry overdue exactly if it adds one under a fresh key whose deadline does
      not fit. */
  lemma CurrentStays<K, I>(t: Table<K, I>, op: Op<K, I>)
    requires forall k :: k in t.entries ==> t.index % U32 == t.index <= t.entries[k].deadline < U32
    ensures Current(Next(t, op)) <==>
            (op.Add? && op.key !in t.entries ==> (t.index + op.periods) % U32 >= t.index)
  {
    if op.Add? && op.key !in t.entries {
      assert op.key in Next(t, op).entries;
    }
  }

  /** No deadline of the run leaves 32 bits. */
  ghost predicate Fit<K, I>(t: Table<K, I>, ops: seq<Op<K, I>>)
    decreases |ops|
  {
    ops != [] ==> (ops[0].Add? ==> t.index + ops[0].periods < U32) && Fit(Next(t, ops[0]), ops[1..])
  }

  ghost predicate Stored<K, I>(t: Table<K, I>) {
    forall k :: k in t.entries ==> t.entries[k].deadline < U32
  }

  /** A run whose deadlines fit never holds an overdue entry. */
  lemma {:induction false} CurrentAlways<K, I>(t: Table<K, I>, ops: seq<Op<K, I>>)
    requires Current(t) && Stored(t) && Fit(t, ops)
    ensures Current(Run(t, ops))
    decreases |ops|
  {
    if ops != [] {
      CurrentAlways(Next(t, ops[0]), ops[1..]);
    }
  }

  /** How often a run stores an entry under a key, and how often it removes one. */
  function Additions<K, I>(t: Table<K, I>, ops: seq<Op<K, I>>, k: K): nat
    decreases |ops|
  {
    if ops == [] then 0
    else (if ops[0].Add? && ops[0].key == k && k !in t.entries then 1 else 0) + Additions(Next(t, ops[0]), ops[1..], k)
  }

  function Removals<K, I>(t: Table<K, I>, ops: seq<Op<K, I>>, k: K): nat
    decreases |ops|
  {
    if ops == [] then 0
    else (if ops[0].Remove? && ops[0].key == k && k in t.entries then 1 else 0) + Removals(Next(t, ops[0]), ops[1..], k)
  }

  function Held<K, I>(t: Table<K, I>, k: K): nat {
    if k in t.entries then 1 else 0
  }

  /** Whatever the run, flushes and second additions included: every entry that was there or was stored
      has fired once, was removed once, or is still there. */
  lemma {:induction false} EveryEntryEndsOnce<K, I>(t: Table<K, I>, ops: seq<Op<K, I>>, k: K)
    ensures Held(t, k) + Additions(t, ops, k) == Firings(t, ops, k) + Removals(t, ops, k) + Held(Run(t, ops), k)
    decreases |ops|
  {
    if ops != [] {
      EveryEntryEndsOnce(Next(t, ops[0]), ops[1..], k);
    }
  }

  /** A key that is not there does not fire. */
  lemma {:induction false} AbsentIsSilent<K, I>(t: Table<K, I>, ops: seq<Op<K, I>>, k: K)
    requires k !in t.entries && LeavesAlone(ops, k)
    ensures Firings(t, ops, k) == 0 && k !in Run(t, ops).entries
    decreases |ops|
  {
    if ops != [] {
      assert LeavesAlone(ops[1..], k);
      AbsentIsSilent(Next(t, ops[0]), ops[1..], k);
    }
  }

  /** An entry that is due in `left` periods fires once, at the tick after those, and is gone then. */
  lemma {:induction false} FiresInTime<K, I>(t: Table<K, I>, ops: seq<Op<K, I>>, k: K, left: nat)
    requires k in t.entries && t.entries[k].deadline == (t.index + left) % U32 && left < U32 && LeavesAlone(ops, k)
    ensures Firings(t, ops, k) == if Ticks(ops) > left then 1 else 0
    ensures k in Run(t, ops).entries <==> Ticks(ops) <= left
    ensures k in Run(t, ops).entries ==> Run(t, ops).entries[k] == t.entries[k]
    decreases |ops|
  {
    if ops != [] {
      var op, rest := ops[0], ops[1..];
      assert LeavesAlone(rest, k);
      DueIsNow(t.index, left);
      if op.Tick? && left == 0 {
        AbsentIsSilent(Next(t, op), rest, k);
      } else {
        FiresInTime(Next(t, op), rest, k, if op.Tick? then left - 1 else left);
      }
    }
  }

  /** Until it is due an entry stays as it is, even if its key is added again, unless it is removed or the
      table is flushed. */
  lemma {:induction false} KeptUntilDue<K, I>(t: Table<K, I>, ops: seq<Op<K, I>>, k: K, left: nat)
    requires k in t.entries && t.entries[k].deadline == (t.index + left) % U32 && left < U32 && Ticks(ops) <= left
    requires forall i :: 0 <= i < |ops| ==> !ops[i].ExpireAll? && (ops[i].Remove? ==> ops[i].key != k)
    ensures k in Run(t, ops).entries && Run(t, ops).entries[k] == t.entries[k] && Firings(t, ops, k) == 0
    decreases |ops|
  {
    if ops != [] {
      DueIsNow(t.index, left);
      KeptUntilDue(Next(t, ops[0]), ops[1..], k, if ops[0].Tick? then left - 1 else left);
    }
  }

  lemma DueIsNow(index: nat, left: nat)
    requires left < U32
    ensures (index + left) % U32 == index % U32 <==> left == 0
  {}

  /** An entry added under a fresh key for `periods` periods fires exactly once, on the tick numbered
      `periods + 1` after that, if the run leaves it alone; of a longer time only 32 bits count. */
  lemma AddedFiresOnce<K, I>(t: Table<K, I>, k: K, periods: nat, info: I, ops: seq<Op<K, I>>)
    requires k !in t.entries && LeavesAlone(ops, k)
    ensures var added := Next(t, Add(k, periods, info));
            && Firings(added, ops, k) == (if Ticks(ops) > periods % U32 then 1 else 0)
            && (k in Run(added, ops).entries <==> Ticks(ops) <= periods % U32)
  {
    assert (t.index + periods) % U32 == (t.index + periods % U32) % U32;
    FiresInTime(Next(t, Add(k, periods, info)), ops, k, periods % U32);
  }

  /** A removed key does not fire. */
  lemma RemovedIsSilent<K, I>(t: Table<K, I>, k: K, ops: seq<Op<K, I>>)
    requires LeavesAlone(ops, k)
    ensures Firings(Next(t, Remove(k)), ops, k) == 0
  {
    AbsentIsSilent(Next(t, Remove(k)), ops, k);
  }
}

/** The timeout table as the code keeps it. */
module Expirators {
  import opened Deadlines

  datatype Option<+T> = None | Some(value: T)

  class Expirator<K(==), I> {
    const period: nat
    var index: nat
    var indexKeys: map<K, Entry<I>>

    ghost function State(): Table<K, I>
      reads this
    {
      Table(index, indexKeys)
    }

    constructor (period: nat)
      requires period > 0
      ensures this.period == period && State() == Table(0, map[])
    {
      this.period := period;
      index, indexKeys := 0, map[];
    }

    /** Adds an entry; the time to live is given in the unit of the period. */
    method AddEntry(key: K, expiration: nat, info: I)
      requires period > 0
      modifies this
      ensures State() == Next(old(State()), Add(key, expiration / period, info))
      ensures key in old(indexKeys) ==> indexKeys == old(indexKeys)
      ensures key !in old(indexKeys) ==>
                indexKeys == old(indexKeys)[key := Entry((old(index) + expiration / period) % 0x1_0000_0000, info)]
    {
      if key !in indexKeys {
        indexKeys := indexKeys[key := Entry((index + expiration / period) % U32, info)];
      }
    }

    method GetInfo(key: K) returns (r: Option<I>)
      ensures r == if key in State().entries then Some(State().entries[key].info) else None
    {
      r := if key in indexKeys then Some(indexKeys[key].info) else None;
    }

    method RemoveEntry(key: K) returns (r: bool)
      modifies this
      ensures State() == Next(old(State()), Remove(key)) && (r <==> key in old(indexKeys))
      ensures index == old(index) && indexKeys == old(indexKeys) - {key}
    {
      r := key in indexKeys;
      indexKeys := indexKeys - {key};
    }

    /** Calls the handler for every entry of a table once. */
    method CallHandler(entries: map<K, Entry<I>>) returns (calls: seq<(K, I)>)
      ensures |calls| == |entries|
      ensures forall i, j :: 0 <= i < j < |calls| ==> calls[i].0 != calls[j].0
      ensures forall i :: 0 <= i < |calls| ==> calls[i].0 in entries && calls[i].1 == entries[calls[i].0].info
    {
      calls := [];
      var todo := entries.Keys;
      while todo != {}
        invariant todo <= entries.Keys && |calls| + |todo| == |entries.Keys|
        invariant forall i, j :: 0 <= i < j < |calls| ==> calls[i].0 != calls[j].0
        invariant forall i :: 0 <= i < |calls| ==>
                    calls[i].0 in entries && calls[i].0 !in todo && calls[i].1 == entries[calls[i].0].info
        decreases |todo|
      {
        var k :| k in todo;
        calls := calls + [(k, entries[k].info)];
        todo := todo - {k};
      }
    }

    /** One period has passed. */
    method OnTimer() returns (calls: seq<(K, I)>)
      modifies this
      ensures State() == Next(old(State()), Tick) && index == old(index) + 1
      ensures forall k :: k in indexKeys <==> k in old(indexKeys) && old(indexKeys)[k].deadline != old(index) % 0x1_0000_0000
      ensures forall k :: k in indexKeys ==> indexKeys[k] == old(indexKeys)[k]
      ensures |calls| == |Fired(old(State()), Tick)|
      ensures forall i, j :: 0 <= i < j < |calls| ==> calls[i].0 != calls[j].0
      ensures forall i :: 0 <= i < |calls| ==> calls[i].0 in Fired(old(State()), Tick) &&
                                               calls[i].1 == Fired(old(State()), Tick)[calls[i].0].info
    {
      var range := map k | k in indexKeys && indexKeys[k].deadline == index % U32 :: indexKeys[k];
      assert range == Due(State());
      calls := CallHandler(range);
      indexKeys := indexKeys - range.Keys;
      index := index + 1;
    }

    /** Flushes the table. */
    method Flush() returns (calls: seq<(K, I)>)
      modifies this
      ensures State() == Next(old(State()), ExpireAll) && index == 0 && indexKeys == map[]
      ensures |calls| == |Fired(old(State()), ExpireAll)|
      ensures forall i, j :: 0 <= i < j < |calls| ==> calls[i].0 != calls[j].0
      ensures forall i :: 0 <= i < |calls| ==> calls[i].0 in Fired(old(State()), ExpireAll) &&
                                               calls[i].1 == Fired(old(State()), ExpireAll)[calls[i].0].info
    {
      calls := CallHandler(indexKeys);
      indexKeys := map[];
      index := 0;
    }
  }
}
