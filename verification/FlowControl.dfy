/** Sums, 32-bit arithmetic and counting over ascending logs. */
module Arithmetic {

  const U32 := 0x1_0000_0000

  /** What an unsigned 32-bit variable keeps of a value. */
  function Wrap(x: int): nat { x % U32 }

  lemma WrapSmall(x: int)
    ensures Wrap(x) < U32
  {}

  /** A value survives exactly when it fits 32 bits; otherwise it shrinks. */
  lemma WrapKeeps(x: nat)
    ensures Wrap(x) <= x && (Wrap(x) == x <==> x < 0x1_0000_0000)
  {}

  lemma WrapShift(x: int, k: int)
    ensures Wrap(x + U32 * k) == Wrap(x)
  {
    var q, r := x / U32, Wrap(x);
    assert x + U32 * k == U32 * (q + k) + r;
  }

  /** It does not matter when a sum is wrapped. */
  lemma WrapAdd(a: int, x: int)
    ensures Wrap(Wrap(a) + x) == Wrap(a + x) && Wrap(a + Wrap(x)) == Wrap(a + x)
  {
    var k, l := a / U32, x / U32;
    assert Wrap(a) + x == a + x + U32 * (-k) && a + Wrap(x) == a + x + U32 * (-l);
    WrapShift(a + x, -k);
    WrapShift(a + x, -l);
  }

  function Sum(s: seq<nat>): nat {
    if s == [] then 0 else s[0] + Sum(s[1..])
  }

  lemma SumHead(s: seq<nat>)
    requires s != []
    ensures Sum(s) == s[0] + Sum(s[1..])
  {}

  lemma {:induction false} SumUpdate(s: seq<nat>, i: nat, v: nat)
    requires i < |s|
    ensures Sum(s[i := v]) == Sum(s) - s[i] + v
  {
    if i == 0 {
      assert s[i := v][1..] == s[1..];
    } else {
      SumUpdate(s[1..], i - 1, v);
      assert s[i := v][1..] == s[1..][i - 1 := v];
    }
  }

  lemma {:induction false} SumAtLeast(s: seq<nat>, i: nat)
    requires i < |s|
    ensures s[i] <= Sum(s)
  {
    if i > 0 {
      SumAtLeast(s[1..], i - 1);
    }
  }

  lemma {:induction false} SumAllSame(s: seq<nat>, v: nat)
    requires forall i :: 0 <= i < |s| ==> s[i] == v
    ensures Sum(s) == v * |s|
  {
    if s != [] {
      SumAllSame(s[1..], v);
      assert v * |s| == v + v * (|s| - 1);
    }
  }

  lemma {:induction false} SumAtMost(s: seq<nat>, v: nat)
    requires forall i :: 0 <= i < |s| ==> s[i] <= v
    ensures Sum(s) <= v * |s|
  {
    if s != [] {
      SumAtMost(s[1..], v);
      assert v * |s| == v + v * (|s| - 1);
    }
  }

  ghost predicate Sorted(s: seq<nat>) {
    forall i, j :: 0 <= i <= j < |s| ==> s[i] <= s[j]
  }

  /** How many entries lie between `lo` and `hi`. */
  ghost function CountWithin(s: seq<nat>, lo: nat, hi: nat): nat {
    if s == [] then 0
    else CountWithin(s[..|s| - 1], lo, hi) + (if lo <= s[|s| - 1] <= hi then 1 else 0)
  }

  lemma CountAppend(s: seq<nat>, v: nat, lo: nat, hi: nat)
    ensures CountWithin(s + [v], lo, hi) == CountWithin(s, lo, hi) + (if lo <= v <= hi then 1 else 0)
  {
    assert (s + [v])[..|s|] == s;
  }

  lemma {:induction false} CountNone(s: seq<nat>, lo: nat, hi: nat)
    requires forall i :: 0 <= i < |s| ==> s[i] < lo
    ensures CountWithin(s, lo, hi) == 0
  {
    if s != [] {
      CountNone(s[..|s| - 1], lo, hi);
    }
  }

  lemma {:induction false} CountMember(s: seq<nat>, i: nat, lo: nat, hi: nat)
    requires i < |s| && lo <= s[i] <= hi
    ensures CountWithin(s, lo, hi) >= 1
  {
    if i < |s| - 1 {
      CountMember(s[..|s| - 1], i, lo, hi);
    }
  }

  /** In an ascending log the entries of an interval stand together. */
  lemma {:induction false} CountIsSpan(s: seq<nat>, lo: nat, hi: nat) returns (i: nat, j: nat)
    requires Sorted(s) && CountWithin(s, lo, hi) > 0
    ensures i <= j < |s| && lo <= s[i] && s[j] <= hi && CountWithin(s, lo, hi) == j - i + 1
  {
    var init := s[..|s| - 1];
    if CountWithin(init, lo, hi) == 0 {
      i, j := |s| - 1, |s| - 1;
    } else {
      i, j := CountIsSpan(init, lo, hi);
      if lo <= s[|s| - 1] <= hi {
        if j < |init| - 1 {
          CountMisses(init, lo, hi, i, j);
        }
        j := |s| - 1;
      }
    }
  }

  /** A counted span cannot stop early while later entries still lie in the interval. */
  lemma {:induction false} CountMisses(s: seq<nat>, lo: nat, hi: nat, i: nat, j: nat)
    requires Sorted(s) && i <= j < |s| && lo <= s[i] && s[|s| - 1] <= hi
    ensures CountWithin(s, lo, hi) >= |s| - i
  {
    if |s| - 1 > i {
      CountMisses(s[..|s| - 1], lo, hi, i, i);
    }
  }
}

/** The buckets of the limited-credit window, read against the turn in which each packet was counted. */
module Buckets {
  import opened Arithmetic

  const SECOND: nat := 1_000_000

  /** The buckets after `k` seconds: the oldest ones leave, empty ones enter. */
  function Turned(buckets: seq<nat>, k: nat): seq<nat> {
    if k == 0 then buckets
    else var b := Turned(buckets, k - 1); if b == [] then [] else b[1..] + [0]
  }

  /** After `k` turns the bucket at `i` is the one that was `k` places further on, or a new one. */
  lemma {:induction false} TurnedAt(buckets: seq<nat>, k: nat, i: nat)
    requires i < |buckets|
    ensures |Turned(buckets, k)| == |buckets|
    ensures Turned(buckets, k)[i] == if i + k < |buckets| then buckets[i + k] else 0
    decreases k
  {
    if k > 0 {
      TurnedAt(buckets, k - 1, 0);
      if i + 1 < |buckets| {
        TurnedAt(buckets, k - 1, i + 1);
      }
    }
  }

  /** One more packet in the newest bucket. */
  function CountedLast(buckets: seq<nat>): seq<nat>
    requires buckets != []
  {
    buckets[..|buckets| - 1] + [buckets[|buckets| - 1] + 1]
  }

  /** A packet is among the last ones counted by the newest buckets exactly when its turn is recent. */
  ghost predicate Recent(marks: seq<nat>, buckets: seq<nat>, turns: nat) {
    && (forall i :: 0 <= i < |marks| ==> marks[i] <= turns)
    && (forall i, j :: 0 <= i < |marks| && 0 <= j <= |buckets| ==>
          (|marks| - i <= Sum(buckets[j..]) <==> marks[i] + |buckets| > turns + j))
  }

  /** The clock of the buckets runs slower than real time, by less than a second. */
  ghost predicate Drift(admitted: seq<nat>, marks: seq<nat>, turns: nat, last: nat) {
    && |marks| == |admitted|
    && forall i :: 0 <= i < |marks| ==> (turns - marks[i] - 1) * SECOND < last - admitted[i]
  }

  lemma RecentStarts(buckets: seq<nat>, turns: nat)
    ensures Recent([], buckets, turns)
  {}

  lemma {:induction false} SumAppend(s: seq<nat>, v: nat)
    ensures Sum(s + [v]) == Sum(s) + v
  {
    if s == [] {
      assert [v][1..] == [];
    } else {
      assert (s + [v])[1..] == s[1..] + [v];
      SumAppend(s[1..], v);
    }
  }

  lemma RecentTurns(marks: seq<nat>, buckets: seq<nat>, turns: nat)
    requires Recent(marks, buckets, turns) && buckets != []
    ensures Recent(marks, buckets[1..] + [0], turns + 1)
    ensures Sum(buckets[1..] + [0]) == Sum(buckets) - buckets[0]
  {
    hide Sum;
    var next := buckets[1..] + [0];
    forall j | 0 <= j <= |next|
      ensures Sum(next[j..]) == if j < |buckets| then Sum(buckets[j + 1..]) else 0
    {
      if j < |buckets| {
        assert next[j..] == buckets[j + 1..] + [0];
        SumAppend(buckets[j + 1..], 0);
      } else {
        assert next[j..] == [];
        SumAllSame(next[j..], 0);
      }
    }
    assert buckets == [buckets[0]] + buckets[1..] && next[0..] == next;
    SumHead(buckets);
    SumAllSame(buckets[|buckets|..], 0);
    forall i, j | 0 <= i < |marks| && 0 <= j <= |next|
      ensures |marks| - i <= Sum(next[j..]) <==> marks[i] + |next| > turns + 1 + j
    {
      if j < |buckets| {
        assert |marks| - i <= Sum(buckets[j + 1..]) <==> marks[i] + |buckets| > turns + (j + 1);
      }
    }
  }

  lemma RecentCounts(marks: seq<nat>, buckets: seq<nat>, turns: nat)
    requires Recent(marks, buckets, turns) && buckets != []
    ensures Recent(marks + [turns], CountedLast(buckets), turns)
    ensures Sum(CountedLast(buckets)) == Sum(buckets) + 1
  {
    hide Sum;
    var next, n, last := CountedLast(buckets), |buckets|, buckets[|buckets| - 1];
    forall j | 0 <= j <= n ensures Sum(next[j..]) == if j < n then Sum(buckets[j..]) + 1 else 0 {
      if j < n {
        assert buckets[j..] == buckets[j..n - 1] + [last] && next[j..] == buckets[j..n - 1] + [last + 1];
        SumAppend(buckets[j..n - 1], last);
        SumAppend(buckets[j..n - 1], last + 1);
      } else {
        SumAllSame(next[j..], 0);
      }
    }
    assert next[0..] == next && buckets[0..] == buckets;
    SumAllSame(buckets[n..], 0);
    var grown := marks + [turns];
    forall i, j | 0 <= i < |grown| && 0 <= j <= n
      ensures |grown| - i <= Sum(next[j..]) <==> grown[i] + n > turns + j
    {
      if i < |marks| {
        assert |marks| - i <= Sum(buckets[j..]) <==> marks[i] + n > turns + j;
      }
    }
  }

  lemma DriftTurns(admitted: seq<nat>, marks: seq<nat>, turns: nat, last: nat, now: nat, diff: nat)
    requires Drift(admitted, marks, turns, last) && last <= now && diff == (now - last) / SECOND
    ensures Drift(admitted, marks, turns + diff, if diff > 0 then now else last)
  {}

  lemma DriftCounts(admitted: seq<nat>, marks: seq<nat>, turns: nat, last: nat, now: nat)
    requires Drift(admitted, marks, turns, last) && last <= now < last + SECOND
    ensures Drift(admitted + [now], marks + [turns], turns, last)
  {}
}

/** The credit ring read as a queue of seconds, oldest first. */
module CreditQueues {
  import opened Arithmetic

  function Queue(ring: seq<nat>, ind: nat): (q: seq<nat>)
    requires ind < |ring|
    ensures |q| == |ring|
  {
    ring[ind..] + ring[..ind]
  }

  function Advance(ind: nat, n: nat): nat {
    if ind + 1 >= n then 0 else ind + 1
  }

  function Full(n: nat, v: nat): seq<nat> {
    seq(n, _ => v)
  }

  /** Takes a loan out of a queue from its front. */
  function Drain(q: seq<nat>, loan: nat): seq<nat> {
    if q == [] then []
    else if loan > q[0] then [0] + Drain(q[1..], loan - q[0])
    else [q[0] - loan] + q[1..]
  }

  /** The queue after a second with `n` packets: what it left unused enters, or its loan is repaid. */
  function Settled(q: seq<nat>, n: nat, max: nat): seq<nat>
    requires q != []
  {
    if n <= max then q[1..] + [max - n]
    else
      DrainKeeps(q, n - max);
      Drain(q, n - max)[1..] + [0]
  }

  /** The queue when `gap` seconds have passed since one with `n` packets. */
  function Rolled(q: seq<nat>, gap: nat, n: nat, max: nat): seq<nat>
    requires q != [] && gap > 0
  {
    Settled(Idled(q, gap, max), n, max)
  }

  lemma {:induction false} DrainKeeps(q: seq<nat>, loan: nat)
    ensures |Drain(q, loan)| == |q|
    ensures loan <= Sum(q) ==> Sum(Drain(q, loan)) == Sum(q) - loan
  {
    if q != [] && loan > q[0] {
      DrainKeeps(q[1..], loan - q[0]);
    }
  }

  /** A second is only touched when all older ones are used up. */
  lemma {:induction false} DrainOldestFirst(q: seq<nat>, loan: nat, i: nat)
    requires i < |q|
    ensures |Drain(q, loan)| == |q| && Drain(q, loan)[i] <= q[i]
    ensures Drain(q, loan)[i] < q[i] ==> forall j :: 0 <= j < i ==> Drain(q, loan)[j] == 0
  {
    DrainKeeps(q, loan);
    if loan > q[0] && i > 0 {
      DrainOldestFirst(q[1..], loan - q[0], i - 1);
    }
  }

  lemma {:induction false} SumConcat(a: seq<nat>, b: seq<nat>)
    ensures Sum(a + b) == Sum(a) + Sum(b)
  {
    if a == [] {
      assert a + b == b;
    } else {
      assert (a + b)[1..] == a[1..] + b;
      SumConcat(a[1..], b);
    }
  }

  lemma SumQueue(ring: seq<nat>, ind: nat)
    requires ind < |ring|
    ensures Sum(Queue(ring, ind)) == Sum(ring)
  {
    hide Sum;
    SumConcat(ring[ind..], ring[..ind]);
    SumConcat(ring[..ind], ring[ind..]);
    assert ring[..ind] + ring[ind..] == ring;
  }

  /** Writing the current slot and moving on: the oldest second leaves, a new one enters. */
  lemma QueuePush(ring: seq<nat>, ind: nat, v: nat)
    requires ind < |ring|
    ensures Queue(ring[ind := v], Advance(ind, |ring|)) == Queue(ring, ind)[1..] + [v]
    ensures Queue(ring, ind)[0] == ring[ind]
  {}

  /** Writing the slot `s` places further on. */
  lemma QueueSlot(ring: seq<nat>, ind: nat, s: nat, v: nat)
    requires ind < |ring| && s < |ring|
    ensures var slot := if ind + s < |ring| then ind + s else ind + s - |ring|;
            Queue(ring, ind)[s] == ring[slot] && Queue(ring[slot := v], ind) == Queue(ring, ind)[s := v]
  {}

  lemma PushFull(q: seq<nat>, i: nat, v: nat)
    requires i < |q|
    ensures (q[i..] + Full(i, v))[1..] + [v] == q[i + 1..] + Full(i + 1, v)
  {}

  lemma FullStarts(v: nat)
    ensures Full(0, v) == []
  {}

  lemma FullGrows(q: seq<nat>, s: nat)
    requires s < |q| && q[..s] == Full(s, 0)
    ensures q[s := 0][..s + 1] == Full(s + 1, 0) == Full(s, 0) + [0]
  {}

  /** A ring that has been walked round is empty. */
  lemma UsedUp(ring: seq<nat>, ind: nat)
    requires ind < |ring| && Queue(ring, ind)[..|ring|] == Full(|ring|, 0)
    ensures Sum(ring) == 0
  {
    SumQueue(ring, ind);
    assert Queue(ring, ind)[..|ring|] == Queue(ring, ind);
    SumAllSame(Queue(ring, ind), 0);
  }

  /** The queue at the moment of settling: idle seconds count as unused. */
  function Idled(q: seq<nat>, gap: nat, max: nat): (r: seq<nat>)
    requires q != [] && gap > 0
    ensures |r| == |q|
  {
    if gap >= |q| then Full(|q|, max) else q[gap - 1..] + Full(gap - 1, max)
  }

  lemma FullSum(n: nat, v: nat)
    ensures Sum(Full(n, v)) == v * n
  {
    SumAllSame(Full(n, v), v);
  }

  /** Idle seconds add to the ring, and at most `max` each. */
  lemma IdledSum(q: seq<nat>, gap: nat, max: nat)
    requires q != [] && gap > 0 && forall i :: 0 <= i < |q| ==> q[i] <= max
    ensures Sum(q) <= Sum(Idled(q, gap, max))
    ensures gap < |q| ==> Sum(Idled(q, gap, max)) <= Sum(q) + (gap - 1) * max
    ensures gap >= |q| ==> Sum(Idled(q, gap, max)) == max * |q| && Idled(q, gap, max)[0] == max
  {
    hide Sum;
    if gap >= |q| {
      FullSum(|q|, max);
      SumAtMost(q, max);
    } else {
      FullSum(gap - 1, max);
      assert q == q[..gap - 1] + q[gap - 1..];
      SumConcat(q[..gap - 1], q[gap - 1..]);
      SumConcat(q[gap - 1..], Full(gap - 1, max));
      SumAtMost(q[..gap - 1], max);
    }
  }

  /** What settling makes of the sum. */
  lemma SettledSum(q: seq<nat>, n: nat, max: nat)
    requires q != [] && n <= Sum(q) + max
    ensures n <= max ==> Sum(Settled(q, n, max)) == Sum(q) - q[0] + max - n
    ensures n > max ==> Sum(Settled(q, n, max)) <= Sum(q) + max - n
    ensures n > max ==> Sum(Settled(q, n, max)) <= Sum(q) + max - n - (q[0] - (n - max))
  {
    if n <= max {
      SumConcat(q[1..], [max - n]);
      assert [max - n][1..] == [];
    } else {
      var d := Drain(q, n - max);
      DrainKeeps(q, n - max);
      SumConcat(d[1..], [0]);
      assert [0][1..] == [];
      assert Sum(d) == d[0] + Sum(d[1..]);
    }
  }

  /** What an idle window leaves of `w` full seconds when the one before it had `n` packets: a loan that
      does not use up a whole second takes the second with it. */
  function LeftAfterIdle(max: nat, w: nat, n: nat): int {
    if n <= max then max * w - n
    else if n <= 2 * max then max * (w - 1)
    else max * w + max - n
  }

  lemma IdleWindow(q: seq<nat>, gap: nat, n: nat, max: nat)
    requires q != [] && gap >= |q| && n <= max * |q| + max
    ensures Sum(Rolled(q, gap, n, max)) == LeftAfterIdle(max, |q|, n) >= 0
  {
    hide Sum;
    var f := Full(|q|, max);
    FullSum(|q|, max);
    assert f[0] == max && max * |q| == max * (|q| - 1) + max && max * (|q| - 1) >= 0;
    if n <= max {
      SettledSum(f, n, max);
    } else {
      var d := Drain(f, n - max);
      DrainKeeps(f, n - max);
      assert d[0] == if n - max > max then 0 else max - (n - max);
      SumConcat(d[1..], [0]);
      SumSingle(0);
      SumHead(d);
    }
  }

  /** The ring as it stands after `gap` seconds, entry by entry. The seconds before the last one move up by
      `gap`, idle ones are full, and the last one leaves what it did not use. If it took a loan, that is
      taken from the oldest seconds first, and the second that falls out takes its rest along. */
  ghost predicate Booked(q: seq<nat>, r: seq<nat>, gap: nat, n: nat, max: nat)
    requires gap > 0
  {
    var w := |q|;
    && |r| == w > 0
    && (n <= max ==> forall i :: 0 <= i < w ==>
          r[i] == if i == w - 1 then max - n else if i + gap < w then q[i + gap] else max)
    && (n > max ==>
          var oldest := if gap < w then q[gap - 1] else max;
          var all := if gap < w then Sum(q[gap - 1..]) + (gap - 1) * max else w * max;
          && r[w - 1] == 0
          && (forall i :: 0 <= i < w - 1 ==> r[i] <= if i + gap < w then q[i + gap] else max)
          && (forall i, j :: 0 <= j < i < w - 1 && r[j] > 0 ==> r[i] == if i + gap < w then q[i + gap] else max)
          && Sum(r) == all - (if n - max > oldest then n - max else oldest))
  }

  lemma RolledIsBooked(q: seq<nat>, gap: nat, n: nat, max: nat)
    requires q != [] && gap > 0 && n <= Sum(q) + max && forall i :: 0 <= i < |q| ==> q[i] <= max
    ensures Booked(q, Rolled(q, gap, n, max), gap, n, max)
  {
    hide Sum, Settled, Idled, Booked;
    IdledAt(q, gap, max);
    IdledSum(q, gap, max);
    SettledAt(Idled(q, gap, max), n, max);
    if n <= max {
      UnusedBooked(q, Idled(q, gap, max), Rolled(q, gap, n, max), gap, n, max);
    } else {
      LoanBooked(q, Idled(q, gap, max), Rolled(q, gap, n, max), gap, n, max);
    }
  }

  /** Settling moves every second up by one place. */
  lemma SettledAt(e: seq<nat>, n: nat, max: nat)
    requires e != [] && n <= Sum(e) + max
    ensures var r := Settled(e, n, max);
            && |r| == |e|
            && (n <= max ==> forall i :: 0 <= i < |e| ==> r[i] == if i == |e| - 1 then max - n else e[i + 1])
            && (n > max ==> LoanPaid(e, r, n - max))
  {
    hide Sum, Drain;
    if n > max {
      LoanTaken(e, n - max);
    }
  }

  lemma UnusedBooked(q: seq<nat>, e: seq<nat>, r: seq<nat>, gap: nat, n: nat, max: nat)
    requires |q| == |e| == |r| > 0 && gap > 0 && n <= max
    requires forall i :: 0 <= i < |q| ==> e[i] == if gap < |q| && i + gap <= |q| then q[i + gap - 1] else max
    requires forall i :: 0 <= i < |e| ==> r[i] == if i == |e| - 1 then max - n else e[i + 1]
    ensures Booked(q, r, gap, n, max)
  {}

  lemma LoanBooked(q: seq<nat>, e: seq<nat>, r: seq<nat>, gap: nat, n: nat, max: nat)
    requires |q| == |e| == |r| > 0 && gap > 0 && n > max && LoanPaid(e, r, n - max)
    requires forall i :: 0 <= i < |q| ==> e[i] == if gap < |q| && i + gap <= |q| then q[i + gap - 1] else max
    requires Sum(e) == if gap < |q| then Sum(q[gap - 1..]) + (gap - 1) * max else |q| * max
    ensures Booked(q, r, gap, n, max)
  {
    hide Sum;
  }

  lemma IdledAt(q: seq<nat>, gap: nat, max: nat)
    requires q != [] && gap > 0
    ensures |Idled(q, gap, max)| == |q|
    ensures forall i :: 0 <= i < |q| ==>
              Idled(q, gap, max)[i] == if gap < |q| && i + gap <= |q| then q[i + gap - 1] else max
    ensures Sum(Idled(q, gap, max)) ==
            if gap < |q| then Sum(q[gap - 1..]) + (gap - 1) * max else |q| * max
  {
    hide Sum;
    if gap < |q| {
      SumConcat(q[gap - 1..], Full(gap - 1, max));
      FullSum(gap - 1, max);
    } else {
      FullSum(|q|, max);
    }
  }

  /** A loan has been taken from a ring, which then lost its oldest second. */
  ghost predicate LoanPaid(e: seq<nat>, r: seq<nat>, loan: nat) {
    && |r| == |e| > 0 && r[|e| - 1] == 0
    && (forall i :: 0 <= i < |e| - 1 ==> r[i] <= e[i + 1])
    && (forall i, j :: 0 <= j < i < |e| - 1 && r[j] > 0 ==> r[i] == e[i + 1])
    && Sum(r) == Sum(e) - (if loan > e[0] then loan else e[0])
  }

  lemma LoanTaken(e: seq<nat>, loan: nat)
    requires e != [] && loan <= Sum(e)
    ensures |Drain(e, loan)| == |e| && LoanPaid(e, Drain(e, loan)[1..] + [0], loan)
  {
    hide Sum;
    var d := Drain(e, loan);
    DrainKeeps(e, loan);
    assert d[0] == if loan > e[0] then 0 else e[0] - loan;
    SumHead(d);
    SumConcat(d[1..], [0]);
    SumSingle(0);
    hide Drain;
    forall i | 0 <= i < |e| ensures d[i] <= e[i] && (d[i] < e[i] ==> forall j :: 0 <= j < i ==> d[j] == 0) {
      DrainOldestFirst(e, loan, i);
    }
  }

  lemma SumSingle(v: nat)
    ensures Sum([v]) == v
  {}

  /** What a roll can add to the ring: at most one full second for every second that passed. */
  lemma RolledCredit(q: seq<nat>, gap: nat, n: nat, max: nat)
    requires q != [] && gap > 0 && n <= Sum(q) + max
    requires forall i :: 0 <= i < |q| ==> q[i] <= max
    ensures Sum(Rolled(q, gap, n, max)) <= Sum(q) - n + gap * max
    ensures gap >= |q| && n <= max ==> Sum(Rolled(q, gap, n, max)) == max * |q| - n
  {
    hide Sum, Settled, Idled;
    IdledSum(q, gap, max);
    SettledSum(Idled(q, gap, max), n, max);
    if gap >= |q| {
      assert max * |q| <= gap * max by { OrderedProduct(|q|, gap, max); }
    } else {
      assert (gap - 1) * max + max == gap * max;
    }
  }

  lemma OrderedProduct(a: nat, b: nat, m: nat)
    requires a <= b
    ensures m * a <= b * m
  {
    assert (b - a) * m >= 0;
  }

  lemma QueueWithin(ring: seq<nat>, ind: nat, max: nat)
    requires ind < |ring| && forall i :: 0 <= i < |ring| ==> ring[i] <= max
    ensures forall i :: 0 <= i < |ring| ==> Queue(ring, ind)[i] <= max
  {}

  lemma DrainNothing(q: seq<nat>)
    ensures Drain(q, 0) == q
  {}

  /** One step of the loan walk: the second at `s` is used up, or the rest of the loan is taken from it. */
  lemma DrainStep(q: seq<nat>, s: nat, extra: nat)
    requires s < |q| && extra > 0
    ensures extra > q[s] ==> Drain(q[s..], extra) == [0] + Drain(q[s := 0][s + 1..], extra - q[s])
    ensures extra <= q[s] ==> Drain(q[s..], extra) == q[s := q[s] - extra][s..]
  {
    assert q[s := 0][s + 1..] == q[s + 1..] == q[s..][1..];
  }
}

/** What the three limiters promise, stated on their logs. */
module RateBounds {
  import opened Arithmetic
  import opened Buckets

  /** The entries of the sliding log that are not older than a second. */
  function Purge(log: seq<nat>, now: nat): seq<nat> {
    if log == [] || now - log[0] <= SECOND then log else Purge(log[1..], now)
  }

  lemma {:induction false} PurgeIsSuffix(log: seq<nat>, now: nat)
    ensures |Purge(log, now)| <= |log| && Purge(log, now) == log[|log| - |Purge(log, now)|..]
    ensures forall i :: 0 <= i < |log| - |Purge(log, now)| ==> now - log[i] > SECOND
    ensures Purge(log, now) != [] ==> now - Purge(log, now)[0] <= SECOND
  {
    if log != [] && now - log[0] > SECOND {
      PurgeIsSuffix(log[1..], now);
    }
  }

  lemma PurgeStops(log: seq<nat>, now: nat)
    ensures log == [] || now - log[0] <= SECOND ==> Purge(log, now) == log
  {}

  /** A caller that waits longer than it was told to finds room in the log. */
  lemma PromiseKept(log: seq<nat>, max: nat, now: nat, later: nat)
    requires max > 0 && |Purge(log, now)| == max
    requires later > Purge(log, now)[0] + SECOND
    ensures |Purge(Purge(log, now), later)| < max
  {
    var kept := Purge(log, now);
    PurgeIsSuffix(kept[1..], later);
  }

  /** A full log that reaches back a whole second holds `max` recorded admissions of that second. */
  lemma FullSecond(admitted: seq<nat>, log: seq<nat>, max: nat, now: nat)
    requires max > 0 && FixedState(admitted, log, max, now) && |log| == max && now == log[0] + SECOND
    ensures CountWithin(admitted, now - SECOND, now) >= max
  {
    hide Spread;
    var i := |admitted| - |log|;
    assert admitted[i] == log[0];
    CountMisses(admitted, now - SECOND, now, i, |admitted| - 1);
  }

  /** Recorded admissions: any `max + 1` of them in a row span more than a second. */
  ghost predicate Spread(admitted: seq<nat>, max: nat) {
    forall i :: 0 <= i && i + max < |admitted| ==> admitted[i + max] - admitted[i] > SECOND
  }

  /** One more recorded admission, when fewer than `max` are recent. */
  lemma SpreadGrows(admitted: seq<nat>, max: nat, recent: nat, now: nat)
    requires Sorted(admitted) && Spread(admitted, max) && recent < max && recent <= |admitted|
    requires forall i :: 0 <= i < |admitted| ==> admitted[i] <= now
    requires forall i :: 0 <= i < |admitted| - recent ==> now - admitted[i] > SECOND
    ensures Sorted(admitted + [now]) && Spread(admitted + [now], max)
  {}

  /** The log is the recent end of all recorded admissions, which are spread out. */
  ghost predicate FixedState(admitted: seq<nat>, log: seq<nat>, max: nat, now: nat) {
    && |log| <= |admitted| && |log| <= max
    && log == admitted[|admitted| - |log|..]
    && Sorted(admitted)
    && (forall i :: 0 <= i < |admitted| ==> admitted[i] <= now)
    && (forall i :: 0 <= i < |admitted| - |log| ==> now - admitted[i] > SECOND)
    && Spread(admitted, max)
  }

  lemma LogIsPast(admitted: seq<nat>, log: seq<nat>, max: nat, now: nat)
    requires FixedState(admitted, log, max, now)
    ensures forall i :: 0 <= i < |log| ==> log[i] <= now
  {
    assert forall i :: 0 <= i < |log| ==> log[i] == admitted[|admitted| - |log| + i];
  }

  lemma FixedPurged(admitted: seq<nat>, log: seq<nat>, max: nat, before: nat, now: nat)
    requires FixedState(admitted, log, max, before) && before <= now
    ensures FixedState(admitted, Purge(log, now), max, now) && |Purge(log, now)| <= max
    ensures Purge(log, now) != [] ==> now - Purge(log, now)[0] <= SECOND && Purge(log, now)[0] <= now
  {
    hide Sorted, Spread, Purge;
    PurgeIsSuffix(log, now);
    var n, kept := |admitted|, Purge(log, now);
    assert kept == log[|log| - |kept|..] == admitted[n - |kept|..];
    forall i | 0 <= i < n - |kept| ensures now - admitted[i] > SECOND {
      if i >= n - |log| {
        assert admitted[i] == log[i - (n - |log|)];
      }
    }
    if kept != [] {
      assert kept[0] == admitted[n - |kept|];
    }
  }

  lemma FixedPushed(admitted: seq<nat>, log: seq<nat>, max: nat, now: nat)
    requires FixedState(admitted, log, max, now) && |log| < max
    ensures FixedState(admitted + [now], log + [now], max, now)
  {
    hide Sorted, Spread;
    SpreadGrows(admitted, max, |log|, now);
    var n := |admitted|;
    assert (admitted + [now])[n - |log|..] == admitted[n - |log|..] + [now];
  }

  /** Token bucket: admissions `i` to `j` fit into their seconds plus the window. */
  ghost predicate Bucketed(admitted: seq<nat>, window: nat, max: nat) {
    forall i, j :: 0 <= i <= j < |admitted| ==> j - i + 1 <= Allowance(admitted[i], admitted[j], window, max)
  }

  function Allowance(from: int, to: int, window: nat, max: nat): int {
    (to - from + 1 + window) * max
  }

  /** Any span of at most `window - 1` seconds carries at most `limit` admissions. */
  ghost predicate Windowed(admitted: seq<nat>, window: nat, limit: nat) {
    forall i, j :: 0 <= i <= j < |admitted| && admitted[j] - admitted[i] <= (window - 1) * SECOND ==>
                     j - i + 1 <= limit
  }

  /** The sliding log: every interval of one second carries at most `max` recorded admissions. */
  lemma FixedRate(admitted: seq<nat>, max: nat, start: nat)
    requires Sorted(admitted) && Spread(admitted, max)
    ensures CountWithin(admitted, start, start + SECOND) <= max
  {
    if CountWithin(admitted, start, start + SECOND) > max {
      var i, j := CountIsSpan(admitted, start, start + SECOND);
      LongRunIsLong(admitted, max, i, j);
    }
  }

  lemma LongRunIsLong(admitted: seq<nat>, max: nat, i: nat, j: nat)
    requires Sorted(admitted) && Spread(admitted, max) && i + max <= j < |admitted|
    ensures admitted[j] - admitted[i] > SECOND
  {
    assert admitted[i + max] <= admitted[j];
  }

  /** The credit ring: `n` consecutive seconds carry at most `(n + window) * max` admissions. */
  lemma CreditRate(admitted: seq<nat>, window: nat, max: nat, start: nat, n: nat)
    requires n > 0 && Sorted(admitted) && Bucketed(admitted, window, max)
    ensures CountWithin(admitted, start, start + n - 1) <= (n + window) * max
  {
    if CountWithin(admitted, start, start + n - 1) > 0 {
      var i, j := CountIsSpan(admitted, start, start + n - 1);
      assert admitted[i] <= admitted[j];
      var w := admitted[j] - admitted[i] + 1;
      MulOrder(w + window, n + window, max);
    }
  }

  /** The bucketed window: a real-time span of `window - 1` seconds carries at most `limit`. */
  lemma LimitRate(admitted: seq<nat>, window: nat, limit: nat, start: nat)
    requires window > 0 && Sorted(admitted) && Windowed(admitted, window, limit)
    ensures CountWithin(admitted, start, start + (window - 1) * SECOND) <= limit
  {
    if CountWithin(admitted, start, start + (window - 1) * SECOND) > 0 {
      var i, j := CountIsSpan(admitted, start, start + (window - 1) * SECOND);
    }
  }

  /** Past admissions, and what could still be admitted now, keep within the allowance. */
  ghost predicate WithinAllowance(admitted: seq<nat>, last: nat, spare: int, window: nat, max: nat) {
    && Sorted(admitted)
    && (forall i :: 0 <= i < |admitted| ==> admitted[i] <= last)
    && (forall i :: 0 <= i < |admitted| ==> |admitted| - i + spare <= Allowance(admitted[i], last, window, max))
    && Bucketed(admitted, window, max)
  }

  lemma SortedBelow(admitted: seq<nat>, last: nat, now: nat)
    requires last < now
    ensures forall spare: int, window: nat, max: nat ::
              WithinAllowance(admitted, last, spare, window, max) ==>
                forall i :: 0 <= i < |admitted| ==> admitted[i] < now
  {}

  lemma AllowanceGrows(from: int, last: int, now: int, window: nat, max: nat)
    ensures Allowance(from, now, window, max) == Allowance(from, last, window, max) + (now - last) * max
  {
    assert (now - from + 1 + window) * max == (last - from + 1 + window) * max + (now - last) * max;
  }

  /** Time passes: the spare credit grows by at most `max` a second. */
  lemma AllowanceRolls(admitted: seq<nat>, last: nat, spare: int, now: nat, more: int, window: nat, max: nat)
    requires WithinAllowance(admitted, last, spare, window, max) && last <= now
    requires more <= spare + (now - last) * max
    ensures WithinAllowance(admitted, now, more, window, max)
  {
    hide Allowance, Sorted, Bucketed;
    forall i | 0 <= i < |admitted| ensures |admitted| - i + more <= Allowance(admitted[i], now, window, max) {
      AllowanceGrows(admitted[i], last, now, window, max);
    }
  }

  /** One packet is let through. */
  lemma AllowanceSpent(admitted: seq<nat>, now: nat, spare: int, window: nat, max: nat)
    requires WithinAllowance(admitted, now, spare, window, max)
    requires 1 <= spare <= max * window + max
    ensures WithinAllowance(admitted + [now], now, spare - 1, window, max)
  {
    assert Allowance(now, now, window, max) == max * window + max;
    hide Allowance;
  }

  /** An admission that lies at most `window - 1` seconds back was counted by the present buckets. */
  lemma StillCounted(admitted: seq<nat>, marks: seq<nat>, buckets: seq<nat>, turns: nat, last: nat, now: nat, i: nat)
    requires buckets != [] && Recent(marks, buckets, turns) && Drift(admitted, marks, turns, last) && last <= now
    requires i < |admitted| && now - admitted[i] <= (|buckets| - 1) * SECOND
    ensures |admitted| - i <= Sum(buckets)
  {
    hide Sum;
    assert buckets[0..] == buckets;
    assert (turns - marks[i] - 1) * SECOND < (|buckets| - 1) * SECOND;
    assert |marks| - i <= Sum(buckets[0..]) <==> marks[i] + |buckets| > turns + 0;
  }

  /** One more packet in a window that is not full. */
  lemma WindowGrows(admitted: seq<nat>, marks: seq<nat>, buckets: seq<nat>, turns: nat, last: nat, limit: nat, now: nat)
    requires buckets != [] && Recent(marks, buckets, turns) && Drift(admitted, marks, turns, last) && last <= now
    requires Sorted(admitted) && Windowed(admitted, |buckets|, limit) && Sum(buckets) < limit
    requires forall i :: 0 <= i < |admitted| ==> admitted[i] <= now
    ensures Sorted(admitted + [now]) && Windowed(admitted + [now], |buckets|, limit)
  {
    hide Sum, Recent, Drift;
    forall i | 0 <= i < |admitted| && now - admitted[i] <= (|buckets| - 1) * SECOND
      ensures |admitted| - i + 1 <= limit
    {
      StillCounted(admitted, marks, buckets, turns, last, now, i);
    }
  }

  lemma MulOrder(a: int, b: int, m: nat)
    requires a <= b
    ensures a * m <= b * m
  {}
}

module FlowControls {
  import opened Arithmetic
  import opened Buckets
  import opened CreditQueues
  import opened RateBounds

  class FlowControl {
    const maxPacketsPerSecond: nat
    const creditWindowsSize: nat
    const maxSlippage: nat

    // sliding log
    var flowTimesFixed: seq<nat>

    // credit ring
    var availableCredit: nat
    var creditArrInd: nat
    var npackInSec: nat
    var lastSec: nat
    const creditArr: array<nat>

    // bucketed window
    var windowTotalPackets: nat
    var elementsPacketCount: seq<nat>
    var lastTime: nat

    ghost var admitted: seq<nat>  // when packets were recorded: microseconds, or seconds for the ring
    ghost var passed: seq<nat>    // when the sliding log told a caller not to wait
    ghost var unrecorded: seq<nat> // and when it did so without recording anything
    ghost var lead: nat           // how far the credit is ahead of the ring
    ghost var turns: nat          // how often the buckets of the window have been turned
    ghost var marks: seq<nat>     // and the turn in which each packet was counted

    constructor (maxPacketsPerSecond: nat, creditWindowsSize: nat, maxSlippage: nat, started: nat)
      requires maxPacketsPerSecond < U32 && 0 < creditWindowsSize < U32 && maxSlippage < U32
      ensures FixedValid(started) && CreditValid() && LimitValid()
      ensures flowTimesFixed == [] && lastSec == 0 && lastTime == started && admitted == passed == unrecorded == []
      ensures fresh(creditArr)
      ensures this.maxPacketsPerSecond == maxPacketsPerSecond && this.creditWindowsSize == creditWindowsSize
      ensures this.maxSlippage == maxSlippage
    {
      hide Wrap, Sum, Recent;
      this.maxPacketsPerSecond, this.creditWindowsSize, this.maxSlippage :=
        maxPacketsPerSecond, creditWindowsSize, maxSlippage;
      flowTimesFixed := [];
      availableCredit, creditArrInd, npackInSec, lastSec := 0, 0, 0, 0;
      creditArr := new nat[creditWindowsSize](_ => 0);
      windowTotalPackets, lastTime := 0, started;
      elementsPacketCount := seq(creditWindowsSize, _ => 0);
      admitted, passed, unrecorded, marks, turns, lead := [], [], [], [], 0, 0;
      new;
      SumAllSame(elementsPacketCount, 0);
      RecentStarts(elementsPacketCount, 0);
    }

    // ---- sliding log ----

    ghost predicate FixedValid(now: nat)
      reads this
    {
      && FixedState(admitted, flowTimesFixed, maxPacketsPerSecond, now)
      && (forall lo: nat, hi: nat :: CountWithin(passed, lo, hi) ==
                                      CountWithin(admitted, lo, hi) + CountWithin(unrecorded, lo, hi))
      && (forall i :: 0 <= i < |unrecorded| ==> FullBefore(unrecorded[i]))
    }

    /** The second up to `t` was full of recorded packets. */
    ghost predicate FullBefore(t: nat)
      reads this
    {
      t >= SECOND && CountWithin(admitted, t - SECOND, t) >= maxPacketsPerSecond
    }

    /** The rate that a caller would expect to be kept, in the second from `start` on. */
    ghost predicate Kept(start: nat)
      reads this
    {
      CountWithin(passed, start, start + SECOND) <= maxPacketsPerSecond
    }

    /** However the calls came: no second, wherever it starts, holds more than `max` recorded packets. */
    lemma FixedBound(now: nat, start: nat)
      requires FixedValid(now)
      ensures CountWithin(admitted, start, start + 1_000_000) <= maxPacketsPerSecond
    {
      hide CountWithin;
      FixedRate(admitted, maxPacketsPerSecond, start);
    }

    /** Callers are told to go on at most `max` times in every second exactly if no call ever fell on the
        end of a wait: each such call makes the second before it hold one too many. */
    lemma RateKeptIff(now: nat)
      requires FixedValid(now)
      ensures (forall start: nat :: Kept(start)) <==> unrecorded == []
    {
      hide CountWithin;
      if unrecorded == [] {
        forall start: nat ensures Kept(start) {
          PassedBound(now, start);
        }
      } else {
        var t := unrecorded[0];
        assert FullBefore(t);
        CountMember(unrecorded, 0, t - SECOND, t);
        assert CountWithin(passed, t - SECOND, t) > maxPacketsPerSecond;
        assert !Kept(t - SECOND);
      }
    }

    /** How far it is exceeded: by the calls on the end of a wait. */
    lemma PassedBound(now: nat, start: nat)
      requires FixedValid(now)
      ensures CountWithin(passed, start, start + 1_000_000) <=
              maxPacketsPerSecond + CountWithin(unrecorded, start, start + 1_000_000)
      ensures unrecorded == [] ==> CountWithin(passed, start, start + 1_000_000) <= maxPacketsPerSecond
    {
      FixedBound(now, start);
    }

    method RemovePastData(now: nat)
      requires forall i :: 0 <= i < |flowTimesFixed| ==> flowTimesFixed[i] <= now
      modifies this`flowTimesFixed
      ensures flowTimesFixed == Purge(old(flowTimesFixed), now)
    {
      while |flowTimesFixed| > 0 && now - flowTimesFixed[0] > SECOND
        invariant forall i :: 0 <= i < |flowTimesFixed| ==> flowTimesFixed[i] <= now
        invariant Purge(flowTimesFixed, now) == Purge(old(flowTimesFixed), now)
        decreases |flowTimesFixed|
      {
        flowTimesFixed := flowTimesFixed[1..];
      }
    }

    /** One call in the sliding-log mode. The answer is a wait in microseconds. */
    method CheckFixedFlow(ghost before: nat, now: nat) returns (wait: nat)
      requires maxPacketsPerSecond > 0 && before <= now && FixedValid(before)
      modifies this`flowTimesFixed, this`admitted, this`passed, this`unrecorded
      ensures FixedValid(now)
      ensures var kept := Purge(old(flowTimesFixed), now);
              if |kept| < maxPacketsPerSecond
              then wait == 0 && admitted == old(admitted) + [now] && flowTimesFixed == kept + [now]
              else wait == kept[0] + SECOND - now && admitted == old(admitted) && flowTimesFixed == kept
      ensures wait <= 1_000_000
      ensures wait == 0 <==> admitted != old(admitted) ||
                             now == Purge(old(flowTimesFixed), now)[0] + SECOND
      ensures passed == if wait == 0 then old(passed) + [now] else old(passed)
      // a call goes unrecorded exactly when the log is full and it falls on the end of a wait
      ensures var kept := Purge(old(flowTimesFixed), now);
              unrecorded == if |kept| >= maxPacketsPerSecond && now == kept[0] + SECOND
                            then old(unrecorded) + [now] else old(unrecorded)
    {
      hide FixedState, Purge, CountWithin;
      LogIsPast(admitted, flowTimesFixed, maxPacketsPerSecond, before);
      RemovePastData(now);
      FixedPurged(admitted, old(flowTimesFixed), maxPacketsPerSecond, before, now);
      forall lo: nat, hi: nat
        ensures CountWithin(admitted + [now], lo, hi) == CountWithin(admitted, lo, hi) + (if lo <= now <= hi then 1 else 0)
        ensures CountWithin(passed + [now], lo, hi) == CountWithin(passed, lo, hi) + (if lo <= now <= hi then 1 else 0)
        ensures CountWithin(unrecorded + [now], lo, hi) == CountWithin(unrecorded, lo, hi) + (if lo <= now <= hi then 1 else 0)
      {
        CountAppend(admitted, now, lo, hi);
        CountAppend(passed, now, lo, hi);
        CountAppend(unrecorded, now, lo, hi);
      }
      if |flowTimesFixed| < maxPacketsPerSecond {
        FixedPushed(admitted, flowTimesFixed, maxPacketsPerSecond, now);
        flowTimesFixed := flowTimesFixed + [now];
        admitted, passed := admitted + [now], passed + [now];
        return 0;
      }
      wait := flowTimesFixed[0] + SECOND - now;
      if wait == 0 {
        FullSecond(admitted, flowTimesFixed, maxPacketsPerSecond, now);
        passed, unrecorded := passed + [now], unrecorded + [now];
      }
    }

    // ---- credit ring ----

    /** The ring and the credit agree, and past admissions kept within their allowance. */
    ghost predicate CreditValid()
      reads this, creditArr
    {
      && RingOk()
      && (lastSec == 0 ==> admitted == [])
      && (lastSec > 0 ==> CreditAgrees() && npackInSec <= availableCredit)
      && (lastSec > 0 ==> npackInSec == CountWithin(admitted, lastSec, lastSec))
      && WithinAllowance(admitted, lastSec, Spare(), creditWindowsSize, maxPacketsPerSecond)
    }

    ghost predicate RingOk()
      reads this, creditArr
    {
      && 0 < creditWindowsSize < U32 && maxPacketsPerSecond < U32
      && creditArr.Length == creditWindowsSize && creditArrInd < creditWindowsSize
      && (forall i :: 0 <= i < creditWindowsSize ==> creditArr[i] <= maxPacketsPerSecond)
    }

    /** The ring as a queue of seconds. */
    ghost function Seconds(): seq<nat>
      requires RingOk()
      reads this, creditArr
    {
      Queue(creditArr[..], creditArrInd)
    }

    /** The credit exceeds the ring by nothing or by one second's worth, in 32-bit arithmetic. */
    ghost predicate CreditAgrees()
      reads this, creditArr
    {
      && availableCredit == Wrap(Sum(creditArr[..]) + lead)
      && (lead == 0 || lead == maxPacketsPerSecond)
    }

    /** What the ring and the lead still allow in this second. */
    ghost function Spare(): int
      reads this, creditArr
    {
      Sum(creditArr[..]) + lead - npackInSec
    }

    /** The credit is what the ring says exactly while that fits 32 bits, and never more. A configuration
        that fits as a whole is always right. */
    lemma CreditIsRing()
      requires CreditValid() && lastSec > 0
      ensures availableCredit <= Sum(creditArr[..]) + lead
      ensures availableCredit == Sum(creditArr[..]) + lead <==> Sum(creditArr[..]) + lead < U32
      ensures maxPacketsPerSecond * creditWindowsSize + maxPacketsPerSecond < U32 ==>
                availableCredit == Sum(creditArr[..]) + lead
    {
      hide Wrap, Sum, WithinAllowance;
      WrapKeeps(Sum(creditArr[..]) + lead);
      SumAtMost(creditArr[..], maxPacketsPerSecond);
    }

    /** However the calls came: `n` seconds in a row, wherever they start, hold at most
        `(n + window) * max` packets. */
    lemma CreditBound(start: nat, n: nat)
      requires CreditValid() && n > 0
      ensures CountWithin(admitted, start, start + n - 1) <= (n + creditWindowsSize) * maxPacketsPerSecond
    {
      hide CountWithin;
      CreditRate(admitted, creditWindowsSize, maxPacketsPerSecond, start, n);
    }

    /** After an idle window every second of the ring is full. */
    method RefillAll()
      requires RingOk()
      modifies this`availableCredit, this`creditArrInd, this`lead, creditArr
      ensures RingOk() && CreditAgrees() && creditArrInd == 0 && lead == 0
      ensures Seconds() == Full(creditWindowsSize, maxPacketsPerSecond)
    {
      hide Wrap, Sum;
      availableCredit := Wrap(maxPacketsPerSecond * creditWindowsSize);
      creditArrInd := 0;
      for i := 0 to creditWindowsSize
        invariant creditArrInd == 0 && availableCredit == Wrap(maxPacketsPerSecond * creditWindowsSize)
        invariant forall j :: 0 <= j < i ==> creditArr[j] == maxPacketsPerSecond
      {
        creditArr[i] := maxPacketsPerSecond;
      }
      lead := 0;
      SumAllSame(creditArr[..], maxPacketsPerSecond);
    }

    /** Writes one slot of the ring. */
    method PutSlot(i: nat, v: nat)
      requires RingOk() && i < creditWindowsSize && v <= maxPacketsPerSecond
      modifies creditArr
      ensures RingOk() && creditArr[..] == old(creditArr[..])[i := v]
      ensures Sum(creditArr[..]) == old(Sum(creditArr[..])) - old(creditArr[i]) + v
      ensures old(creditArr[i]) <= old(Sum(creditArr[..]))
    {
      SumUpdate(creditArr[..], i, v);
      SumAtLeast(creditArr[..], i);
      creditArr[i] := v;
      assert creditArr[..] == old(creditArr[..])[i := v];
    }

    /** Seconds without a call count as unused. */
    method RefillSome(seconds: nat)
      requires RingOk() && CreditAgrees() && seconds <= creditWindowsSize
      modifies this`availableCredit, this`creditArrInd, creditArr
      ensures RingOk() && CreditAgrees()
      ensures Seconds() == old(Seconds())[seconds..] + Full(seconds, maxPacketsPerSecond)
    {
      hide Wrap, Sum, Queue, Full;
      FullStarts(maxPacketsPerSecond);
      assert Seconds()[0..] + [] == Seconds();
      for i := 0 to seconds
        invariant RingOk() && CreditAgrees()
        invariant Seconds() == old(Seconds())[i..] + Full(i, maxPacketsPerSecond)
      {
        RefillOne();
        PushFull(old(Seconds()), i, maxPacketsPerSecond);
      }
    }

    /** The oldest second of the ring leaves, a full one enters. */
    method RefillOne()
      requires RingOk() && CreditAgrees()
      modifies this`availableCredit, this`creditArrInd, creditArr
      ensures RingOk() && CreditAgrees()
      ensures Seconds() == old(Seconds())[1..] + [maxPacketsPerSecond]
    {
      hide Wrap, Sum, Queue;
      ghost var sum, slot: int := Sum(creditArr[..]) + lead, creditArr[creditArrInd];
      availableCredit := Wrap(availableCredit - creditArr[creditArrInd]);
      availableCredit := Wrap(availableCredit + maxPacketsPerSecond);
      WrapAdd(sum, -slot);
      WrapAdd(sum - slot, maxPacketsPerSecond);
      QueuePush(creditArr[..], creditArrInd, maxPacketsPerSecond);
      PutSlot(creditArrInd, maxPacketsPerSecond);
      creditArrInd := creditArrInd + 1;
      if creditArrInd >= creditWindowsSize {
        creditArrInd := 0;
      }
    }

    /** Writes the slot of the second at place `s` of the queue. */
    method PutSecond(ind: nat, ghost s: nat, v: nat)
      requires RingOk() && s < creditWindowsSize && v <= maxPacketsPerSecond
      requires ind == if creditArrInd + s < creditWindowsSize then creditArrInd + s
                      else creditArrInd + s - creditWindowsSize
      modifies creditArr
      ensures RingOk() && Seconds() == old(Seconds())[s := v]
      ensures Sum(creditArr[..]) == old(Sum(creditArr[..])) - old(creditArr[ind]) + v
      ensures old(creditArr[ind]) <= old(Sum(creditArr[..]))
    {
      hide Sum, Queue;
      QueueSlot(creditArr[..], creditArrInd, s, v);
      PutSlot(ind, v);
    }

    /** Takes a loan back from the ring, oldest second first. The loan is covered by the ring, so the
        walk stops before it has gone round. */
    method RepayLoan(loan: nat)
      requires RingOk() && loan <= Sum(creditArr[..])
      modifies creditArr
      ensures RingOk() && Sum(creditArr[..]) == old(Sum(creditArr[..])) - loan
      ensures Seconds() == Drain(old(Seconds()), loan)
    {
      hide Sum, Drain, Full, Queue;
      var extra: nat, ind: nat := loan, creditArrInd;
      ghost var s := 0;
      assert Full(0, 0) == [] by { FullStarts(0); }
      while extra > 0
        invariant RingOk() && extra <= loan && s <= creditWindowsSize
        invariant ind == if creditArrInd + s < creditWindowsSize then creditArrInd + s
                         else creditArrInd + s - creditWindowsSize
        invariant Sum(creditArr[..]) == old(Sum(creditArr[..])) - (loan - extra)
        invariant Seconds()[..s] == Full(s, 0)
        invariant Drain(old(Seconds()), loan) == Full(s, 0) + Drain(Seconds()[s..], extra)
        decreases creditWindowsSize - s, extra
      {
        ghost var q := Seconds();
        if s == creditWindowsSize {
          UsedUp(creditArr[..], creditArrInd);
          assert false;
        }
        DrainStep(q, s, extra);
        QueueSlot(creditArr[..], creditArrInd, s, 0);
        if extra > creditArr[ind] {
          extra := extra - creditArr[ind];
          PutSecond(ind, s, 0);
          FullGrows(q, s);
          ind := ind + 1;
          if ind >= creditWindowsSize {
            ind := 0;
          }
          s := s + 1;
        } else {
          PutSecond(ind, s, creditArr[ind] - extra);
          extra := 0;
          DrainNothing(Seconds()[s..]);
        }
      }
      DrainNothing(Seconds()[s..]);
      assert Seconds()[..s] + Seconds()[s..] == Seconds();
    }

    /** Books the second that ended: its unused part goes into the ring, or its loan is repaid. */
    method Settle()
      requires RingOk() && CreditAgrees() && npackInSec <= Sum(creditArr[..]) + maxPacketsPerSecond
      modifies this`availableCredit, this`creditArrInd, creditArr
      ensures RingOk() && CreditAgrees()
      ensures Seconds() == Settled(old(Seconds()), npackInSec, maxPacketsPerSecond)
    {
      hide Wrap, Sum, Queue;
      ghost var sum: int, net: int := Sum(creditArr[..]) + lead, maxPacketsPerSecond - npackInSec;
      availableCredit := Wrap(availableCredit + Wrap(maxPacketsPerSecond - npackInSec));
      WrapAdd(sum, Wrap(net));
      WrapAdd(sum, net);
      if npackInSec <= maxPacketsPerSecond {
        QueuePush(creditArr[..], creditArrInd, maxPacketsPerSecond - npackInSec);
        ReplaceSlot(sum + net, maxPacketsPerSecond - npackInSec);
      } else {
        RepayLoan(npackInSec - maxPacketsPerSecond);
        QueuePush(creditArr[..], creditArrInd, 0);
        ReplaceSlot(sum + net, 0);
      }
      creditArrInd := creditArrInd + 1;
      if creditArrInd >= creditWindowsSize {
        creditArrInd := 0;
      }
    }

    /** Trades the content of the current slot for `v`. */
    method ReplaceSlot(ghost credit: int, v: nat)
      requires RingOk() && v <= maxPacketsPerSecond && availableCredit == Wrap(credit)
      modifies this`availableCredit, creditArr
      ensures RingOk() && creditArr[..] == old(creditArr[..])[creditArrInd := v]
      ensures availableCredit == Wrap(credit - old(creditArr[creditArrInd]))
      ensures Sum(creditArr[..]) == old(Sum(creditArr[..])) - old(creditArr[creditArrInd]) + v
    {
      hide Wrap, Sum;
      ghost var slot: int := creditArr[creditArrInd];
      WrapAdd(credit, -slot);
      availableCredit := Wrap(availableCredit - creditArr[creditArrInd]);
      PutSlot(creditArrInd, v);
    }

    /** The second changed: refill what was idle and settle the second that ended. */
    method RollOver(now: nat)
      requires RingOk() && CreditAgrees() && npackInSec <= availableCredit && lastSec < now
      modifies this`availableCredit, this`creditArrInd, this`lastSec, this`npackInSec, this`lead, creditArr
      ensures RingOk() && CreditAgrees() && lastSec == now && npackInSec == 0
      ensures lead == if now - old(lastSec) >= creditWindowsSize then 0 else old(lead)
      ensures Booked(old(Seconds()), Seconds(), now - old(lastSec), old(npackInSec), maxPacketsPerSecond)
      ensures Seconds() == Rolled(old(Seconds()), now - old(lastSec), old(npackInSec), maxPacketsPerSecond)
      ensures Spare() <= old(Spare()) + (now - old(lastSec)) * maxPacketsPerSecond
      ensures now - old(lastSec) >= creditWindowsSize ==>
                var left := LeftAfterIdle(maxPacketsPerSecond, creditWindowsSize, old(npackInSec));
                left >= 0 && availableCredit == Wrap(left) && (availableCredit == left <==> left < U32)
    {
      hide Wrap, Sum, Queue, Drain, Settled, Idled, LeftAfterIdle, Booked;
      ghost var q, n := Seconds(), npackInSec;
      WrapKeeps(Sum(creditArr[..]) + lead);
      SumQueue(creditArr[..], creditArrInd);
      QueueWithin(creditArr[..], creditArrInd, maxPacketsPerSecond);
      SumAtMost(creditArr[..], maxPacketsPerSecond);
      if now - lastSec >= creditWindowsSize {
        IdleWindow(q, now - lastSec, n, maxPacketsPerSecond);
        WrapKeeps(LeftAfterIdle(maxPacketsPerSecond, creditWindowsSize, n));
      }
      FillIdle(now - lastSec);
      IdledSum(q, now - lastSec, maxPacketsPerSecond);
      SumQueue(creditArr[..], creditArrInd);
      RolledIsBooked(q, now - lastSec, n, maxPacketsPerSecond);
      RolledCredit(q, now - lastSec, n, maxPacketsPerSecond);
      lastSec := now;
      Settle();
      npackInSec := 0;
      SumQueue(creditArr[..], creditArrInd);
    }

    /** The seconds between the last one with a call and this one count as unused. */
    method FillIdle(gap: nat)
      requires RingOk() && CreditAgrees() && gap > 0
      modifies this`availableCredit, this`creditArrInd, this`lead, creditArr
      ensures RingOk() && CreditAgrees() && Seconds() == Idled(old(Seconds()), gap, maxPacketsPerSecond)
      ensures lead == if gap >= creditWindowsSize then 0 else old(lead)
    {
      hide Wrap, Sum, Queue;
      if gap >= creditWindowsSize {
        RefillAll();
      } else if gap > 1 {
        RefillSome(gap - 1);
      } else {
        FullStarts(maxPacketsPerSecond);
        assert Seconds()[0..] + [] == Seconds();
      }
    }

    /** One call in the credit mode, in second `now` of the clock. */
    method CheckCredit(now: nat) returns (ok: bool)
      requires CreditValid() && now > 0 && lastSec <= now
      modifies this`availableCredit, this`creditArrInd, this`lastSec, this`npackInSec, this`lead, this`admitted, creditArr
      ensures CreditValid() && lastSec == now
      ensures admitted == if ok then old(admitted) + [now] else old(admitted)
      ensures !ok ==> CountWithin(admitted, now, now) == availableCredit
      // the answer is yes exactly while the second's packets are fewer than the credit
      ensures ok <==> (if old(lastSec) == now then old(npackInSec) else 0) < availableCredit
      ensures npackInSec == (if old(lastSec) == now then old(npackInSec) else 0) + if ok then 1 else 0
      // the ring is rolled as often as the second changes, and otherwise left alone
      ensures 0 < old(lastSec) < now ==>
                Booked(old(Seconds()), Seconds(), now - old(lastSec), old(npackInSec), maxPacketsPerSecond)
      ensures 0 < old(lastSec) < now ==>
                Seconds() == Rolled(old(Seconds()), now - old(lastSec), old(npackInSec), maxPacketsPerSecond)
      ensures old(lastSec) == now ==> Seconds() == old(Seconds()) && availableCredit == old(availableCredit)
      ensures old(lastSec) == 0 ==> Seconds() == Full(creditWindowsSize, 0) && lead == availableCredit == maxPacketsPerSecond
      ensures old(lastSec) > 0 ==>
                lead == if now > old(lastSec) && now - old(lastSec) >= creditWindowsSize then 0 else old(lead)
      // while the credit is a second ahead of the ring, every second has room for a full second's packets
      ensures !ok && lead == maxPacketsPerSecond && Sum(creditArr[..]) + lead < U32 ==>
                CountWithin(admitted, now, now) >= maxPacketsPerSecond
      // a ring of one second has none left after a full one
      ensures creditWindowsSize == 1 && 0 < old(lastSec) < now && old(npackInSec) == maxPacketsPerSecond ==> !ok
      // an idle window leaves its full credit, less the packets before it, exactly if that fits 32 bits,
      // and the first call after it is refused exactly if nothing of that is left in 32 bits
      ensures 0 < old(lastSec) && now - old(lastSec) >= creditWindowsSize ==>
                var left := LeftAfterIdle(maxPacketsPerSecond, creditWindowsSize, old(npackInSec));
                left >= 0 && (availableCredit == left <==> left < U32) && (!ok <==> Wrap(left) == 0)
    {
      hide Wrap, Sum, CountWithin, Queue, Rolled, WithinAllowance, Booked;
      Enter(now);
      CreditIsRing();
      ok := npackInSec < availableCredit;
      if ok {
        Spend(now);
      }
    }

    /** Brings ring and credit to the second `now`. */
    method Enter(now: nat)
      requires CreditValid() && now > 0 && lastSec <= now
      modifies this`availableCredit, this`creditArrInd, this`lastSec, this`npackInSec, this`lead, creditArr
      ensures CreditValid() && lastSec == now
      ensures npackInSec == if old(lastSec) == now then old(npackInSec) else 0
      ensures 0 < old(lastSec) < now ==>
                Booked(old(Seconds()), Seconds(), now - old(lastSec), old(npackInSec), maxPacketsPerSecond)
      ensures 0 < old(lastSec) < now ==>
                Seconds() == Rolled(old(Seconds()), now - old(lastSec), old(npackInSec), maxPacketsPerSecond)
      ensures old(lastSec) == now ==> Seconds() == old(Seconds()) && availableCredit == old(availableCredit)
      ensures old(lastSec) == 0 ==> Seconds() == Full(creditWindowsSize, 0) && lead == availableCredit == maxPacketsPerSecond
      ensures old(lastSec) > 0 ==>
                lead == if now > old(lastSec) && now - old(lastSec) >= creditWindowsSize then 0 else old(lead)
      ensures 0 < old(lastSec) && now - old(lastSec) >= creditWindowsSize ==>
                var left := LeftAfterIdle(maxPacketsPerSecond, creditWindowsSize, old(npackInSec));
                left >= 0 && availableCredit == Wrap(left) && (availableCredit == left <==> left < U32)
    {
      hide Wrap, Sum, WithinAllowance, CountWithin, Queue, Rolled, LeftAfterIdle, Booked;
      if lastSec == 0 {
        FirstCall(now);
      } else if lastSec != now {
        RollOver(now);
        SortedBelow(admitted, old(lastSec), now);
        CountNone(admitted, now, now);
        AllowanceRolls(admitted, old(lastSec), old(Spare()), now, Spare(), creditWindowsSize, maxPacketsPerSecond);
      }
    }

    /** Lets one packet through at the expense of the credit. */
    method Spend(now: nat)
      requires CreditValid() && lastSec == now > 0 && npackInSec < availableCredit
      modifies this`npackInSec, this`admitted
      ensures CreditValid() && admitted == old(admitted) + [now] && npackInSec == old(npackInSec) + 1
    {
      hide Wrap, Sum, WithinAllowance, CountWithin;
      WrapKeeps(Sum(creditArr[..]) + lead);
      assert availableCredit < U32 by { WrapSmall(Sum(creditArr[..]) + lead); }
      SumAtMost(creditArr[..], maxPacketsPerSecond);
      AllowanceSpent(admitted, now, Spare(), creditWindowsSize, maxPacketsPerSecond);
      CountAppend(admitted, now, now, now);
      WrapKeeps(npackInSec + 1);
      npackInSec := Wrap(npackInSec + 1);
      admitted := admitted + [now];
    }

    /** The first call starts with one second's credit and an empty ring. */
    method FirstCall(now: nat)
      requires CreditValid() && now > 0 && lastSec == 0
      modifies this`availableCredit, this`creditArrInd, this`lastSec, this`npackInSec, this`lead, creditArr
      ensures CreditValid() && lastSec == now && npackInSec == 0 && lead == availableCredit == maxPacketsPerSecond
      ensures Seconds() == Full(creditWindowsSize, 0)
    {
      hide Wrap, Sum;
      availableCredit, creditArrInd, lastSec := maxPacketsPerSecond, 0, now;
      for i := 0 to creditWindowsSize
        invariant availableCredit == maxPacketsPerSecond && creditArrInd == 0 && lastSec == now
        invariant forall j :: 0 <= j < i ==> creditArr[j] == 0
      {
        creditArr[i] := 0;
      }
      npackInSec := 0;
      lead := maxPacketsPerSecond;
      WrapKeeps(maxPacketsPerSecond);
      SumAllSame(creditArr[..], 0);
      CountNone(admitted, now, now);
    }

    // ---- bucketed window ----

    ghost predicate LimitValid()
      reads this
    {
      && creditWindowsSize > 0 && |elementsPacketCount| == creditWindowsSize
      && windowTotalPackets == Sum(elementsPacketCount) <= WindowLimit()
      && (forall i :: 0 <= i < creditWindowsSize ==> elementsPacketCount[i] <= BucketLimit())
      && Recent(marks, elementsPacketCount, turns)
      && Drift(admitted, marks, turns, lastTime)
      && Sorted(admitted) && Windowed(admitted, creditWindowsSize, WindowLimit())
    }

    /** The two bounds as the code computes them. */
    function WindowLimit(): nat {
      Wrap(maxPacketsPerSecond * creditWindowsSize)
    }

    function BucketLimit(): nat {
      Wrap(maxPacketsPerSecond + maxSlippage)
    }

    /** However the calls came: a span of `window - 1` seconds, wherever it starts, holds at most
        `max * window` packets, and fewer when that does not fit 32 bits. */
    lemma LimitBound(start: nat)
      requires LimitValid()
      ensures CountWithin(admitted, start, start + (creditWindowsSize - 1) * 1_000_000) <= WindowLimit()
      ensures WindowLimit() <= maxPacketsPerSecond * creditWindowsSize
      ensures WindowLimit() == maxPacketsPerSecond * creditWindowsSize <==>
              maxPacketsPerSecond * creditWindowsSize < 0x1_0000_0000
    {
      hide CountWithin, Sum, Recent, Drift, Wrap;
      LimitRate(admitted, creditWindowsSize, WindowLimit(), start);
      WrapKeeps(maxPacketsPerSecond * creditWindowsSize);
    }

    /** Drops the buckets of the seconds that passed. */
    method TurnBuckets(diff: nat)
      requires LimitValid()
      modifies this`windowTotalPackets, this`elementsPacketCount, this`turns
      ensures elementsPacketCount == Turned(old(elementsPacketCount), diff)
      ensures windowTotalPackets == Sum(elementsPacketCount) <= old(windowTotalPackets)
      ensures |elementsPacketCount| == creditWindowsSize
      ensures forall i :: 0 <= i < creditWindowsSize ==> elementsPacketCount[i] <= BucketLimit()
      ensures turns == old(turns) + diff && Recent(marks, elementsPacketCount, turns)
    {
      for i := 0 to diff
        invariant elementsPacketCount == Turned(old(elementsPacketCount), i)
        invariant windowTotalPackets == Sum(elementsPacketCount) <= old(windowTotalPackets)
        invariant |elementsPacketCount| == creditWindowsSize
        invariant forall i :: 0 <= i < creditWindowsSize ==> elementsPacketCount[i] <= BucketLimit()
        invariant turns == old(turns) + i && Recent(marks, elementsPacketCount, turns)
      {
        RecentTurns(marks, elementsPacketCount, turns);
        windowTotalPackets := windowTotalPackets - elementsPacketCount[0];
        elementsPacketCount := elementsPacketCount[1..];
        elementsPacketCount := elementsPacketCount + [0];
        turns := turns + 1;
      }
    }

    /** One call in the limited-credit mode; `now` is in microseconds. */
    method CheckLimitCredit(now: nat) returns (wait: nat)
      requires LimitValid() && lastTime <= now
      requires forall i :: 0 <= i < |admitted| ==> admitted[i] <= now
      modifies this`windowTotalPackets, this`elementsPacketCount, this`lastTime, this`admitted, this`marks, this`turns
      ensures LimitValid()
      ensures wait == 0 || wait == 1_000_000
      // a bucket is the one that stood as many places further on as seconds have passed, or a new one,
      // and a packet let through is counted in the last one
      ensures var k := (now - old(lastTime)) / 1_000_000;
              forall i :: 0 <= i < creditWindowsSize ==>
                elementsPacketCount[i] == (if i + k < creditWindowsSize then old(elementsPacketCount)[i + k] else 0) +
                                          (if wait == 0 && i == creditWindowsSize - 1 then 1 else 0)
      // it is let through exactly while that bucket is below a second's packets and the slippage, and the
      // total below the window's packets, as 32 bits hold them
      ensures wait == 0 <==>
              && elementsPacketCount[creditWindowsSize - 1] - (if wait == 0 then 1 else 0) <
                 (maxPacketsPerSecond + maxSlippage) % 0x1_0000_0000
              && windowTotalPackets - (if wait == 0 then 1 else 0) <
                 (maxPacketsPerSecond * creditWindowsSize) % 0x1_0000_0000
      ensures admitted == if wait == 0 then old(admitted) + [now] else old(admitted)
      ensures lastTime == if now - old(lastTime) >= SECOND then now else old(lastTime)
      ensures var turned := Turned(old(elementsPacketCount), (now - old(lastTime)) / SECOND);
              && |turned| == creditWindowsSize
              && (wait == SECOND <==> turned[|turned| - 1] >= BucketLimit() || Sum(turned) >= WindowLimit())
              && elementsPacketCount == if wait == 0 then CountedLast(turned) else turned
    {
      hide Recent, Drift, Sum, Turned, Sorted, Windowed;
      var diff := (now - lastTime) / SECOND;
      forall i | 0 <= i < creditWindowsSize
        ensures |Turned(elementsPacketCount, diff)| == creditWindowsSize
        ensures Turned(elementsPacketCount, diff)[i] == if i + diff < creditWindowsSize then elementsPacketCount[i + diff] else 0
      {
        TurnedAt(elementsPacketCount, diff, i);
      }
      TurnBuckets(diff);
      DriftTurns(admitted, marks, old(turns), lastTime, now, diff);
      if diff > 0 {
        lastTime := now;
      }
      if elementsPacketCount[|elementsPacketCount| - 1] >= Wrap(maxPacketsPerSecond + maxSlippage) ||
         windowTotalPackets >= Wrap(maxPacketsPerSecond * creditWindowsSize) {
        return SECOND;
      }
      WindowGrows(admitted, marks, elementsPacketCount, turns, lastTime, WindowLimit(), now);
      RecentCounts(marks, elementsPacketCount, turns);
      DriftCounts(admitted, marks, turns, lastTime, now);
      elementsPacketCount := CountedLast(elementsPacketCount);
      windowTotalPackets := windowTotalPackets + 1;
      admitted, marks := admitted + [now], marks + [turns];
      wait := 0;
    }
  }

  /** A run in which any number of callers pass within one second although the rate is one: they all come
      exactly at the end of the first one's second. */
  method CallersOnTheEdge(callers: nat) returns (waits: seq<nat>)
    ensures |waits| == callers + 1 && forall i :: 0 <= i < |waits| ==> waits[i] == 0
  {
    hide FlowControl.FixedValid, Purge;
    var flow := new FlowControl(1, 5, 0, 0);
    PurgeStops([], 0);
    PurgeStops([0], SECOND);
    var wait := flow.CheckFixedFlow(0, 0);
    waits := [wait];
    ghost var before: nat := 0;
    for i := 0 to callers
      invariant fresh(flow) && flow.maxPacketsPerSecond == 1 && flow.flowTimesFixed == [0]
      invariant before <= SECOND && flow.FixedValid(before)
      invariant |waits| == i + 1 && forall j :: 0 <= j < |waits| ==> waits[j] == 0
    {
      wait := flow.CheckFixedFlow(before, SECOND);
      before := SECOND;
      waits := waits + [wait];
    }
  }

  /** A run in which the wrapped credit turns a caller away after three idle seconds: the ring is full,
      but its content is a multiple of 2^32. */
  method IdleCallerTurnedAway() returns (first: bool, second: bool, third: bool)
    ensures first && second && !third
  {
    hide Sum, WithinAllowance, CountWithin, Queue, Rolled, Booked, Full;
    hide FlowControl.CreditValid, FlowControl.FixedValid, FlowControl.LimitValid, FlowControl.Seconds;
    var flow := new FlowControl(0x8000_0001, 2, 0, 0);
    first := flow.CheckCredit(1);
    second := flow.CheckCredit(1);
    third := flow.CheckCredit(5);
  }
}
