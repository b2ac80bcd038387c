/** Bits of one 64-bit word: the facts about machine words that the packed set needs.
    The word operations carry names so that proofs by induction on a bit position can
    use facts about one shift without unfolding the operations themselves. */
module Bits {

  function And(a: bv64, b: bv64): bv64 { a & b }

  function Or(a: bv64, b: bv64): bv64 { a | b }

  function Not(a: bv64): bv64 { !a }

  function Xor(a: bv64, b: bv64): bv64 { a ^ b }

  function Half(a: bv64): bv64 { a >> 1 }

  function Twice(a: bv64): bv64 { a << 1 }

  predicate Low(a: bv64) { a & 1 == 1 }

  const ALL: bv64 := 0xFFFF_FFFF_FFFF_FFFF
  const BELOW_TOP: bv64 := 0x7FFF_FFFF_FFFF_FFFF
  const TOP: bv64 := 0x8000_0000_0000_0000

  /** Bit `i` of `w`, counting from the least significant one. */
  predicate Bit(w: bv64, i: nat) {
    if i == 0 then Low(w) else Bit(Half(w), i - 1)
  }

  /** The word with the single bit `i`. */
  function OneHot(i: nat): bv64 {
    if i == 0 then 1 else Twice(OneHot(i - 1))
  }

  /** The lowest `n` bits of `w` are all set. */
  ghost predicate Run(w: bv64, n: nat) {
    n == 0 || (Low(w) && Run(Half(w), n - 1))
  }

  // Facts about one shift, for the bit-vector solver alone.

  lemma ShiftAnd(a: bv64, b: bv64)
    ensures Half(And(a, b)) == And(Half(a), Half(b))
  {}

  lemma LowAnd(a: bv64, b: bv64)
    ensures Low(And(a, b)) <==> Low(a) && Low(b)
  {}

  lemma ShiftOr(a: bv64, b: bv64)
    ensures Half(Or(a, b)) == Or(Half(a), Half(b))
  {}

  lemma LowOr(a: bv64, b: bv64)
    ensures Low(Or(a, b)) <==> Low(a) || Low(b)
  {}

  lemma ShiftXor(a: bv64, b: bv64)
    ensures Half(Xor(a, b)) == Xor(Half(a), Half(b))
  {}

  lemma LowXor(a: bv64, b: bv64)
    ensures Low(Xor(a, b)) <==> Low(a) != Low(b)
  {}

  lemma NoDifference(a: bv64, b: bv64)
    requires And(a, Not(b)) == 0 && And(b, Not(a)) == 0
    ensures a == b
  {}

  lemma ShiftNot(a: bv64)
    ensures Low(Not(a)) <==> !Low(a)
    ensures Half(Not(a)) == And(Not(Half(a)), BELOW_TOP)
  {}

  lemma ShiftBack(w: bv64)
    ensures Half(Twice(w)) == And(w, BELOW_TOP)
    ensures !Low(Twice(w))
  {}

  // The meaning of the word operations, bit by bit.

  lemma {:induction false} BitAnd(a: bv64, b: bv64, i: nat)
    ensures Bit(And(a, b), i) <==> Bit(a, i) && Bit(b, i)
    decreases i
  {
    hide And, Half, Low;
    ShiftAnd(a, b);
    LowAnd(a, b);
    if i > 0 {
      BitAnd(Half(a), Half(b), i - 1);
    }
  }

  lemma {:induction false} BitOr(a: bv64, b: bv64, i: nat)
    ensures Bit(Or(a, b), i) <==> Bit(a, i) || Bit(b, i)
    decreases i
  {
    hide Or, Half, Low;
    ShiftOr(a, b);
    LowOr(a, b);
    if i > 0 {
      BitOr(Half(a), Half(b), i - 1);
    }
  }

  lemma {:induction false} BitXor(a: bv64, b: bv64, i: nat)
    ensures Bit(Xor(a, b), i) <==> Bit(a, i) != Bit(b, i)
    decreases i
  {
    hide Xor, Half, Low;
    ShiftXor(a, b);
    LowXor(a, b);
    if i > 0 {
      BitXor(Half(a), Half(b), i - 1);
    }
  }

  lemma {:induction false} BitZero(i: nat)
    ensures !Bit(0, i)
  {
    if i > 0 {
      assert Half(0) == 0;
      BitZero(i - 1);
    }
  }

  lemma {:induction false} RunBit(w: bv64, n: nat, i: nat)
    requires Run(w, n) && i < n
    ensures Bit(w, i)
    decreases n
  {
    if i > 0 {
      RunBit(Half(w), n - 1, i - 1);
    }
  }

  lemma {:induction false} BitsRun(w: bv64, n: nat)
    requires forall i :: 0 <= i < n ==> Bit(w, i)
    ensures Run(w, n)
    decreases n
  {
    if n > 0 {
      assert Bit(w, 0);
      forall i | 0 <= i < n - 1 ensures Bit(Half(w), i) {
        assert Bit(w, i + 1);
      }
      BitsRun(Half(w), n - 1);
    }
  }

  function Drop4(w: bv64): bv64 { w >> 4 }

  predicate LowNibbleFull(w: bv64) { w & 0xF == 0xF }

  function Drop8(w: bv64): bv64 { w >> 8 }

  predicate LowByteFull(w: bv64) { w & 0xFF == 0xFF }

  /** Four bits of a run at a time. */
  lemma RunFour(w: bv64, n: nat)
    ensures Run(w, n + 4) <==>
            Low(w) && Low(Half(w)) && Low(Half(Half(w))) && Low(Half(Half(Half(w)))) &&
            Run(Half(Half(Half(Half(w)))), n)
  {
    var w1, w2, w3 := Half(w), Half(Half(w)), Half(Half(Half(w)));
    assert Run(w, n + 4) <==> Low(w) && Run(w1, n + 3);
    assert Run(w1, n + 3) <==> Low(w1) && Run(w2, n + 2);
    assert Run(w2, n + 2) <==> Low(w2) && Run(w3, n + 1);
  }

  lemma FourHalves(w: bv64)
    ensures Half(Half(Half(Half(w)))) == Drop4(w)
    ensures Low(w) && Low(Half(w)) && Low(Half(Half(w))) && Low(Half(Half(Half(w)))) <==> LowNibbleFull(w)
  {}

  lemma TwoNibbles(w: bv64)
    ensures Drop4(Drop4(w)) == Drop8(w)
    ensures LowNibbleFull(w) && LowNibbleFull(Drop4(w)) <==> LowByteFull(w)
  {}

  /** Eight bits of a run at a time. */
  lemma RunByte(w: bv64, n: nat)
    ensures Run(w, n + 8) <==> LowByteFull(w) && Run(Drop8(w), n)
  {
    RunFour(w, n + 4);
    FourHalves(w);
    RunFour(Drop4(w), n);
    FourHalves(Drop4(w));
    TwoNibbles(w);
  }

  lemma FourBytes(w: bv64, u: bv64)
    requires LowByteFull(w) && LowByteFull(Drop8(w)) && LowByteFull(Drop8(Drop8(w)))
    requires LowByteFull(Drop8(Drop8(Drop8(w)))) && u == Drop8(Drop8(Drop8(Drop8(w))))
    ensures u == w >> 32 && w & 0xFFFF_FFFF == 0xFFFF_FFFF
  {}

  lemma EightBytes(w: bv64, u: bv64)
    requires w & 0xFFFF_FFFF == 0xFFFF_FFFF && u == w >> 32 && u & 0xFFFF_FFFF == 0xFFFF_FFFF
    ensures w == ALL
  {}

  /** Half of a word of ones. */
  lemma RunHalf(w: bv64, n: nat) returns (u: bv64)
    requires Run(w, n + 32)
    ensures u == w >> 32 && w & 0xFFFF_FFFF == 0xFFFF_FFFF && Run(u, n)
  {
    RunByte(w, n + 24);
    RunByte(Drop8(w), n + 16);
    RunByte(Drop8(Drop8(w)), n + 8);
    RunByte(Drop8(Drop8(Drop8(w))), n);
    u := Drop8(Drop8(Drop8(Drop8(w))));
    FourBytes(w, u);
  }

  /** A word whose 64 bits are set is the word of ones. */
  lemma RunFull(w: bv64)
    requires Run(w, 64)
    ensures w == ALL
  {
    var u := RunHalf(w, 32);
    var v := RunHalf(u, 0);
    EightBytes(w, u);
  }

  lemma BelowTopRun()
    ensures Run(BELOW_TOP, 63)
  {
    assert Half(0x7F) == 0x3F && Half(0x3F) == 0x1F && Half(0x1F) == 0xF && Half(0xF) == 0x7;
    assert Half(0x7) == 0x3 && Half(0x3) == 1;
    assert Run(1, 1) && Run(0x3, 2) && Run(0x7, 3) && Run(0xF, 4) && Run(0x1F, 5) && Run(0x3F, 6);
    assert Run(0x7F, 7);
    RunByte(0x7FFF, 7);
    RunByte(0x7F_FFFF, 15);
    RunByte(0x7FFF_FFFF, 23);
    RunByte(0x7F_FFFF_FFFF, 31);
    RunByte(0x7FFF_FFFF_FFFF, 39);
    RunByte(0x7F_FFFF_FFFF_FFFF, 47);
    RunByte(BELOW_TOP, 55);
  }

  /** Doubling moves every bit one place up and drops the top one. */
  lemma BitTwice(w: bv64, i: nat)
    requires i < 64
    ensures Bit(Twice(w), i) <==> i > 0 && Bit(w, i - 1)
  {
    ShiftBack(w);
    if i > 0 {
      BitAnd(w, BELOW_TOP, i - 1);
      BelowTopRun();
      RunBit(BELOW_TOP, 63, i - 1);
    }
  }

  lemma {:induction false} BitOneHot(p: nat, i: nat)
    requires p < 64 && i < 64
    ensures Bit(OneHot(p), i) <==> i == p
    decreases p
  {
    if p == 0 {
      if i > 0 {
        assert Half(1) == 0;
        BitZero(i - 1);
      }
    } else {
      BitTwice(OneHot(p - 1), i);
      if i > 0 {
        BitOneHot(p - 1, i - 1);
      }
    }
  }

  /** The carry test of a shift. */
  predicate HasTop(w: bv64) {
    And(w, TOP) != 0
  }

  /** It reads bit 63. */
  lemma TopIsBit63(w: bv64)
    ensures HasTop(w) <==> Bit(w, 63)
  {
    TopOneHot();
    AndOneHot(w, 63);
  }

  lemma TopOneHot()
    ensures OneHot(63) == TOP
  {
    assert TOP == Not(BELOW_TOP);
    BelowTopRun();
    var top := NonZeroBit(TOP);
    forall i | 0 <= i < 64 ensures Bit(OneHot(63), i) <==> Bit(TOP, i) {
      BitOneHot(63, i);
      BitNot(BELOW_TOP, i);
      BitNot(BELOW_TOP, top);
      if i < 63 {
        RunBit(BELOW_TOP, 63, i);
      }
      if top < 63 {
        RunBit(BELOW_TOP, 63, top);
      }
    }
    SameBits(OneHot(63), TOP);
  }

  /** A test against the word with the single bit `i` reads bit `i`. */
  lemma AndOneHot(w: bv64, i: nat)
    requires i < 64
    ensures And(w, OneHot(i)) != 0 <==> Bit(w, i)
  {
    BitAnd(w, OneHot(i), i);
    BitOneHot(i, i);
    if And(w, OneHot(i)) == 0 {
      BitZero(i);
    } else {
      var j := NonZeroBit(And(w, OneHot(i)));
      BitAnd(w, OneHot(i), j);
      BitOneHot(i, j);
    }
  }

  lemma {:induction false} BitNot(a: bv64, i: nat)
    requires i < 64
    ensures Bit(Not(a), i) <==> !Bit(a, i)
    decreases i
  {
    ShiftNot(a);
    if i > 0 {
      BitNot(Half(a), i - 1);
      BitAnd(Not(Half(a)), BELOW_TOP, i - 1);
      BelowTopRun();
      RunBit(BELOW_TOP, 63, i - 1);
    }
  }

  /** A word other than zero has a bit. */
  lemma NonZeroBit(w: bv64) returns (i: nat)
    requires w != 0
    ensures i < 64 && Bit(w, i)
  {
    if forall j :: 0 <= j < 64 ==> !Bit(w, j) {
      forall j | 0 <= j < 64 ensures Bit(Not(w), j) {
        BitNot(w, j);
      }
      BitsRun(Not(w), 64);
      RunFull(Not(w));
      assert false;
    }
    i :| 0 <= i < 64 && Bit(w, i);
  }

  /** Two words with the same bits are equal. */
  lemma SameBits(a: bv64, b: bv64)
    requires forall i :: 0 <= i < 64 ==> (Bit(a, i) <==> Bit(b, i))
    ensures a == b
  {
    NothingLeft(a, b);
    NothingLeft(b, a);
    NoDifference(a, b);
  }

  lemma NothingLeft(a: bv64, b: bv64)
    requires forall i :: 0 <= i < 64 ==> Bit(a, i) ==> Bit(b, i)
    ensures And(a, Not(b)) == 0
  {
    if And(a, Not(b)) != 0 {
      var i := NonZeroBit(And(a, Not(b)));
      BitAnd(a, Not(b), i);
      BitNot(b, i);
    }
  }

  lemma IncludedBit(a: bv64, b: bv64, i: nat)
    requires And(a, b) == b && Bit(b, i)
    ensures Bit(a, i)
  {
    BitAnd(a, b, i);
  }

  lemma IncludedWord(a: bv64, b: bv64)
    requires forall i :: 0 <= i < 64 && Bit(b, i) ==> Bit(a, i)
    ensures And(a, b) == b
  {
    forall i | 0 <= i < 64 ensures Bit(And(a, b), i) <==> Bit(b, i) {
      BitAnd(a, b, i);
    }
    SameBits(And(a, b), b);
  }

  /** Every bit of `b` is a bit of `a`. */
  ghost predicate Included(b: bv64, a: bv64) {
    forall i :: 0 <= i < 64 && Bit(b, i) ==> Bit(a, i)
  }

  /** Inclusion of words, as the flag tests read it. */
  lemma AndIsInclusion(a: bv64, b: bv64)
    ensures And(a, b) == b <==> Included(b, a)
  {
    if And(a, b) == b {
      forall i | 0 <= i < 64 && Bit(b, i) ensures Bit(a, i) {
        IncludedBit(a, b, i);
      }
    } else if Included(b, a) {
      IncludedWord(a, b);
    }
  }

  /** Clearing a set bit by exclusive or. */
  lemma BitCleared(w: bv64, p: nat, i: nat)
    requires p < 64 && i < 64 && Bit(w, p)
    ensures Bit(Xor(w, OneHot(p)), i) <==> Bit(w, i) && i != p
  {
    hide Bit, OneHot, Xor;
    BitXor(w, OneHot(p), i);
    BitOneHot(p, i);
  }
}

/** The packed set of naturals: bit p of the set is bit p % 64 of word p / 64. */
module BitSets {
  import opened Bits

  /** The set holds `p`. */
  predicate Member(words: seq<bv64>, p: nat) {
    p / 64 < |words| && Bit(words[p / 64], p % 64)
  }

  ghost predicate Ascending(s: seq<nat>) {
    forall i, j :: 0 <= i < j < |s| ==> s[i] < s[j]
  }

  /** The position of the lowest set bit of a word other than zero. */
  method CountTrailingZeros(w: bv64) returns (pos: nat)
    requires w != 0
    ensures pos < 64 && Bit(w, pos)
    ensures forall j :: 0 <= j < pos ==> !Bit(w, j)
  {
    ghost var top := NonZeroBit(w);
    pos := 0;
    while !Bit(w, pos)
      invariant pos <= top
      invariant forall j :: 0 <= j < pos ==> !Bit(w, j)
      decreases top - pos
    {
      pos := pos + 1;
    }
  }

  class BitSet {
    const size: nat
    const storage: array<bv64>

    ghost predicate Valid() {
      storage.Length == (size + 63) / 64
    }

    /** Bit `p` of the storage is set; `p` may lie past `size`, up to the end of the last word. */
    ghost predicate Has(p: nat)
      reads storage
    {
      Member(storage[..], p)
    }

    lemma HasBelow(p: nat)
      requires Has(p)
      ensures p < 64 * storage.Length
    {}

    constructor (size: nat)
      ensures Valid() && this.size == size && fresh(storage)
      ensures forall p: nat :: !Has(p)
    {
      this.size := size;
      storage := new bv64[(size + 63) / 64](_ => 0);
      new;
      forall p: nat ensures !Has(p) {
        BitZero(p % 64);
      }
    }

    /** Intersection in place. */
    method IntersectWith(rhs: BitSet)
      requires rhs.storage.Length == storage.Length
      modifies storage
      ensures forall p: nat :: Has(p) <==> old(Has(p)) && old(rhs.Has(p))
    {
      for i := 0 to storage.Length
        invariant forall j :: i <= j < storage.Length ==> storage[j] == old(storage[j])
        invariant forall j :: i <= j < storage.Length ==> rhs.storage[j] == old(rhs.storage[j])
        invariant forall j :: 0 <= j < i ==> storage[j] == And(old(storage[j]), old(rhs.storage[j]))
      {
        storage[i] := And(storage[i], rhs.storage[i]);
      }
      forall p: nat ensures Has(p) <==> old(Has(p)) && old(rhs.Has(p)) {
        if p / 64 < storage.Length {
          BitAnd(old(storage[p / 64]), old(rhs.storage[p / 64]), p % 64);
        }
      }
    }

    /** Union in place. */
    method UniteWith(rhs: BitSet)
      requires rhs.storage.Length == storage.Length
      modifies storage
      ensures forall p: nat :: Has(p) <==> old(Has(p)) || old(rhs.Has(p))
    {
      for i := 0 to storage.Length
        invariant forall j :: i <= j < storage.Length ==> storage[j] == old(storage[j])
        invariant forall j :: i <= j < storage.Length ==> rhs.storage[j] == old(rhs.storage[j])
        invariant forall j :: 0 <= j < i ==> storage[j] == Or(old(storage[j]), old(rhs.storage[j]))
      {
        storage[i] := Or(storage[i], rhs.storage[i]);
      }
      forall p: nat ensures Has(p) <==> old(Has(p)) || old(rhs.Has(p)) {
        if p / 64 < storage.Length {
          BitOr(old(storage[p / 64]), old(rhs.storage[p / 64]), p % 64);
        }
      }
    }

    /** Equality of sets. */
    method Equals(rhs: BitSet) returns (same: bool)
      requires rhs.storage.Length == storage.Length
      ensures same <==> forall p: nat :: Has(p) <==> rhs.Has(p)
    {
      for i := 0 to storage.Length
        invariant forall j :: 0 <= j < i ==> storage[j] == rhs.storage[j]
      {
        if storage[i] != rhs.storage[i] {
          if forall b :: 0 <= b < 64 ==> (Bit(storage[i], b) <==> Bit(rhs.storage[i], b)) {
            SameBits(storage[i], rhs.storage[i]);
          }
          ghost var b: nat :| b < 64 && !(Bit(storage[i], b) <==> Bit(rhs.storage[i], b));
          assert (64 * i + b) / 64 == i && (64 * i + b) % 64 == b;
          assert !(Has(64 * i + b) <==> rhs.Has(64 * i + b));
          return false;
        }
      }
      return true;
    }

    /** Every element of `cond` is in the set. */
    method CheckSetFlags(cond: BitSet) returns (r: bool)
      requires cond.storage.Length == storage.Length
      ensures r <==> forall p: nat :: cond.Has(p) ==> Has(p)
    {
      for i := 0 to storage.Length
        invariant forall j :: 0 <= j < i ==> And(storage[j], cond.storage[j]) == cond.storage[j]
      {
        if And(storage[i], cond.storage[i]) != cond.storage[i] {
          AndIsInclusion(storage[i], cond.storage[i]);
          ghost var b: nat :| b < 64 && Bit(cond.storage[i], b) && !Bit(storage[i], b);
          assert (64 * i + b) / 64 == i && (64 * i + b) % 64 == b;
          assert cond.Has(64 * i + b) && !Has(64 * i + b);
          return false;
        }
      }
      forall p: nat | cond.Has(p) ensures Has(p) {
        AndIsInclusion(storage[p / 64], cond.storage[p / 64]);
      }
      return true;
    }

    /** No element of `cond` is in the set. */
    method CheckUnsetFlags(cond: BitSet) returns (r: bool)
      requires cond.storage.Length == storage.Length
      ensures r <==> forall p: nat :: cond.Has(p) ==> !Has(p)
    {
      for i := 0 to storage.Length
        invariant forall j :: 0 <= j < i ==> And(Not(storage[j]), cond.storage[j]) == cond.storage[j]
      {
        if And(Not(storage[i]), cond.storage[i]) != cond.storage[i] {
          AndIsInclusion(Not(storage[i]), cond.storage[i]);
          ghost var b: nat :| b < 64 && Bit(cond.storage[i], b) && !Bit(Not(storage[i]), b);
          BitNot(storage[i], b);
          assert (64 * i + b) / 64 == i && (64 * i + b) % 64 == b;
          assert cond.Has(64 * i + b) && Has(64 * i + b);
          return false;
        }
      }
      forall p: nat | cond.Has(p) ensures !Has(p) {
        AndIsInclusion(Not(storage[p / 64]), cond.storage[p / 64]);
        BitNot(storage[p / 64], p % 64);
      }
      return true;
    }

    /** Every element grows by one; only the top bit of the last word is lost. */
    method ShiftRight()
      requires storage.Length > 0
      modifies storage
      ensures forall p: nat :: Has(p) <==> p > 0 && p < 64 * storage.Length && old(Has(p - 1))
    {
      hide Member, HasTop, Or, Twice;
      var i := storage.Length - 1;
      while i > 0
        invariant 0 <= i < storage.Length
        invariant forall j :: 0 <= j <= i ==> storage[j] == old(storage[j])
        invariant forall j :: i < j < storage.Length ==> storage[j] == Carried(old(storage[j]), old(storage[j - 1]))
      {
        storage[i] := Twice(storage[i]);
        if HasTop(storage[i - 1]) {
          storage[i] := Or(storage[i], 1);
        }
        assert storage[i] == Carried(old(storage[i]), old(storage[i - 1]));
        i := i - 1;
      }
      storage[0] := Twice(storage[0]);
      ShiftedBits(old(storage[..]), storage[..]);
    }

    /** Adds or removes one element. */
    method Set(ind: nat, value: bool := true)
      requires Valid() && ind < size
      modifies storage
      ensures forall p: nat :: Has(p) <==> if p == ind then value else old(Has(p))
    {
      hide Bit, OneHot, And, Or, Not;
      var w := storage[ind / 64];
      storage[ind / 64] := if value then Or(w, OneHot(ind % 64)) else And(w, Not(OneHot(ind % 64)));
      forall p: nat ensures Has(p) <==> if p == ind then value else old(Has(p)) {
        BitOr(w, OneHot(ind % 64), p % 64);
        BitAnd(w, Not(OneHot(ind % 64)), p % 64);
        BitNot(OneHot(ind % 64), p % 64);
        BitOneHot(ind % 64, p % 64);
      }
    }

    /** Membership. */
    method Get(ind: nat) returns (r: bool)
      requires Valid() && ind < size
      ensures r == Has(ind)
    {
      AndOneHot(storage[ind / 64], ind % 64);
      r := And(storage[ind / 64], OneHot(ind % 64)) != 0;
    }

    /** The elements in ascending order. */
    method GetSetBitsIndices() returns (ret: seq<nat>)
      ensures Ascending(ret)
      ensures forall p: nat :: p in ret <==> Has(p)
    {
      hide Bit;
      ret := [];
      for i := 0 to storage.Length
        invariant Ascending(ret)
        invariant forall p: nat :: p in ret <==> p / 64 < i && Has(p)
      {
        ret := AppendWord(i, ret);
      }
    }

    /** Appends the elements that word `i` holds to those of the words before it. */
    method AppendWord(i: nat, before: seq<nat>) returns (ret: seq<nat>)
      requires i < storage.Length && Ascending(before)
      requires forall p: nat :: p in before <==> p / 64 < i && Has(p)
      ensures Ascending(ret)
      ensures forall p: nat :: p in ret <==> p / 64 <= i && Has(p)
    {
      hide Bit, Xor, OneHot, BitsFrom, Member, Ascending;
      ghost var words := storage[..];
      ret := before;
      var tmp := storage[i];
      ghost var done: nat := 0;
      AllBits(tmp);
      while tmp != 0
        invariant done <= 64
        invariant BitsFrom(tmp, words[i], done)
        invariant Ascending(ret)
        invariant forall p: nat :: p in ret <==> p < 64 * i + done && Member(words, p)
        decreases 64 - done
      {
        var pos := CountTrailingZeros(tmp);
        LowestBit(words, i, tmp, done, pos);
        AscendingAppend(ret, i * 64 + pos);
        ret := ret + [i * 64 + pos];
        NextBits(tmp, words[i], done, pos);
        tmp, done := Xor(tmp, OneHot(pos)), pos + 1;
      }
      NoMoreBits(words, i, done);
    }
  }

  /** The bits of `w` are those of `all` from `done` on. */
  ghost predicate BitsFrom(w: bv64, all: bv64, done: nat) {
    forall b :: 0 <= b < 64 ==> (Bit(w, b) <==> b >= done && Bit(all, b))
  }

  lemma AllBits(w: bv64)
    ensures BitsFrom(w, w, 0)
  {}

  /** The lowest bit that is left is the next element. */
  lemma LowestBit(words: seq<bv64>, i: nat, w: bv64, done: nat, pos: nat)
    requires i < |words| && BitsFrom(w, words[i], done) && pos < 64 && Bit(w, pos)
    requires forall b :: 0 <= b < pos ==> !Bit(w, b)
    ensures done <= pos && Member(words, 64 * i + pos)
    ensures forall p: nat :: 64 * i + done <= p < 64 * i + pos ==> !Member(words, p)
  {
    hide Bit;
    assert (64 * i + pos) / 64 == i && (64 * i + pos) % 64 == pos;
    forall p: nat | 64 * i + done <= p < 64 * i + pos ensures !Member(words, p) {
      assert p / 64 == i && p % 64 == p - 64 * i;
      assert !Bit(w, p - 64 * i);
    }
  }

  lemma NextBits(w: bv64, all: bv64, done: nat, pos: nat)
    requires BitsFrom(w, all, done) && done <= pos < 64 && Bit(w, pos)
    requires forall b :: 0 <= b < pos ==> !Bit(w, b)
    ensures BitsFrom(Xor(w, OneHot(pos)), all, pos + 1)
  {
    hide Bit, Xor, OneHot;
    forall b | 0 <= b < 64 ensures Bit(Xor(w, OneHot(pos)), b) <==> b >= pos + 1 && Bit(all, b) {
      BitCleared(w, pos, b);
    }
  }

  /** Once no bit is left, every element up to the end of the word has been found. */
  lemma NoMoreBits(words: seq<bv64>, i: nat, done: nat)
    requires i < |words| && done <= 64 && BitsFrom(0, words[i], done)
    ensures forall p: nat :: Member(words, p) ==> (p < 64 * i + done <==> p / 64 <= i)
  {
    hide Bit;
    forall p: nat | Member(words, p) ensures p < 64 * i + done <==> p / 64 <= i {
      BitZero(p % 64);
    }
  }

  lemma AscendingAppend(s: seq<nat>, p: nat)
    requires Ascending(s) && forall q :: q in s ==> q < p
    ensures Ascending(s + [p])
  {
    assert forall k :: 0 <= k < |s| ==> s[k] in s;
  }

  /** Word `hi` after a shift, with the carry of the word `lo` below it. */
  function Carried(hi: bv64, lo: bv64): bv64 {
    if HasTop(lo) then Or(Twice(hi), 1) else Twice(hi)
  }

  lemma ShiftedBits(before: seq<bv64>, after: seq<bv64>)
    requires |before| == |after| > 0 && after[0] == Twice(before[0])
    requires forall j :: 0 < j < |after| ==> after[j] == Carried(before[j], before[j - 1])
    ensures forall p: nat :: Member(after, p) <==> p > 0 && p < 64 * |after| && Member(before, p - 1)
  {
    forall p: nat
      ensures Member(after, p) <==> p > 0 && p < 64 * |after| && Member(before, p - 1)
    {
      ShiftedBit(before, after, p);
    }
  }

  /** One bit of a shifted row of words. */
  lemma ShiftedBit(before: seq<bv64>, after: seq<bv64>, p: nat)
    requires |before| == |after| > 0 && after[0] == Twice(before[0])
    requires forall j :: 0 < j < |after| ==> after[j] == Carried(before[j], before[j - 1])
    ensures Member(after, p) <==> p > 0 && p < 64 * |after| && Member(before, p - 1)
  {
    var w, b := p / 64, p % 64;
    if w < |after| {
      BitTwice(before[w], b);
      if b > 0 {
        assert (p - 1) / 64 == w && (p - 1) % 64 == b - 1;
      }
      if w > 0 {
        TopIsBit63(before[w - 1]);
        BitOr(Twice(before[w]), 1, b);
        BitOneHot(0, b);
        if b == 0 {
          assert (p - 1) / 64 == w - 1 && (p - 1) % 64 == 63;
        }
      }
    }
  }
}
