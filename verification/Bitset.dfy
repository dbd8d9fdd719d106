/**
 The occupancy bitset of a price ladder: an array of 64-bit words that refines
 a set of naturals below `numBits`, with word-scanning searches for its
 smallest and largest member.
 */
module Bitset {

  /** `bit & 63`: the place of a bit inside its word. */
  function Place(bit: nat): bv6 {
    (bit % 64) as bv6
  }

  lemma PlaceIsExact(bit: nat)
    ensures Place(bit) as int == bit % 64
  {
    var k := bit % 64;
    assert (k as bv6) as int == k;
  }

  lemma PlacesAsInts(j: bv6, k: bv6)
    ensures j == k <==> (j as int) == (k as int)
    ensures j < k <==> (j as int) < (k as int)
    ensures 0 <= j as int < 64
  {
  }

  /** Whether place `k` of word `w` is one. */
  predicate Bit(w: bv64, k: bv6) {
    (w >> k) & 1 == 1
  }

  /** `w | (1 << k)`. */
  function WithPlace(w: bv64, k: bv6): bv64 {
    w | ((1 as bv64) << k)
  }

  /** `w & ~(1 << k)`. */
  function WithoutPlace(w: bv64, k: bv6): bv64 {
    w & !((1 as bv64) << k)
  }

  lemma WithPlaceSetsOne(w: bv64, k: bv6)
    ensures forall j :: Bit(WithPlace(w, k), j) <==> j == k || Bit(w, j)
  {
  }

  lemma WithoutPlaceClearsOne(w: bv64, k: bv6)
    ensures forall j :: Bit(WithoutPlace(w, k), j) <==> j != k && Bit(w, j)
  {
  }

  lemma ZeroWord(j: bv6)
    ensures !Bit(0, j)
  {
  }

  /** No place below `k` is one. */
  predicate ClearBelow(w: bv64, k: bv6) {
    (w << (63 - k)) << 1 == 0
  }

  /** No place above `k` is one. */
  predicate ClearAbove(w: bv64, k: bv6) {
    (w >> k) >> 1 == 0
  }

  lemma ClearBelowMeans(w: bv64, k: bv6, j: bv6)
    requires ClearBelow(w, k)
    ensures Bit(w, j) ==> k <= j
  {
  }

  lemma ClearAboveMeans(w: bv64, k: bv6, j: bv6)
    requires ClearAbove(w, k)
    ensures Bit(w, j) ==> j <= k
  {
  }

  lemma ClearBelowStep(w: bv64, k: bv6)
    requires w != 0 && ClearBelow(w, k) && !Bit(w, k)
    ensures k < 63 && ClearBelow(w, k + 1)
  {
  }

  lemma ClearAboveStep(w: bv64, k: bv6)
    requires w != 0 && ClearAbove(w, k) && !Bit(w, k)
    ensures 0 < k && ClearAbove(w, k - 1)
  {
  }

  function LowestFrom(w: bv64, k: bv6): bv6
    decreases 63 - k
  {
    if Bit(w, k) || k == 63 then k else LowestFrom(w, k + 1)
  }

  function HighestFrom(w: bv64, k: bv6): bv6
    decreases k
  {
    if Bit(w, k) || k == 0 then k else HighestFrom(w, k - 1)
  }

  /** `__builtin_ctzll`: the number of zero bits below the lowest one bit. */
  function TrailingZeros(w: bv64): bv6
    requires w != 0
  {
    LowestFrom(w, 0)
  }

  /** `__builtin_clzll`: the number of zero bits above the highest one bit. */
  function LeadingZeros(w: bv64): bv6
    requires w != 0
  {
    63 - HighestFrom(w, 63)
  }

  lemma {:induction false} LowestFromIsLowest(w: bv64, k: bv6)
    requires w != 0 && ClearBelow(w, k)
    ensures Bit(w, LowestFrom(w, k)) && ClearBelow(w, LowestFrom(w, k))
    decreases 63 - k
  {
    if !Bit(w, k) {
      ClearBelowStep(w, k);
      LowestFromIsLowest(w, k + 1);
    }
  }

  lemma {:induction false} HighestFromIsHighest(w: bv64, k: bv6)
    requires w != 0 && ClearAbove(w, k)
    ensures Bit(w, HighestFrom(w, k)) && ClearAbove(w, HighestFrom(w, k))
    decreases k
  {
    if !Bit(w, k) {
      ClearAboveStep(w, k);
      HighestFromIsHighest(w, k - 1);
    }
  }

  lemma NothingOutside(w: bv64)
    ensures ClearBelow(w, 0) && ClearAbove(w, 63)
  {
  }

  lemma TrailingZerosIsLowest(w: bv64, j: bv6)
    requires w != 0
    ensures Bit(w, TrailingZeros(w)) && (Bit(w, j) ==> TrailingZeros(w) <= j)
  {
    hide Bit, ClearBelow, ClearAbove, LowestFrom;
    NothingOutside(w);
    LowestFromIsLowest(w, 0);
    ClearBelowMeans(w, LowestFrom(w, 0), j);
  }

  lemma LeadingZerosIsHighest(w: bv64, j: bv6)
    requires w != 0
    ensures Bit(w, 63 - LeadingZeros(w)) && (Bit(w, j) ==> j <= 63 - LeadingZeros(w))
  {
    hide Bit, ClearBelow, ClearAbove, HighestFrom;
    NothingOutside(w);
    HighestFromIsHighest(w, 63);
    ClearAboveMeans(w, HighestFrom(w, 63), j);
  }

  /** The number that place `k` of word `w` stands for. */
  function Member(w: int, k: bv6): int {
    64 * w + k as int
  }

  lemma MemberOfPlace(bit: nat, w: int, k: bv6)
    ensures Member(w, k) == bit <==> w == bit / 64 && k == Place(bit)
  {
    PlaceIsExact(bit);
    PlacesAsInts(k, Place(bit));
  }

  class DynamicBitset {
    const numBits: nat
    const numWords: nat
    const data: array<bv64>
    // The set of naturals that the words stand for.
    ghost var Members: set<int>

    ghost predicate Valid()
      reads this, data
    {
      && numWords == (numBits + 63) / 64
      && data.Length == numWords
      && (forall bit :: bit in Members ==> 0 <= bit < numBits)
      && (forall w: int, k: bv6 {:trigger Bit(data[w], k)} :: 0 <= w < numWords ==>
            (Bit(data[w], k) <==> Member(w, k) in Members))
    }

    lemma MemberIsSet(bit: int)
      requires Valid() && bit in Members
      ensures 0 <= bit / 64 < numWords && Bit(data[bit / 64], Place(bit)) && data[bit / 64] != 0
      ensures bit == 64 * (bit / 64) + Place(bit) as int
    {
      PlaceIsExact(bit);
      ZeroWord(Place(bit));
      assert Member(bit / 64, Place(bit)) == bit;
    }

    lemma HighestIsMember(i: int)
      requires Valid() && 0 <= i < numWords && data[i] != 0
      ensures Member(i, 63 - LeadingZeros(data[i])) in Members
    {
      LeadingZerosIsHighest(data[i], 0);
    }

    lemma HighestIsBound(i: int, m: int)
      requires Valid() && 0 <= i < numWords && data[i] != 0 && m in Members && m / 64 <= i
      ensures m <= Member(i, 63 - LeadingZeros(data[i]))
    {
      MemberIsSet(m);
      LeadingZerosIsHighest(data[i], Place(m));
      PlacesAsInts(Place(m), 63 - LeadingZeros(data[i]));
    }

    lemma LowestIsMember(i: int)
      requires Valid() && 0 <= i < numWords && data[i] != 0
      ensures Member(i, TrailingZeros(data[i])) in Members
    {
      TrailingZerosIsLowest(data[i], 0);
    }

    lemma LowestIsBound(i: int, m: int)
      requires Valid() && 0 <= i < numWords && data[i] != 0 && m in Members && i <= m / 64
      ensures Member(i, TrailingZeros(data[i])) <= m
    {
      MemberIsSet(m);
      TrailingZerosIsLowest(data[i], Place(m));
      PlacesAsInts(Place(m), TrailingZeros(data[i]));
    }

    constructor (numBits: nat)
      ensures Valid() && fresh(data)
      ensures this.numBits == numBits && Members == {}
    {
      this.numBits := numBits;
      numWords := (numBits + 63) / 64;
      data := new bv64[(numBits + 63) / 64](_ => 0);
      Members := {};
      new;
      forall w: int, k: bv6 | 0 <= w < numWords
        ensures !Bit(data[w], k)
      {
        ZeroWord(k);
      }
    }

    method Set(bit: int)
      requires Valid()
      modifies this`Members, data
      ensures Valid()
      ensures Members == old(Members) + (if 0 <= bit < numBits then {bit} else {})
    {
      if 0 <= bit < numBits {
        WithPlaceSetsOne(data[bit / 64], Place(bit));
        data[bit / 64] := WithPlace(data[bit / 64], Place(bit));
        Members := Members + {bit};
        forall w: int, k: bv6 | 0 <= w < numWords
          ensures Bit(data[w], k) <==> Member(w, k) in Members
        {
          assert Bit(old(data[w]), k) <==> Member(w, k) in old(Members);
          MemberOfPlace(bit, w, k);
        }
      }
    }

    method Clear(bit: int)
      requires Valid()
      modifies this`Members, data
      ensures Valid()
      ensures Members == old(Members) - {bit}
    {
      if 0 <= bit < numBits {
        WithoutPlaceClearsOne(data[bit / 64], Place(bit));
        data[bit / 64] := WithoutPlace(data[bit / 64], Place(bit));
        Members := Members - {bit};
        forall w: int, k: bv6 | 0 <= w < numWords
          ensures Bit(data[w], k) <==> Member(w, k) in Members
        {
          assert Bit(old(data[w]), k) <==> Member(w, k) in old(Members);
          MemberOfPlace(bit, w, k);
        }
      }
    }

    method Test(bit: int) returns (r: bool)
      requires Valid()
      ensures r <==> bit in Members
    {
      if bit < 0 || bit >= numBits {
        return false;
      }
      r := (data[bit / 64] >> Place(bit)) & 1 == 1;
      PlaceIsExact(bit);
      assert Member(bit / 64, Place(bit)) == bit;
      assert r == Bit(data[bit / 64], Place(bit));
    }

    method FindHighest() returns (r: int)
      requires Valid()
      ensures r == -1 <==> Members == {}
      ensures r != -1 ==> r in Members && forall m :: m in Members ==> m <= r
    {
      var i := numWords - 1;
      while i >= 0
        invariant -1 <= i < numWords
        invariant forall m :: m in Members ==> m / 64 <= i
      {
        if data[i] != 0 {
          r := 64 * i + (63 - LeadingZeros(data[i])) as int;
          HighestIsMember(i);
          forall m | m in Members
            ensures m <= r
          {
            HighestIsBound(i, m);
          }
          return;
        }
        forall m | m in Members
          ensures m / 64 <= i - 1
        {
          MemberIsSet(m);
        }
        i := i - 1;
      }
      forall m | m in Members
        ensures false
      {
        MemberIsSet(m);
      }
      r := -1;
    }

    method FindLowest() returns (r: int)
      requires Valid()
      ensures r == -1 <==> Members == {}
      ensures r != -1 ==> r in Members && forall m :: m in Members ==> r <= m
    {
      var i := 0;
      while i < numWords
        invariant 0 <= i <= numWords
        invariant forall m :: m in Members ==> i <= m / 64
      {
        if data[i] != 0 {
          r := 64 * i + TrailingZeros(data[i]) as int;
          LowestIsMember(i);
          forall m | m in Members
            ensures r <= m
          {
            LowestIsBound(i, m);
          }
          return;
        }
        forall m | m in Members
          ensures i + 1 <= m / 64
        {
          MemberIsSet(m);
        }
        i := i + 1;
      }
      forall m | m in Members
        ensures false
      {
        MemberIsSet(m);
      }
      r := -1;
    }
  }
}
