/** Alignment of addresses by bit masks (src/address.rs and `alignment` in src/volatile_memory.rs). */
module Address {
  import opened Words
  import opened Bits

  ghost predicate IsPow2(p: nat) {
    exists k: nat :: Pow2(k) == p
  }

  /** Zero divides nothing here. */
  predicate MultipleOf(x: int, p: nat) {
    p > 0 && x % p == 0
  }

  /** `Address::checked_align_up`; the two assertions on the argument are the panic. */
  function CheckedAlignUp(addr: u64, p: u64): Outcome<Option<u64>, ()> {
    if p == 0 || BitAnd(p, p - 1) != 0 then Panic
    else
      var mask := p - 1;
      if addr + mask >= U64_LIMIT then Ok(None)
      else
        AndBound(addr + mask, Not64(mask));
        Ok(Some(BitAnd(addr + mask, Not64(mask))))
  }

  /** `Address::unchecked_align_up`; subtraction and addition panic when they overflow. */
  function UncheckedAlignUp(addr: u64, p: u64): Outcome<u64, ()> {
    if p == 0 then Panic
    else
      var mask := p - 1;
      if addr + mask >= U64_LIMIT then Panic
      else
        AndBound(addr + mask, Not64(mask));
        Ok(BitAnd(addr + mask, Not64(mask)))
  }

  lemma {:induction false} AndBound(a: nat, b: nat)
    ensures 0 <= BitAnd(a, b) <= a
  {
    if a != 0 && b != 0 {
      AndBound(a / 2, b / 2);
    }
  }

  /** The assertion on `power_of_two & mask` accepts exactly the powers of two. */
  lemma {:induction false} PowerOfTwoTest(p: nat)
    requires p > 0
    ensures BitAnd(p, p - 1) == 0 <==> IsPow2(p)
  {
    if p == 1 {
      assert Pow2(0) == 1;
    } else if p % 2 == 1 {
      AndSelf(p / 2);
      assert (p - 1) / 2 == p / 2;
      if k: nat :| Pow2(k) == p {
        assert false;
      }
    } else {
      PowerOfTwoTest(p / 2);
      assert (p - 1) / 2 == p / 2 - 1;
      if j: nat :| Pow2(j) == p / 2 {
        assert Pow2(j + 1) == p;
      }
      if k: nat :| Pow2(k) == p {
        assert k > 0 && Pow2(k - 1) == p / 2;
      }
    }
  }

  lemma MultiplesApart(x: int, y: int, p: nat)
    requires p > 0 && MultipleOf(x, p) && MultipleOf(y, p) && x < y
    ensures x + p <= y
  {
    var d := y / p - x / p;
    assert y - x == p * d;
    Scaled(p, d);
  }

  lemma LimitIsMultiple(k: nat)
    requires Pow2(k) <= U64_LIMIT
    ensures k <= 64 && MultipleOf(U64_LIMIT, Pow2(k))
  {
    Pow2Is64();
    Pow2Monotone(k, 64);
    Pow2Add(k, 64 - k);
    ModUnique(U64_LIMIT, Pow2(k), Pow2(64 - k), 0);
  }

  lemma RoundDown(x: int, p: nat)
    requires p > 0
    ensures MultipleOf(x - x % p, p)
  {
    ModUnique(x - x % p, p, x / p, 0);
  }

  lemma MaskRounds(x: u64, k: nat)
    requires Pow2(k) < U64_LIMIT
    ensures BitAnd(x, Not64(Pow2(k) - 1)) == x - x % Pow2(k)
  {
    LimitIsMultiple(k);
    Pow2Is64();
    AndHighBits(x, k, 64);
  }

  /** When the rounded sum does not fit, neither does any multiple. */
  lemma NoMultipleFits(addr: u64, k: nat)
    requires Pow2(k) < U64_LIMIT && addr + Pow2(k) - 1 >= U64_LIMIT
    ensures forall x :: addr <= x && MultipleOf(x, Pow2(k)) ==> x >= U64_LIMIT
  {
    LimitIsMultiple(k);
    forall x | addr <= x && MultipleOf(x, Pow2(k))
      ensures x >= U64_LIMIT
    {
      if x < U64_LIMIT {
        MultiplesApart(x, U64_LIMIT, Pow2(k));
      }
    }
  }

  lemma LeastMultiple(addr: int, p: nat)
    requires p > 0
    ensures var r := addr + p - 1 - (addr + p - 1) % p;
            addr <= r && MultipleOf(r, p) && forall x :: addr <= x && MultipleOf(x, p) ==> r <= x
  {
    var sum := addr + p - 1;
    var r := sum - sum % p;
    RoundDown(sum, p);
    forall x | addr <= x && MultipleOf(x, p)
      ensures r <= x
    {
      if x < r {
        MultiplesApart(x, r, p);
      }
    }
  }

  lemma MaskedSum(addr: u64, p: u64, k: nat)
    requires Pow2(k) == p && addr + p - 1 < U64_LIMIT
    ensures var r := BitAnd(addr + p - 1, Not64(p - 1));
            addr <= r < U64_LIMIT && MultipleOf(r, p) && forall x :: addr <= x && MultipleOf(x, p) ==> r <= x
  {
    MaskRounds(addr + p - 1, k);
    LeastMultiple(addr, p);
  }

  /** The result is the least multiple not below the address; it is absent exactly when no such multiple
      fits in 64 bits; and anything but a power of two panics. */
  lemma AlignUpExact(addr: u64, p: u64)
    ensures CheckedAlignUp(addr, p).Panic? <==> !IsPow2(p)
    ensures IsPow2(p) ==>
              (CheckedAlignUp(addr, p) == Ok(None) <==> forall x :: addr <= x && MultipleOf(x, p) ==> x >= U64_LIMIT)
    ensures CheckedAlignUp(addr, p).Ok? && CheckedAlignUp(addr, p).value.Some? ==>
              var r := CheckedAlignUp(addr, p).value.value;
              && addr <= r && MultipleOf(r, p)
              && (forall x :: addr <= x && MultipleOf(x, p) ==> r <= x)
              && UncheckedAlignUp(addr, p) == Ok(r)
    ensures p == 0 || CheckedAlignUp(addr, p) == Ok(None) ==> UncheckedAlignUp(addr, p) == Panic
    ensures UncheckedAlignUp(addr, p).Ok? ==>
              p > 0 && UncheckedAlignUp(addr, p).value + BitAnd(addr + p - 1, p - 1) == addr + p - 1
  {
    if p > 0 {
      PowerOfTwoTest(p);
      if addr + p - 1 < U64_LIMIT {
        Pow2Is64();
        AndSplit(addr + p - 1, p - 1, 64);
      }
    }
    if IsPow2(p) {
      var k: nat :| Pow2(k) == p;
      if addr + p - 1 >= U64_LIMIT {
        NoMultipleFits(addr, k);
      } else {
        MaskedSum(addr, p, k);
      }
    }
  }

  // ---------------------------------------------------------------------------------------------
  // The alignment of a pointer
  // ---------------------------------------------------------------------------------------------

  /** `alignment`: the address and its two's complement share exactly one bit. */
  function Alignment(addr: u64): nat
    requires addr > 0
  {
    BitAnd(addr, Not64(addr) + 1)
  }

  lemma {:induction false} LowestBit(a: nat, w: nat) returns (k: nat)
    requires 0 < a < Pow2(w)
    ensures BitAnd(a, Pow2(w) - a) == Pow2(k)
    ensures a % Pow2(k) == 0 && a % Pow2(k + 1) != 0
  {
    var h := a / 2;
    if a % 2 == 1 {
      k := 0;
      AndComplement(h, w - 1);
      assert (Pow2(w) - a) / 2 == Pow2(w - 1) - 1 - h;
      assert Pow2(1) == 2;
    } else {
      var j := LowestBit(h, w - 1);
      k := j + 1;
      AndEven(a, Pow2(w - 1) - h);
      ModHalf(a, Pow2(j));
      ModHalf(a, Pow2(j + 1));
    }
  }

  /** `alignment` returns the largest power of two that divides the address. */
  lemma AlignmentExact(addr: u64)
    requires addr > 0
    ensures IsPow2(Alignment(addr)) && Alignment(addr) > 0 && MultipleOf(addr, Alignment(addr))
    ensures forall p: nat :: IsPow2(p) && p > 0 && MultipleOf(addr, p) ==> p <= Alignment(addr)
  {
    Pow2Is64();
    var k := LowestBit(addr, 64);
    forall p: nat | IsPow2(p) && p > 0 && MultipleOf(addr, p)
      ensures p <= Pow2(k)
    {
      var j: nat :| Pow2(j) == p;
      Pow2Monotone(j, k);
      if j > k {
        DividesDown(addr, k + 1, j);
      }
    }
  }

  /** A power of two no larger than the alignment divides the address. */
  lemma AlignedTo(addr: u64, w: nat)
    requires addr > 0 && IsPow2(w) && w > 0 && w <= Alignment(addr)
    ensures MultipleOf(addr, w)
  {
    AlignmentExact(addr);
    var k: nat :| Pow2(k) == Alignment(addr);
    var j: nat :| Pow2(j) == w;
    Pow2Monotone(j, k);
    DividesDown(addr, j, k);
  }
}
