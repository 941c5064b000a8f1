/** Binary numbers: powers of two, shifts, single bits, and numbers as lists of bits, lowest first. */
module Bits {

  function Pow2(n: nat): nat { if n == 0 then 1 else 2 * Pow2(n - 1) }

  lemma {:induction false} Pow2Sum(m: nat, n: nat)
    ensures Pow2(m + n) == Pow2(m) * Pow2(n)
  {
    if m != 0 {
      Pow2Sum(m - 1, n);
      assert Pow2(m + n) == 2 * Pow2(m - 1 + n);
    }
  }

  /** `v >> k` */
  function Shift(v: nat, k: nat): nat { if k == 0 then v else Shift(v / 2, k - 1) }

  /** The low `k` bits of `v`. */
  function Cut(v: nat, k: nat): nat { if k == 0 then 0 else v % 2 + 2 * Cut(v / 2, k - 1) }

  /** `(v >> i) & 1` */
  predicate Bit(v: nat, i: nat) { if i == 0 then v % 2 == 1 else Bit(v / 2, i - 1) }

  /** `v | (1 << k)` */
  function SetBit(v: nat, k: nat): nat
  {
    if k == 0 then (if v % 2 == 1 then v else v + 1) else v % 2 + 2 * SetBit(v / 2, k - 1)
  }

  lemma {:induction false} SetBitSets(v: nat, k: nat, i: nat)
    ensures Bit(SetBit(v, k), i) <==> Bit(v, i) || i == k
  {
    if k > 0 && i > 0 {
      SetBitSets(v / 2, k - 1, i - 1);
    }
  }

  lemma {:induction false} SetBitFits(v: nat, k: nat, n: nat)
    requires v < Pow2(n) && k < n
    ensures SetBit(v, k) < Pow2(n)
  {
    if k > 0 {
      SetBitFits(v / 2, k - 1, n - 1);
    }
  }

  lemma {:induction false} BitOfShift(v: nat, k: nat, i: nat)
    ensures Bit(Shift(v, k), i) <==> Bit(v, k + i)
  {
    if k > 0 {
      BitOfShift(v / 2, k - 1, i);
    }
  }

  lemma {:induction false} BitOfCut(v: nat, k: nat, i: nat)
    requires i < k
    ensures Bit(Cut(v, k), i) <==> Bit(v, i)
  {
    if i > 0 {
      BitOfCut(v / 2, k - 1, i - 1);
    }
  }

  lemma {:induction false} CutFits(v: nat, k: nat)
    ensures Cut(v, k) < Pow2(k)
  {
    if k > 0 {
      CutFits(v / 2, k - 1);
    }
  }

  lemma {:induction false} ShiftFits(v: nat, k: nat, n: nat)
    requires v < Pow2(n + k)
    ensures Shift(v, k) < Pow2(n)
    decreases k
  {
    if k > 0 {
      ShiftFits(v / 2, k - 1, n);
    }
  }

  // ----- numbers as lists of bits

  /** The low `n` bits of `v`, lowest first. */
  function Low(v: nat, n: nat): (bits: seq<bool>)
    ensures |bits| == n
  {
    seq(n, i requires 0 <= i < n => Bit(v, i))
  }

  /** The number whose bits these are, lowest first. */
  function Number(bits: seq<bool>): nat
  {
    if bits == [] then 0 else (if bits[0] then 1 else 0) + 2 * Number(bits[1..])
  }

  function Flip<T>(s: seq<T>): (r: seq<T>)
    ensures |r| == |s|
  {
    seq(|s|, i requires 0 <= i < |s| => s[|s| - 1 - i])
  }

  lemma {:induction false} NumberOfLow(v: nat, n: nat)
    requires v < Pow2(n)
    ensures Number(Low(v, n)) == v
  {
    if n > 0 {
      NumberOfLow(v / 2, n - 1);
      assert Low(v, n)[1..] == Low(v / 2, n - 1);
    }
  }

  lemma {:induction false} BitOfNumber(bits: seq<bool>, i: nat)
    requires i < |bits|
    ensures Bit(Number(bits), i) == bits[i]
  {
    if i > 0 {
      BitOfNumber(bits[1..], i - 1);
    }
  }

  lemma {:induction false} NumberFits(bits: seq<bool>)
    ensures Number(bits) < Pow2(|bits|)
  {
    if bits != [] {
      NumberFits(bits[1..]);
    }
  }

  lemma LowOfNumber(bits: seq<bool>)
    ensures Low(Number(bits), |bits|) == bits
  {
    forall i | 0 <= i < |bits| ensures Low(Number(bits), |bits|)[i] == bits[i] {
      BitOfNumber(bits, i);
    }
  }

  /** A number is its bits. */
  lemma SameBitsSameNumber(v: nat, bits: seq<bool>)
    requires v < Pow2(|bits|)
    requires forall i | 0 <= i < |bits| :: Bit(v, i) == bits[i]
    ensures v == Number(bits)
  {
    assert Low(v, |bits|) == bits;
    NumberOfLow(v, |bits|);
  }

  lemma {:induction false} NumberAppend(bits: seq<bool>, b: bool)
    ensures Number(bits + [b]) == Number(bits) + if b then Pow2(|bits|) else 0
  {
    if bits != [] {
      NumberAppend(bits[1..], b);
      assert (bits + [b])[1..] == bits[1..] + [b];
    }
  }

  /** The low `length` bits of `val` in reverse. */
  function Reversed(val: nat, length: nat): nat { Number(Flip(Low(val, length))) }

  method ReverseInt(val: nat, length: nat) returns (result: nat)
    ensures result == Reversed(val, length)
  {
    result := 0;
    ZeroHasNoBits(length);
    for i := 0 to length
      invariant result < Pow2(length)
      invariant forall j | 0 <= j < length :: Bit(result, j) <==> length - i <= j && Bit(val, length - 1 - j)
    {
      if Bit(val, i) {
        ghost var was := result;
        result := SetBit(result, length - 1 - i);
        SetBitFits(was, length - 1 - i, length);
        forall j | 0 <= j < length ensures Bit(result, j) <==> Bit(was, j) || j == length - 1 - i {
          SetBitSets(was, length - 1 - i, j);
        }
      }
    }
    SameBitsSameNumber(result, Flip(Low(val, length)));
  }

  lemma {:induction false} ZeroHasNoBits(n: nat)
    ensures 0 < Pow2(n) && forall j | 0 <= j < n :: !Bit(0, j)
  {
    if n > 0 {
      ZeroHasNoBits(n - 1);
      forall j | 0 <= j < n ensures !Bit(0, j) {
        if j > 0 {
          assert !Bit(0, j - 1);
        }
      }
    }
  }

  /** Reversing puts each bit at the mirrored place, and reversing again is the identity on numbers that fit. */
  lemma ReversedTwice(val: nat, length: nat)
    requires val < Pow2(length)
    ensures Reversed(Reversed(val, length), length) == val && Reversed(val, length) < Pow2(length)
  {
    LowOfReversed(val, length);
    assert Flip(Flip(Low(val, length))) == Low(val, length);
    NumberOfLow(val, length);
    NumberFits(Flip(Low(val, length)));
  }

  lemma LowOfReversed(val: nat, length: nat)
    ensures Low(Reversed(val, length), length) == Flip(Low(val, length))
  {
    LowOfNumber(Flip(Low(val, length)));
  }
}
