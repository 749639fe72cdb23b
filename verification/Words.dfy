module Wrappers {
  datatype Option<+T> = None | Some(value: T)
}

/**
 32-bit words of the maps, least significant bit first, and the bit windows that points
 occupy in them. The word operations are those of C on u32.
 */
module Words {
  function Copies(n: nat, b: bool): (s: seq<bool>)
    ensures |s| == n && forall k :: 0 <= k < n ==> s[k] == b
  {
    seq(n, _ => b)
  }

  type Word = w: seq<bool> | |w| == 32 witness Copies(32, false)

  const ZERO: Word := Copies(32, false)
  const ONES: Word := Copies(32, true)

  function And(v: Word, w: Word): Word {
    seq(32, k requires 0 <= k < 32 => v[k] && w[k])
  }

  function Or(v: Word, w: Word): Word {
    seq(32, k requires 0 <= k < 32 => v[k] || w[k])
  }

  function Not(v: Word): Word {
    seq(32, k requires 0 <= k < 32 => !v[k])
  }

  /** v << b, for the amounts 0..32 that the code uses. */
  function Shl(v: Word, b: nat): Word {
    seq(32, k requires 0 <= k < 32 => b <= k && v[k - b])
  }

  /** v >> b on an unsigned word. */
  function Shr(v: Word, b: nat): Word {
    seq(32, k requires 0 <= k < 32 => k + b < 32 && v[k + b])
  }

  /** A window of `length` bits starting at `bit` lies inside one word. */
  predicate Fits(bit: nat, length: nat) {
    bit + length <= 32
  }

  function LowMask(length: nat): Word {
    Not(Shl(ONES, length))
  }

  /** The handle mask: (~(~0 << length)) << bit. */
  function Mask(bit: nat, length: nat): Word {
    Shl(LowMask(length), bit)
  }

  /** (a & ~m) | (b & m): the bits of `b` where `m` is 1, the bits of `a` elsewhere. */
  function Blend(a: Word, b: Word, m: Word): Word {
    Or(And(a, Not(m)), And(b, m))
  }

  predicate Disjoint(v: Word, w: Word) {
    And(v, w) == ZERO
  }

  predicate Within(v: Word, w: Word) {
    And(v, w) == v
  }

  lemma DisjointBits(v: Word, w: Word)
    ensures Disjoint(v, w) <==> forall k :: 0 <= k < 32 ==> !(v[k] && w[k])
  {
    if Disjoint(v, w) {
      forall k | 0 <= k < 32 ensures !(v[k] && w[k]) {
        assert And(v, w)[k] == (v[k] && w[k]);
      }
    }
  }

  lemma WithinBits(v: Word, w: Word)
    ensures Within(v, w) <==> forall k :: 0 <= k < 32 && v[k] ==> w[k]
  {}

  lemma MaskBits(bit: nat, length: nat, k: nat)
    requires Fits(bit, length) && k < 32
    ensures Mask(bit, length)[k] <==> bit <= k < bit + length
  {}

  predicate Apart(b1: nat, l1: nat, b2: nat, l2: nat) {
    l1 == 0 || l2 == 0 || b1 + l1 <= b2 || b2 + l2 <= b1
  }

  /** Two windows share no bit exactly when their bit ranges do not overlap. */
  lemma DisjointWindows(b1: nat, l1: nat, b2: nat, l2: nat)
    requires Fits(b1, l1) && Fits(b2, l2)
    ensures Disjoint(Mask(b1, l1), Mask(b2, l2)) <==> Apart(b1, l1, b2, l2)
  {
    DisjointBits(Mask(b1, l1), Mask(b2, l2));
    if !Apart(b1, l1, b2, l2) {
      var k := if b1 <= b2 then b2 else b1;
      MaskBits(b1, l1, k);
      MaskBits(b2, l2, k);
    }
  }

  /** Reading a window after writing `v` into it gives the low bits of `v`. */
  lemma ShiftedField(bit: nat, length: nat, v: Word)
    requires Fits(bit, length)
    ensures Shr(And(Shl(v, bit), Mask(bit, length)), bit) == And(v, LowMask(length))
  {}

  lemma InvertedField(bit: nat, length: nat, v: Word)
    requires Fits(bit, length)
    ensures And(Shr(Not(And(Not(Shl(v, bit)), Mask(bit, length))), bit), LowMask(length)) == And(v, LowMask(length))
  {}

  /** A window's value determines its bits. */
  lemma FieldInjective(bit: nat, length: nat, v: Word, w: Word)
    requires Fits(bit, length)
    requires Shr(And(v, Mask(bit, length)), bit) == Shr(And(w, Mask(bit, length)), bit)
    ensures And(v, Mask(bit, length)) == And(w, Mask(bit, length))
  {
    forall k | 0 <= k < 32 ensures And(v, Mask(bit, length))[k] == And(w, Mask(bit, length))[k] {
      if bit <= k {
        assert Shr(And(v, Mask(bit, length)), bit)[k - bit] == Shr(And(w, Mask(bit, length)), bit)[k - bit];
      }
    }
  }

  lemma BlendTakes(a: Word, b: Word, m: Word, w: Word)
    requires Within(w, m)
    ensures And(Blend(a, b, m), w) == And(b, w)
  {}

  lemma BlendKeeps(a: Word, b: Word, m: Word, w: Word)
    requires Disjoint(m, w)
    ensures And(Blend(a, b, m), w) == And(a, w)
  {
    DisjointBits(m, w);
  }

  /** The unsigned number that the bits stand for. */
  function Value(w: seq<bool>): nat {
    if w == [] then 0 else (if w[0] then 1 else 0) + 2 * Value(w[1..])
  }

  function Pow2(n: nat): (p: nat)
    ensures p > 0
  {
    if n == 0 then 1 else 2 * Pow2(n - 1)
  }

  lemma {:induction false} ValueBound(w: seq<bool>)
    ensures Value(w) < Pow2(|w|)
  {
    if w == [] {
    } else {
      ValueBound(w[1..]);
    }
  }

  lemma DoubleProduct(p: nat, d: nat)
    ensures 2 * p * d == 2 * (p * d)
  {}

  lemma {:induction false} ValueAppend(v: seq<bool>, w: seq<bool>)
    ensures Value(v + w) == Value(v) + Pow2(|v|) * Value(w)
  {
    if v == [] {
      assert v + w == w;
    } else {
      ValueAppend(v[1..], w);
      assert (v + w)[1..] == v[1..] + w;
      DoubleProduct(Pow2(|v| - 1), Value(w));
    }
  }

  lemma {:induction false} ZerosValue(n: nat)
    ensures Value(Copies(n, false)) == 0
  {
    if n == 0 {
    } else {
      ZerosValue(n - 1);
      assert Copies(n, false)[1..] == Copies(n - 1, false);
    }
  }

  lemma {:induction false} MulAtLeast(p: nat, d: nat)
    requires d > 0
    ensures p * d >= p
    decreases d
  {}

  lemma ModUnique(q: nat, p: nat, r: nat)
    requires r < p
    ensures (r + p * q) % p == r
  {
    var n := r + p * q;
    var m := n / p;
    assert p * q - p * m == n % p - r;
    if q > m {
      MulAtLeast(p, q - m);
    } else if m > q {
      MulAtLeast(p, m - q);
    }
  }

  /** Keeping the low `length` bits is reducing the number modulo 2^length. */
  lemma LowBitsAreMod(w: Word, length: nat)
    requires length <= 32
    ensures Value(And(w, LowMask(length))) == Value(w) % Pow2(length)
  {
    var low, high := w[..length], w[length..];
    assert w == low + high;
    ValueAppend(low, high);
    ValueBound(low);
    ModUnique(Value(high), Pow2(length), Value(low));
    assert And(w, LowMask(length)) == low + Copies(32 - length, false);
    ValueAppend(low, Copies(32 - length, false));
    ZerosValue(32 - length);
  }
}
