/** C's bitwise `^` and `&` on unsigned integers, defined bit by bit from the
    least significant end. */
module Bitwise {

  function Bit(a: nat): nat {
    a % 2
  }

  function Xor(a: nat, b: nat): (r: nat)
    decreases a + b
  {
    if a == 0 && b == 0 then 0
    else 2 * Xor(a / 2, b / 2) + (if Bit(a) != Bit(b) then 1 else 0)
  }

  function And(a: nat, b: nat): (r: nat)
    ensures r <= a && r <= b
    decreases a
  {
    if a == 0 || b == 0 then 0
    else 2 * And(a / 2, b / 2) + (if Bit(a) == 1 && Bit(b) == 1 then 1 else 0)
  }

  /** Bit `i` of `a`. */
  function BitAt(a: nat, i: nat): nat
    decreases i
  {
    if i == 0 then Bit(a) else BitAt(a / 2, i - 1)
  }

  /** Both operations take the lowest bit and recurse on the rest, also at zero. */
  lemma Unfold(a: nat, b: nat)
    ensures Xor(a, b) == 2 * Xor(a / 2, b / 2) + (if Bit(a) != Bit(b) then 1 else 0)
    ensures And(a, b) == 2 * And(a / 2, b / 2) + (if Bit(a) == 1 && Bit(b) == 1 then 1 else 0)
  {
  }

  /** `(v ^ s) & m` is zero exactly when `s` and `v` agree on the bits `m`
      selects. */
  lemma {:induction false} MaskedXorZero(v: nat, s: nat, m: nat)
    ensures And(Xor(v, s), m) == 0 <==> And(v, m) == And(s, m)
    decreases m
  {
    if m != 0 {
      var x := Xor(v, s);
      Unfold(v, s);
      Unfold(x, m);
      Unfold(v, m);
      Unfold(s, m);
      assert x / 2 == Xor(v / 2, s / 2);
      assert Bit(x) == (if Bit(v) != Bit(s) then 1 else 0);
      MaskedXorZero(v / 2, s / 2, m / 2);
    }
  }

  /** `v` and `s` agree on every bit that `m` selects. */
  ghost predicate AgreeOn(m: nat, v: nat, s: nat) {
    forall i: nat :: BitAt(m, i) == 1 ==> BitAt(v, i) == BitAt(s, i)
  }

  /** The same fact bit by bit: every bit `m` selects is equal in `v` and `s`. */
  lemma {:induction false} MaskedEqualBitwise(v: nat, s: nat, m: nat)
    ensures And(v, m) == And(s, m) <==> AgreeOn(m, v, s)
    decreases m
  {
    if m == 0 {
      forall i: nat ensures BitAt(m, i) == 0 {
        ZeroBits(i);
      }
    } else {
      Unfold(v, m);
      Unfold(s, m);
      MaskedEqualBitwise(v / 2, s / 2, m / 2);
      var lowV := if Bit(v) == 1 && Bit(m) == 1 then 1 else 0;
      var lowS := if Bit(s) == 1 && Bit(m) == 1 then 1 else 0;
      assert And(v, m) == And(s, m) <==> And(v / 2, m / 2) == And(s / 2, m / 2) && lowV == lowS;
      assert lowV == lowS <==> (Bit(m) == 1 ==> Bit(v) == Bit(s));
      SelectedBitsSplit(v, s, m);
    }
  }

  /** Agreement on the selected bits is agreement on the lowest one and on
      the rest shifted down. */
  lemma SelectedBitsSplit(v: nat, s: nat, m: nat)
    ensures AgreeOn(m, v, s) <==> (Bit(m) == 1 ==> Bit(v) == Bit(s)) && AgreeOn(m / 2, v / 2, s / 2)
  {
    if AgreeOn(m, v, s) {
      forall j: nat | BitAt(m / 2, j) == 1 ensures BitAt(v / 2, j) == BitAt(s / 2, j) {
        assert BitAt(m, j + 1) == 1;
      }
      assert BitAt(m, 0) == Bit(m) && BitAt(v, 0) == Bit(v) && BitAt(s, 0) == Bit(s);
    }
    if (Bit(m) == 1 ==> Bit(v) == Bit(s)) && AgreeOn(m / 2, v / 2, s / 2) {
      forall i: nat | BitAt(m, i) == 1 ensures BitAt(v, i) == BitAt(s, i) {
        if i > 0 {
          assert BitAt(m / 2, i - 1) == 1;
        }
      }
    }
  }

  lemma {:induction false} ZeroBits(i: nat)
    ensures BitAt(0, i) == 0
  {
    if i > 0 {
      ZeroBits(i - 1);
    }
  }

  function Pow2(k: nat): (p: nat)
    ensures p > 0
  {
    if k == 0 then 1 else 2 * Pow2(k - 1)
  }

  /** Masking with a single bit isolates that bit. */
  lemma {:induction false} AndPowerOfTwo(a: nat, k: nat)
    ensures BitAt(a, k) == 1 ==> And(a, Pow2(k)) == Pow2(k)
    ensures BitAt(a, k) != 1 ==> And(a, Pow2(k)) == 0
    decreases k
  {
    if a == 0 {
      ZeroBits(k);
    } else if k == 0 {
      assert And(a / 2, 0) == 0;
    } else {
      var p := Pow2(k - 1);
      var q := Pow2(k);
      AndPowerOfTwo(a / 2, k - 1);
      assert q == 2 * p;
      assert q / 2 == p && Bit(q) == 0;
      assert And(a, q) == 2 * And(a / 2, p);
      assert BitAt(a, k) == BitAt(a / 2, k - 1);
    }
  }

  /** A single-bit mask leaves a non-zero result exactly when that bit is set. */
  lemma SingleBitMask(a: nat, k: nat)
    ensures And(a, Pow2(k)) != 0 <==> BitAt(a, k) == 1
  {
    AndPowerOfTwo(a, k);
  }
}
