/** Bit strings over GF(2), most significant bit first. */
module Gf2 {
  type Bits = seq<bool>

  function Zeros(n: nat): (z: Bits)
    ensures |z| == n
  {
    seq(n, _ => false)
  }

  /** The string of length `n` whose only set bit is at index `i`. */
  function Unit(n: nat, i: nat): (u: Bits)
    requires i < n
    ensures |u| == n
  {
    seq(n, k => k == i)
  }

  function Xor(a: Bits, b: Bits): (c: Bits)
    requires |a| == |b|
    ensures |c| == |a|
    ensures forall i :: 0 <= i < |a| ==> c[i] == (a[i] != b[i])
  {
    seq(|a|, i requires 0 <= i < |a| => a[i] != b[i])
  }

  /** Flips the bit at index `i`. */
  function Flip(a: Bits, i: nat): (c: Bits)
    requires i < |a|
    ensures |c| == |a|
  {
    a[i := !a[i]]
  }

  /** True iff the number of set bits is odd. */
  function Odd(a: Bits): bool {
    if |a| == 0 then false else Odd(a[..|a| - 1]) != a[|a| - 1]
  }

  lemma FlipIsXorUnit(a: Bits, i: nat)
    requires i < |a|
    ensures Flip(a, i) == Xor(a, Unit(|a|, i))
  {
  }

  lemma {:induction false} OddXor(a: Bits, b: Bits)
    requires |a| == |b|
    ensures Odd(Xor(a, b)) == (Odd(a) != Odd(b))
  {
    if |a| > 0 {
      var n := |a| - 1;
      OddXor(a[..n], b[..n]);
      assert Xor(a, b)[..n] == Xor(a[..n], b[..n]);
    }
  }

  lemma {:induction false} OddConcat(a: Bits, b: Bits)
    ensures Odd(a + b) == (Odd(a) != Odd(b))
  {
    if |b| == 0 {
      assert a + b == a;
    } else {
      var n := |b| - 1;
      OddConcat(a, b[..n]);
      assert (a + b)[..|a| + n] == a + b[..n];
    }
  }

  lemma {:induction false} OddZeros(n: nat)
    ensures !Odd(Zeros(n))
  {
    if n > 0 {
      OddZeros(n - 1);
      assert Zeros(n)[..n - 1] == Zeros(n - 1);
    }
  }

  lemma OddUnit(n: nat, i: nat)
    requires i < n
    ensures Odd(Unit(n, i))
  {
    var one: Bits := [true];
    assert Unit(n, i) == Zeros(i) + one + Zeros(n - i - 1);
    assert one[..0] == Zeros(0);
    OddConcat(Zeros(i) + one, Zeros(n - i - 1));
    OddConcat(Zeros(i), one);
    OddZeros(i);
    OddZeros(n - i - 1);
    OddZeros(0);
  }
}
