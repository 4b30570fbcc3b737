/** Unsigned integers as bit strings, most significant bit first, and bytes. */
module BitValue {
  import opened Gf2

  function Pow2(n: nat): (p: nat)
    ensures p > 0
  {
    if n == 0 then 1 else 2 * Pow2(n - 1)
  }

  function Value(a: Bits): (v: nat)
    ensures v < Pow2(|a|)
  {
    if |a| == 0 then 0 else 2 * Value(a[..|a| - 1]) + (if a[|a| - 1] then 1 else 0)
  }

  /** The `n` low bits of `v`. */
  function BitsOf(v: nat, n: nat): (a: Bits)
    ensures |a| == n
  {
    if n == 0 then [] else BitsOf(v / 2, n - 1) + [v % 2 == 1]
  }

  lemma {:induction false} Pow2Add(m: nat, n: nat)
    ensures Pow2(m + n) == Pow2(m) * Pow2(n)
  {
    if n > 0 {
      Pow2Add(m, n - 1);
    }
  }

  lemma {:induction false} Pow2Monotone(m: nat, n: nat)
    requires m <= n
    ensures Pow2(m) <= Pow2(n)
  {
    if m < n {
      Pow2Monotone(m, n - 1);
    }
  }

  lemma DivModUnique(q: int, p: nat, r: nat)
    requires r < p
    ensures (q * p + r) / p == q && (q * p + r) % p == r
  {
    var v := q * p + r;
    var e := v / p - q;
    assert e * p == r - v % p;
    assert 0 - p < e * p < p;
  }

  lemma Double(x: int, p: int)
    ensures x * (2 * p) == 2 * (x * p)
    ensures (2 * x) * p == 2 * (x * p)
    ensures (2 * x + 1) * p == 2 * (x * p) + p
  {
  }

  lemma {:induction false} ValueConcat(a: Bits, b: Bits)
    ensures Value(a + b) == Value(a) * Pow2(|b|) + Value(b)
  {
    if |b| == 0 {
      assert a + b == a;
    } else {
      var n := |b| - 1;
      var init := b[..n];
      var last := if b[n] then 1 else 0;
      assert (a + b)[..|a| + n] == a + init;
      ValueConcat(a, init);
      var x, p, y := Value(a), Pow2(n), Value(init);
      assert Value(a + b) == 2 * Value(a + init) + last;
      assert Value(a + b) == 2 * (x * p + y) + last;
      assert Pow2(|b|) == 2 * p && Value(b) == 2 * y + last;
      Double(x, p);
    }
  }

  lemma {:induction false} ValueOfBitsOf(v: nat, n: nat)
    requires v < Pow2(n)
    ensures Value(BitsOf(v, n)) == v
  {
    if n > 0 {
      ValueOfBitsOf(v / 2, n - 1);
      assert BitsOf(v, n)[..n - 1] == BitsOf(v / 2, n - 1);
    }
  }

  lemma {:induction false} BitsOfValue(a: Bits)
    ensures BitsOf(Value(a), |a|) == a
  {
    if |a| > 0 {
      BitsOfValue(a[..|a| - 1]);
    }
  }

  lemma ValueInjective(a: Bits, b: Bits)
    requires |a| == |b| && Value(a) == Value(b)
    ensures a == b
  {
    BitsOfValue(a);
    BitsOfValue(b);
  }

  lemma {:induction false} ValueOfZeros(n: nat)
    ensures Value(Zeros(n)) == 0
  {
    if n > 0 {
      ValueOfZeros(n - 1);
      assert Zeros(n)[..n - 1] == Zeros(n - 1);
    }
  }

  /** A slice of bits is a slice of the integer. */
  lemma ValueSlice(a: Bits, from: nat, to: nat)
    requires from <= to <= |a|
    ensures Value(a[from..to]) == Value(a) / Pow2(|a| - to) % Pow2(to - from)
  {
    var pre, mid, post := a[..from], a[from..to], a[to..];
    assert a == pre + mid + post;
    ValueConcat(pre + mid, post);
    DivModUnique(Value(pre + mid), Pow2(|post|), Value(post));
    ValueConcat(pre, mid);
    DivModUnique(Value(pre), Pow2(|mid|), Value(mid));
  }

  lemma {:induction false} ValueOfFlip(a: Bits, i: nat)
    requires i < |a|
    ensures var w := Pow2(|a| - 1 - i);
            Value(Flip(a, i)) == if a[i] then Value(a) - w else Value(a) + w
  {
    var n := |a| - 1;
    if i == n {
      assert Flip(a, i)[..n] == a[..n];
    } else {
      assert Flip(a, i)[..n] == Flip(a[..n], i);
      ValueOfFlip(a[..n], i);
    }
  }

  lemma {:induction false} TopBit(a: Bits)
    requires |a| > 0
    ensures a[0] <==> Value(a) >= Pow2(|a| - 1)
  {
    var n := |a| - 1;
    if n == 0 {
      assert a[..0] == [];
    } else {
      TopBit(a[..n]);
    }
  }

  lemma BitByRemainder(a: Bits, i: nat)
    requires i < |a|
    ensures a[i] <==> Value(a) % Pow2(|a| - i) >= Pow2(|a| - 1 - i)
  {
    ValueSlice(a, i, |a|);
    assert Pow2(0) == 1;
    TopBit(a[i..|a|]);
  }

  // --- Bytes -------------------------------------------------------------------

  type byte = b: int | 0 <= b < 256

  function ByteBits(b: byte): (s: Bits)
    ensures |s| == 8
  {
    BitsOf(b, 8)
  }

  lemma Pow2Values()
    ensures Pow2(0) == 1 && Pow2(1) == 2 && Pow2(2) == 4 && Pow2(3) == 8
    ensures Pow2(4) == 16 && Pow2(5) == 32 && Pow2(6) == 64 && Pow2(7) == 128
    ensures Pow2(8) == 256 && Pow2(12) == 4096 && Pow2(16) == 65536
    ensures Pow2(17) == 131072 && Pow2(23) == 0x80_0000 && Pow2(24) == 0x100_0000
  {
    assert Pow2(3) == 8;
    assert Pow2(6) == 64;
    assert Pow2(9) == 512;
    Pow2Add(8, 8);
    Pow2Add(4, 8);
    Pow2Add(16, 8);
  }

  function Flag(bit: bool): nat {
    if bit then 1 else 0
  }

  lemma ValueUpTo(s: Bits, k: nat)
    requires k < |s|
    ensures Value(s[..k + 1]) == 2 * Value(s[..k]) + Flag(s[k])
  {
    assert s[..k + 1][..k] == s[..k];
  }

  lemma FourSpelled(s: Bits)
    requires |s| == 4
    ensures Value(s) == 8 * Flag(s[0]) + 4 * Flag(s[1]) + 2 * Flag(s[2]) + Flag(s[3])
  {
    EmptyValue();
    hide Value, Flag;
    assert s[..0] == [] && s[..4] == s;
    ValueUpTo(s, 0);
    ValueUpTo(s, 1);
    ValueUpTo(s, 2);
    ValueUpTo(s, 3);
  }

  /** Eight bits are those of the byte they spell. */
  lemma ByteSpelled(b: byte, s: Bits)
    requires |s| == 8
    requires b == 128 * Flag(s[0]) + 64 * Flag(s[1]) + 32 * Flag(s[2]) + 16 * Flag(s[3])
                + 8 * Flag(s[4]) + 4 * Flag(s[5]) + 2 * Flag(s[6]) + Flag(s[7])
    ensures ByteBits(b) == s
  {
    Pow2Values();
    hide Value, Flag, Pow2, BitsOf;
    var high, low := s[..4], s[4..];
    FourSpelled(high);
    FourSpelled(low);
    ValueConcat(high, low);
    assert s == high + low;
    assert Value(s) == b;
    BitsOfValue(s);
  }

  function PackByte(s: Bits): (b: byte)
    requires |s| == 8
  {
    Pow2Values();
    Value(s)
  }

  lemma PackByteBits(b: byte)
    ensures PackByte(ByteBits(b)) == b
  {
    Pow2Values();
    ValueOfBitsOf(b, 8);
  }

  lemma ByteBitsPack(s: Bits)
    requires |s| == 8
    ensures ByteBits(PackByte(s)) == s
  {
    BitsOfValue(s);
  }

  function XorByte(a: byte, b: byte): byte {
    PackByte(Xor(ByteBits(a), ByteBits(b)))
  }

  /** A byte string as one bit string, first byte first. */
  function FrameBits(bytes: seq<byte>): (s: Bits)
    ensures |s| == 8 * |bytes|
  {
    if |bytes| == 0 then [] else FrameBits(bytes[..|bytes| - 1]) + ByteBits(bytes[|bytes| - 1])
  }

  lemma FrameBitsSnoc(a: seq<byte>, b: byte)
    ensures FrameBits(a + [b]) == FrameBits(a) + ByteBits(b)
  {
    assert (a + [b])[..|a|] == a;
  }

  lemma CutLast(bytes: seq<byte>) returns (init: seq<byte>, last: byte)
    requires |bytes| > 0
    ensures bytes == init + [last] && |init| == |bytes| - 1
  {
    init, last := bytes[..|bytes| - 1], bytes[|bytes| - 1];
  }

  lemma {:induction false} FrameBitsConcat(a: seq<byte>, b: seq<byte>)
    ensures FrameBits(a + b) == FrameBits(a) + FrameBits(b)
    decreases |b|
  {
    if |b| == 0 {
      assert a + b == a;
    } else {
      hide FrameBits, ByteBits;
      var init, last := CutLast(b);
      FrameBitsConcat(a, init);
      FrameBitsSnoc(a + init, last);
      FrameBitsSnoc(init, last);
      assert a + b == (a + init) + [last];
    }
  }

  lemma FrameBitsOne(b: byte)
    ensures FrameBits([b]) == ByteBits(b)
  {
    assert [b][..0] == [];
  }

  /** The number that bytes spell, first byte highest, one byte at a time. */
  lemma FrameValue(bytes: seq<byte>, b: byte)
    ensures Value(FrameBits(bytes + [b])) == 256 * Value(FrameBits(bytes)) + b
    ensures Value(FrameBits([])) == 0
  {
    hide ByteBits, Value;
    FrameBitsSnoc(bytes, b);
    ValueConcat(FrameBits(bytes), ByteBits(b));
    ByteValue(b);
    Pow2Values();
    EmptyValue();
  }

  lemma EmptyValue()
    ensures Value([]) == 0
  {
  }

  lemma ByteValue(b: byte)
    ensures Value(ByteBits(b)) == b
  {
    Pow2Values();
    ValueOfBitsOf(b, 8);
  }

  lemma FrameBitsThree(a: byte, b: byte, c: byte)
    ensures FrameBits([a, b, c]) == ByteBits(a) + ByteBits(b) + ByteBits(c)
  {
    FrameBitsOne(a);
    FrameBitsOne(b);
    FrameBitsOne(c);
    FrameBitsConcat([a], [b]);
    FrameBitsConcat([a] + [b], [c]);
    assert [a, b, c] == [a] + [b] + [c];
  }

  lemma {:induction false} FrameBitAt(bytes: seq<byte>, i: nat)
    requires i < 8 * |bytes|
    ensures FrameBits(bytes)[i] == ByteBits(bytes[i / 8])[i % 8]
  {
    var n := |bytes| - 1;
    if i < 8 * n {
      FrameBitAt(bytes[..n], i);
    }
  }

  lemma {:induction false} FrameBitsInjective(a: seq<byte>, b: seq<byte>)
    requires FrameBits(a) == FrameBits(b)
    ensures a == b
  {
    hide FrameBits, ByteBits, PackByte;
    assert |a| == |b|;
    if |a| > 0 {
      var n := |a| - 1;
      LastByteBits(a);
      LastByteBits(b);
      FrameBitsInjective(a[..n], b[..n]);
      PackByteBits(a[n]);
      PackByteBits(b[n]);
      assert a == a[..n] + [a[n]] && b == b[..n] + [b[n]];
    }
  }

  lemma LastByteBits(a: seq<byte>)
    requires |a| > 0
    ensures var n := |a| - 1;
            FrameBits(a[..n]) == FrameBits(a)[..8 * n] && ByteBits(a[n]) == FrameBits(a)[8 * n..]
  {
  }

  /** The byte string that a bit string of whole bytes packs into. */
  function PackBytes(s: Bits): (b: seq<byte>)
    requires |s| % 8 == 0
    ensures 8 * |b| == |s|
  {
    if |s| == 0 then [] else PackBytes(s[..|s| - 8]) + [PackByte(s[|s| - 8..])]
  }

  lemma PackBytesSnoc(init: Bits, last: Bits)
    requires |init| % 8 == 0 && |last| == 8
    ensures PackBytes(init + last) == PackBytes(init) + [PackByte(last)]
  {
    var s := init + last;
    assert s[..|s| - 8] == init && s[|s| - 8..] == last;
  }

  lemma PackStep(init: Bits, last: Bits)
    requires |init| % 8 == 0 && |last| == 8 && FrameBits(PackBytes(init)) == init
    ensures FrameBits(PackBytes(init + last)) == init + last
  {
    PackBytesSnoc(init, last);
    hide PackBytes, FrameBits, ByteBits, PackByte;
    FrameBitsSnoc(PackBytes(init), PackByte(last));
    ByteBitsPack(last);
  }

  lemma {:induction false} PackBytesBits(s: Bits)
    requires |s| % 8 == 0
    ensures FrameBits(PackBytes(s)) == s
    decreases |s|
  {
    if |s| == 0 {
      assert PackBytes(s) == [];
    } else {
      hide PackBytes, FrameBits;
      var init, last := CutLastByte(s);
      PackBytesBits(init);
      PackStep(init, last);
    }
  }

  lemma CutLastByte(s: Bits) returns (init: Bits, last: Bits)
    requires |s| > 0 && |s| % 8 == 0
    ensures s == init + last && |last| == 8 && |init| % 8 == 0
  {
    init, last := s[..|s| - 8], s[|s| - 8..];
  }

  /** `bytes` with bit `i` of the whole string flipped. */
  function FlipBit(bytes: seq<byte>, i: nat): (c: seq<byte>)
    requires i < 8 * |bytes|
    ensures |c| == |bytes|
  {
    bytes[i / 8 := XorByte(bytes[i / 8], PackByte(Unit(8, i % 8)))]
  }

  lemma FlipInByte(b: byte, k: nat)
    requires k < 8
    ensures ByteBits(XorByte(b, PackByte(Unit(8, k)))) == Flip(ByteBits(b), k)
  {
    ByteBitsPack(Unit(8, k));
    FlipIsXorUnit(ByteBits(b), k);
    ByteBitsPack(Flip(ByteBits(b), k));
  }

  lemma {:induction false} FlipBitFlips(bytes: seq<byte>, i: nat)
    requires i < 8 * |bytes|
    ensures FrameBits(FlipBit(bytes, i)) == Flip(FrameBits(bytes), i)
  {
    hide ByteBits, XorByte, PackByte, Unit;
    var n := |bytes| - 1;
    var c := FlipBit(bytes, i);
    var init, last := bytes[..n], bytes[n];
    assert bytes == init + [last];
    FrameBitsSnoc(init, last);
    FrameBitsSnoc(c[..n], c[n]);
    assert c == c[..n] + [c[n]];
    if i < 8 * n {
      assert c[..n] == FlipBit(init, i) && c[n] == last;
      FlipBitFlips(init, i);
    } else {
      assert i / 8 == n && i % 8 == i - 8 * n;
      assert c[..n] == init;
      FlipInByte(last, i - 8 * n);
    }
  }

  lemma FlipBitTwice(bytes: seq<byte>, i: nat)
    requires i < 8 * |bytes|
    ensures FlipBit(FlipBit(bytes, i), i) == bytes
  {
    FlipBitFlips(bytes, i);
    FlipBitFlips(FlipBit(bytes, i), i);
    FrameBitsInjective(FlipBit(FlipBit(bytes, i), i), bytes);
  }
}
