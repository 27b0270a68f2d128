/** Little-endian integers, word padding and bit packing, as in the helper functions of yami.py. */
module ByteCodec {
  type byte = b: int | 0 <= b < 256
  type bytes = seq<byte>

  // ----- alignment -----

  /** Python's (v + 3) & ~3 on an unbounded, possibly negative, integer. */
  function RoundTo4(v: int): (r: int)
    ensures r % 4 == 0 && v <= r < v + 4
  {
    (v + 3) / 4 * 4
  }

  /** The writer pads to a length; the reader rounds an offset. They agree exactly at aligned offsets. */
  lemma PaddingAgreesIffAligned(offset: int, length: int)
    ensures RoundTo4(offset + length) == offset + RoundTo4(length) <==> offset % 4 == 0
  {
  }

  function Zeros(n: nat): (r: bytes)
    ensures |r| == n
  {
    seq(n, _ => 0)
  }

  // ----- fixed-width integers -----

  /** The low `width` bytes of n in two's complement, least significant first. */
  function LittleEndian(n: int, width: nat): (r: bytes)
    ensures |r| == width
    decreases width
  {
    if width == 0 then [] else [n % 256] + LittleEndian(n / 256, width - 1)
  }

  function Unsigned(bs: bytes): (n: nat) {
    if bs == [] then 0 else bs[0] + 256 * Unsigned(bs[1..])
  }

  function Modulus(width: nat): (m: nat)
    ensures m > 0
  {
    if width == 0 then 1 else 256 * Modulus(width - 1)
  }

  /** The two's complement reading of the bytes. */
  function Signed(bs: bytes): int {
    if Unsigned(bs) < Modulus(|bs|) / 2 then Unsigned(bs) else Unsigned(bs) - Modulus(|bs|)
  }

  predicate InSigned(n: int, width: nat) {
    -(Modulus(width) / 2) <= n < Modulus(width) - Modulus(width) / 2
  }

  lemma {:induction false} UnsignedRoundTrip(n: nat, width: nat)
    requires n < Modulus(width)
    ensures Unsigned(LittleEndian(n, width)) == n
    decreases width
  {
    if width > 0 {
      UnsignedRoundTrip(n / 256, width - 1);
    }
  }

  lemma {:induction false} LittleEndianWraps(n: int, width: nat)
    ensures LittleEndian(n + Modulus(width), width) == LittleEndian(n, width)
    decreases width
  {
    if width > 0 {
      var m := Modulus(width - 1);
      LittleEndianWraps(n / 256, width - 1);
      assert (n + 256 * m) / 256 == n / 256 + m;
    }
  }

  /** struct.unpack inverts struct.pack on every value the signed format accepts. */
  lemma SignedRoundTrip(n: int, width: nat)
    requires width > 0 && InSigned(n, width)
    ensures Signed(LittleEndian(n, width)) == n
  {
    var m := Modulus(width);
    assert m == 256 * Modulus(width - 1);
    if n >= 0 {
      UnsignedRoundTrip(n, width);
    } else {
      LittleEndianWraps(n, width);
      UnsignedRoundTrip(n + m, width);
    }
  }

  // ----- bits -----

  /** (n & (1 << k)) != 0 */
  predicate TestBit(n: nat, k: nat) {
    if k == 0 then n % 2 == 1 else TestBit(n / 2, k - 1)
  }

  /** n | (1 << k) */
  function SetBit(n: nat, k: nat): nat {
    if k == 0 then (if n % 2 == 1 then n else n + 1) else 2 * SetBit(n / 2, k - 1) + n % 2
  }

  lemma {:induction false} SetBitTests(n: nat, k: nat, j: nat)
    ensures TestBit(SetBit(n, k), j) <==> j == k || TestBit(n, j)
  {
    if k > 0 && j > 0 {
      SetBitTests(n / 2, k - 1, j - 1);
    }
  }

  function Pow2(k: nat): (p: nat)
    ensures p > 0
  {
    if k == 0 then 1 else 2 * Pow2(k - 1)
  }

  lemma SetBitTestsAll(n: nat, k: nat)
    ensures forall j: nat :: TestBit(SetBit(n, k), j) <==> j == k || TestBit(n, j)
  {
    forall j: nat ensures TestBit(SetBit(n, k), j) <==> j == k || TestBit(n, j) {
      SetBitTests(n, k, j);
    }
  }

  lemma {:induction false} SetBitBound(n: nat, k: nat, w: nat)
    requires n < Pow2(w) && k < w
    ensures SetBit(n, k) < Pow2(w)
  {
    var p := Pow2(w - 1);
    assert Pow2(w) == 2 * p;
    if k == 0 {
      assert SetBit(n, 0) <= n + 1;
      assert n % 2 == 1 || n + 1 < 2 * p;
    } else {
      assert n / 2 < p;
      SetBitBound(n / 2, k - 1, w - 1);
      assert SetBit(n, k) == 2 * SetBit(n / 2, k - 1) + n % 2;
    }
  }

  /** A number is determined by its bits. */
  lemma {:induction false} BitsDetermine(n: nat, m: nat)
    requires forall k: nat :: TestBit(n, k) <==> TestBit(m, k)
    ensures n == m
  {
    assert TestBit(n, 0) <==> TestBit(m, 0);
    if n > 0 || m > 0 {
      forall k: nat ensures TestBit(n / 2, k) <==> TestBit(m / 2, k) {
        assert TestBit(n, k + 1) <==> TestBit(m, k + 1);
      }
      BitsDetermine(n / 2, m / 2);
    }
  }

  lemma {:induction false} HighBitsZero(n: nat, w: nat, k: nat)
    requires n < Pow2(w) && k >= w
    ensures !TestBit(n, k)
  {
    if w > 0 {
      HighBitsZero(n / 2, w - 1, k - 1);
    } else if k > 0 {
      HighBitsZero(0, 0, k - 1);
    }
  }

  lemma Pow2Of8()
    ensures Pow2(8) == 256
  {
    assert Pow2(4) == 16;
    assert Pow2(5) == 32;
    assert Pow2(6) == 64;
  }

  function PackedSize(n: int): int { (n + 7) / 8 }

  /** What a packed bool array is: every bit of every byte is the element at its position,
      and the bits past the last element are zero. */
  ghost predicate IsPacked(bits: seq<bool>, packed: bytes) {
    && |packed| == PackedSize(|bits|)
    && forall j, k: nat :: 0 <= j < |packed| && k < 8 ==> (TestBit(packed[j], k) <==> BitAt(bits, 8 * j + k))
  }

  predicate BitAt(bits: seq<bool>, i: nat) {
    i < |bits| && bits[i]
  }

  lemma ByteBounds(b: byte, k: nat)
    ensures b < Pow2(8)
    ensures k >= 8 ==> !TestBit(b, k)
  {
    Pow2Of8();
    if k >= 8 { HighBitsZero(b, 8, k); }
  }

  lemma ZeroBits(k: nat)
    ensures !TestBit(0, k)
  {
    HighBitsZero(0, 0, k);
  }

  lemma SetBitByte(b: byte, k: nat)
    requires k < 8
    ensures SetBit(b, k) < 256
  {
    Pow2Of8();
    SetBitBound(b, k, 8);
  }

  /** The packed form is unique, so IsPacked fixes the bytes on the wire. */
  lemma PackedUnique(bits: seq<bool>, p: bytes, q: bytes)
    requires IsPacked(bits, p) && IsPacked(bits, q)
    ensures p == q
  {
    forall j | 0 <= j < |p| ensures p[j] == q[j] {
      forall k: nat ensures TestBit(p[j], k) <==> TestBit(q[j], k) {
        ByteBounds(p[j], k);
        ByteBounds(q[j], k);
      }
      BitsDetermine(p[j], q[j]);
    }
  }

  /** The packing loop of the writer, over a zero-filled array. */
  method PackBools(bits: seq<bool>) returns (packed: bytes)
    ensures packed == Packed(bits)
  {
    var a := new byte[PackedSize(|bits|)](_ => 0);
    forall k: nat ensures !TestBit(0, k) { ZeroBits(k); }
    var i := 0;
    while i < |bits|
      invariant 0 <= i <= |bits|
      invariant forall j, k: nat :: 0 <= j < a.Length && k < 8 ==> (TestBit(a[j], k) <==> BitAt(bits[..i], 8 * j + k))
    {
      var bytePosition, bitPosition := i / 8, i % 8;
      if bits[i] {
        SetBitByte(a[bytePosition], bitPosition);
        SetBitTestsAll(a[bytePosition], bitPosition);
        a[bytePosition] := SetBit(a[bytePosition], bitPosition);
      }
      i := i + 1;
    }
    assert bits[..i] == bits;
    packed := a[..];
    PackedUnique(bits, packed, Packed(bits));
  }

  /** The packed bytes as a value. */
  function Packed(bits: seq<bool>): (packed: bytes)
    ensures IsPacked(bits, packed)
  {
    seq(PackedSize(|bits|), j requires 0 <= j < PackedSize(|bits|) => PackedByte(bits, j, 8))
  }

  /** The byte whose bit k, for k < w, is element 8 * j + k. */
  function PackedByte(bits: seq<bool>, j: nat, w: nat): (b: byte)
    requires w <= 8
    ensures b < Pow2(w)
    ensures forall k: nat :: TestBit(b, k) <==> k < w && BitAt(bits, 8 * j + k)
  {
    if w == 0 then
      assert forall k: nat :: !TestBit(0, k) by { forall k: nat ensures !TestBit(0, k) { ZeroBits(k); } }
      0
    else
      var b := PackedByte(bits, j, w - 1);
      if BitAt(bits, 8 * j + w - 1) then
        SetBitByte(b, w - 1);
        SetBitBound(b, w - 1, w);
        SetBitTestsAll(b, w - 1);
        SetBit(b, w - 1)
      else b
  }

  /** What the reader makes of n packed bools. */
  function Unpack(packed: bytes, n: nat): (bits: seq<bool>)
    requires PackedSize(n) <= |packed|
    ensures |bits| == n
  {
    seq(n, i requires 0 <= i < n => TestBit(packed[i / 8], i % 8))
  }

  lemma UnpackInvertsPack(bits: seq<bool>)
    ensures Unpack(Packed(bits), |bits|) == bits
  {
    forall i | 0 <= i < |bits| ensures Unpack(Packed(bits), |bits|)[i] == bits[i] {
      assert TestBit(Packed(bits)[i / 8], i % 8) <==> BitAt(bits, 8 * (i / 8) + i % 8);
    }
  }
}
