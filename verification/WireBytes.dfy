/** The bytes on the wire, position by position, in numbers. */
module WireBytes {
  import opened Outcomes
  import opened ByteCodec
  import opened Remainders
  import Utf8
  import opened SlotTable
  import opened WireFormat

  // ----- integers -----

  lemma DivTwice(n: int, a: nat, b: nat)
    requires a > 0 && b > 0
    ensures a * b > 0 && n / a / b == n / (a * b)
  {
    var q, r := n / a, n % a;
    var q', r' := q / b, q % b;
    assert a * b > 0 by { ProductPositive(a, b); }
    assert n == a * q + r && q == b * q' + r';
    assert a * (b * q') == (a * b) * q' && a * (b * q' + r') == a * (b * q') + a * r';
    assert n == (a * b) * q' + (a * r' + r);
    assert 0 <= a * r' + r < a * b by { BelowProduct(a, b, r, r'); }
    RemainderUnique(n, a * b, q', a * r' + r);
  }

  lemma ProductPositive(a: nat, b: nat)
    requires a > 0 && b > 0
    ensures a * b > 0
  {
  }

  lemma BelowProduct(a: nat, b: nat, r: nat, r': nat)
    requires r < a && r' < b
    ensures 0 <= a * r' + r < a * b
  {
    assert a * (r' + 1) <= a * b;
    assert a * (r' + 1) == a * r' + a;
  }

  /** Byte k of an integer is its k-th digit to base 256, in two's complement for negative ones. */
  lemma {:induction false} LittleEndianAt(n: int, width: nat, k: nat)
    requires k < width
    ensures LittleEndian(n, width)[k] == n / Modulus(k) % 256
    decreases k
  {
    if k > 0 {
      LittleEndianAt(n / 256, width - 1, k - 1);
      DivTwice(n, 256, Modulus(k - 1));
    }
  }

  lemma Powers()
    ensures Modulus(0) == 1 && Modulus(1) == 0x100 && Modulus(2) == 0x1_0000 && Modulus(3) == 0x100_0000
    ensures Modulus(4) == 0x1_0000_0000 && Modulus(5) == 0x100_0000_0000 && Modulus(6) == 0x1_0000_0000_0000
    ensures Modulus(7) == 0x100_0000_0000_0000 && Modulus(8) == 0x1_0000_0000_0000_0000
  {
    assert Modulus(3) == 256 * Modulus(2) && Modulus(5) == 256 * Modulus(4) && Modulus(7) == 256 * Modulus(6);
  }

  /** A 32-bit integer takes four bytes, least significant first. */
  lemma IntBytes(i: int)
    ensures EncInt(i) == [i % 0x100, i / 0x100 % 0x100, i / 0x1_0000 % 0x100, i / 0x100_0000 % 0x100]
    ensures InInt(i) <==> -0x8000_0000 <= i < 0x8000_0000
  {
    Ranges();
    Powers();
    LittleEndianAt(i, 4, 0);
    LittleEndianAt(i, 4, 1);
    LittleEndianAt(i, 4, 2);
    LittleEndianAt(i, 4, 3);
  }

  /** A 64-bit integer, or the pattern of a float, takes eight. */
  lemma LongBytes(l: int)
    ensures EncLong(l) == [l % 0x100, l / 0x100 % 0x100, l / 0x1_0000 % 0x100, l / 0x100_0000 % 0x100,
                           l / 0x1_0000_0000 % 0x100, l / 0x100_0000_0000 % 0x100,
                           l / 0x1_0000_0000_0000 % 0x100, l / 0x100_0000_0000_0000 % 0x100]
    ensures InLong(l) <==> -0x8000_0000_0000_0000 <= l < 0x8000_0000_0000_0000
    ensures 0 <= l < 0x1_0000_0000_0000_0000 ==> EncFloat(l) == EncLong(l)
  {
    hide LittleEndian;
    Powers();
    forall k: nat | k < 8 ensures EncLong(l)[k] == l / Modulus(k) % 256 { LittleEndianAt(l, 8, k); }
  }

  lemma {:induction false} BytesOfUnsigned(bs: bytes)
    ensures LittleEndian(Unsigned(bs), |bs|) == bs
  {
    if bs != [] {
      var low, high := bs[0], Unsigned(bs[1..]);
      BytesOfUnsigned(bs[1..]);
      LowByte(low, high);
      assert Unsigned(bs) == low as int + 256 * high;
      assert LittleEndian(Unsigned(bs), |bs|) == [low] + LittleEndian(high, |bs| - 1);
    }
  }

  lemma LowByte(low: byte, high: nat)
    ensures (low as int + 256 * high) % 256 == low as int && (low as int + 256 * high) / 256 == high
  {
  }

  lemma EvenModulus(width: nat)
    requires width > 0
    ensures Modulus(width) % 2 == 0
  {
    assert Modulus(width) == 2 * (128 * Modulus(width - 1));
  }

  lemma BytesOfSigned(bs: bytes)
    requires bs != []
    ensures InSigned(Signed(bs), |bs|) && LittleEndian(Signed(bs), |bs|) == bs
  {
    hide Unsigned, LittleEndian, Modulus;
    EvenModulus(|bs|);
    UnsignedBelowModulus(bs);
    BytesOfUnsigned(bs);
    LittleEndianWraps(Signed(bs), |bs|);
  }

  /** Where the `width` bytes at an offset begin; a negative offset counts from the end. */
  function Start(buf: bytes, offset: int): int {
    if offset < 0 then offset + |buf| else offset
  }

  /** Reading a number from any bytes: the one whose bytes they are, or struct.error when there are too few. */
  lemma NumbersRead(buf: bytes, offset: int)
    ensures var at := Start(buf, offset);
            && (if 0 <= at <= |buf| - 4 then
                  var r := ReadInt(buf, offset);
                  r.Ok? && r.value.1 == offset + 4 && EncInt(r.value.0) == buf[at..at + 4] && InInt(r.value.0)
                else ReadInt(buf, offset) == Err(StructError))
            && (if 0 <= at <= |buf| - 8 then
                  var r, f := ReadLong(buf, offset), ReadFloat(buf, offset);
                  && r.Ok? && r.value.1 == offset + 8 && EncLong(r.value.0) == buf[at..at + 8] && InLong(r.value.0)
                  && f.Ok? && f.value.1 == offset + 8 && EncFloat(f.value.0) == buf[at..at + 8]
                else ReadLong(buf, offset) == Err(StructError) && ReadFloat(buf, offset) == Err(StructError))
  {
    hide Signed, Unsigned, LittleEndian, InSigned;
    var at := Start(buf, offset);
    if 0 <= at <= |buf| - 4 { BytesOfSigned(buf[at..at + 4]); }
    if 0 <= at <= |buf| - 8 {
      BytesOfSigned(buf[at..at + 8]);
      BytesOfUnsigned(buf[at..at + 8]);
    }
  }

  // ----- text and binary -----

  /** The content itself, and then zeros up to the next word boundary of the recorded length. */
  lemma ContentBytes(content: bytes, length: nat)
    ensures |EncContent(content, length)| == |content| + (4 - length % 4) % 4
    ensures EncContent(content, length)[..|content|] == content
    ensures forall k | |content| <= k < |EncContent(content, length)| :: EncContent(content, length)[k] == 0
  {
  }

  /** Text: the number of characters, the UTF-8 bytes, and zeros. */
  lemma StringBytes(s: string)
    ensures var bs, n := EncString(s), |Utf8.Encode(s)|;
            && |bs| == 4 + n + (4 - |s| % 4) % 4
            && bs[..4] == EncInt(|s|) && bs[4..4 + n] == Utf8.Encode(s)
            && forall k | 4 + n <= k < |bs| :: bs[k] == 0
  {
    hide EncInt, EncContent, Utf8.Encode;
    ContentBytes(Utf8.Encode(s), |s|);
    var content := EncContent(Utf8.Encode(s), |s|);
    assert EncString(s)[4..] == content;
    assert forall k | 4 <= k < |EncString(s)| :: EncString(s)[k] == content[k - 4];
  }

  /** ASCII text is one byte per character. */
  lemma {:induction false} AsciiBytes(s: string)
    requires Utf8.Ascii(s)
    ensures |Utf8.Encode(s)| == |s| && forall k | 0 <= k < |s| :: Utf8.Encode(s)[k] == s[k] as int
  {
    if s != [] { AsciiBytes(s[1..]); }
  }

  lemma BinaryBytes(b: bytes)
    ensures var bs := EncBinary(b);
            && |bs| == 4 + |b| + (4 - |b| % 4) % 4 && bs[..4] == EncInt(|b|) && bs[4..4 + |b|] == b
            && forall k | 4 + |b| <= k < |bs| :: bs[k] == 0
  {
    hide EncInt, EncContent;
    ContentBytes(b, |b|);
    var content := EncContent(b, |b|);
    assert EncBinary(b)[4..] == content;
    assert forall k | 4 <= k < |EncBinary(b)| :: EncBinary(b)[k] == content[k - 4];
  }

  /** Content read from any bytes: a slice, as short as the buffer makes it, and the next aligned offset. A negative
      length makes the slice end before the offset, counted from the end of the buffer when it gets below zero. */
  lemma ContentRead(buf: bytes, offset: nat, length: int)
    ensures var (content, end) := ReadContent(buf, offset, length);
            var hi := if offset + length < 0 then offset + length + |buf| else offset + length;
            && end % 4 == 0 && offset + length <= end < offset + length + 4
            && |content|
               == (if offset < hi <= |buf| then hi - offset else if offset < |buf| < hi then |buf| - offset else 0)
            && forall k | 0 <= k < |content| :: content[k] == buf[offset + k]
  {
  }

  /** Text read from any bytes is what those bytes encode; UnicodeDecodeError if they encode nothing. */
  lemma TextRead(buf: bytes, offset: int)
    requires ReadBinary(buf, offset).Ok?
    ensures var (content, end) := ReadBinary(buf, offset).value;
            match ReadString(buf, offset)
            case Ok((s, o)) => Utf8.Encode(s) == content && o == end
            case Err(e) => e == UnicodeError && forall s :: Utf8.Encode(s) != content
  {
    hide ReadBinary, Utf8.Encode, Utf8.Decode;
    Utf8.DecodeFailsIff(ReadBinary(buf, offset).value.0);
  }

  /** Binary read from any bytes: a length and that much content; without a length, struct.error. */
  lemma BinaryRead(buf: bytes, offset: int)
    ensures match ReadInt(buf, offset)
            case Ok((n, o)) => ReadBinary(buf, offset) == Ok(ReadContent(buf, o, n))
            case Err(e) => ReadBinary(buf, offset) == Err(e) && ReadString(buf, offset) == Err(e)
                           && ReadBools(buf, offset) == Err(e)
  {
  }

  // ----- refusals -----

  /** An entry whose name and type code are read, and whose value begins at `start`. */
  ghost predicate Opens(buf: bytes, offset: int, code: int, start: int) {
    ReadString(buf, offset).Ok? && ReadInt(buf, ReadString(buf, offset).value.1) == Ok((code, start))
  }

  /** An entry fails as its name or its type code does. */
  lemma UnopenedRefused(buf: bytes, offset: int, depth: nat)
    ensures ReadString(buf, offset).Err? ==> ReadEntry(buf, offset, depth) == Err(ReadString(buf, offset).error)
    ensures var name := ReadString(buf, offset);
            name.Ok? && ReadInt(buf, name.value.1).Err? ==>
              ReadEntry(buf, offset, depth) == Err(ReadInt(buf, name.value.1).error)
  {
    hide ReadString, ReadInt, ReadValue;
  }

  /** A type code that is not 1 to 14 is a ValueError. */
  lemma CodeRefused(buf: bytes, offset: int, depth: nat, code: int, start: int)
    requires Opens(buf, offset, code, start) && (code < 1 || code > 14)
    ensures ReadEntry(buf, offset, depth) == Err(ValueError)
  {
    hide ReadString, ReadInt;
  }

  /** A list without elements, or with a negative count, is a TypeError. */
  lemma EmptyListRefused(buf: bytes, offset: int, depth: nat, code: int, start: int, count: int)
    requires Opens(buf, offset, code, start) && (7 <= code <= 12 || code == 14)
    requires ReadInt(buf, start) == Ok((count, start + 4)) && count <= 0
    ensures ReadEntry(buf, offset, depth) == Err(TypeError)
  {
    hide ReadString, ReadInt, ReadLong, ReadFloat, ReadBinary, ReadNested;
    match code
    case 7 => assert ReadBools(buf, start).Ok? && ReadBools(buf, start).value.0 == [];
    case 8 => assert ReadArray(buf, start, ReadInt) == Ok(([], start + 4));
    case 9 => assert ReadArray(buf, start, ReadLong) == Ok(([], start + 4));
    case 10 => assert ReadArray(buf, start, ReadFloat) == Ok(([], start + 4));
    case 11 => assert ReadArray(buf, start, ReadString) == Ok(([], start + 4));
    case 12 => assert ReadArray(buf, start, ReadBinary) == Ok(([], start + 4));
    case _ => assert ReadNestedMany(buf, start + 4, count, depth) == Ok(([], start + 4));
  }

  /** Fewer packed bytes than bools is an IndexError. */
  lemma ShortBitsRefused(buf: bytes, offset: int, depth: nat, start: nat, count: int)
    requires Opens(buf, offset, 7, start)
    requires ReadInt(buf, start) == Ok((count, start + 4)) && count > 0 && start + 4 + (count + 7) / 8 > |buf|
    ensures ReadEntry(buf, offset, depth) == Err(IndexError)
  {
    hide ReadString, ReadInt, ReadContent;
    ContentRead(buf, start + 4, PackedSize(count));
    assert ReadBools(buf, start) == Err(IndexError);
  }

  /** A value that cannot be read is refused with its own error, which for every type is that of its first number. */
  lemma ValueRefused(buf: bytes, offset: int, depth: nat, code: int, start: int)
    requires Opens(buf, offset, code, start) && depth > 0
    ensures 1 <= code <= 14 && code != 3 && code != 4 && ReadInt(buf, start).Err? ==>
              ReadEntry(buf, offset, depth) == Err(StructError)
    ensures code == 3 && ReadLong(buf, start).Err? ==> ReadEntry(buf, offset, depth) == Err(StructError)
    ensures code == 4 && ReadFloat(buf, start).Err? ==> ReadEntry(buf, offset, depth) == Err(StructError)
  {
    hide ReadString, ReadLong, ReadFloat, ReadInt, InsertAll;
    NumbersRead(buf, start);
    if 1 <= code <= 14 && ReadInt(buf, start).Err? {
      match code
      case 5 => assert ReadString(buf, start) == Err(StructError) by { BinaryRead(buf, start); }
      case 11 => assert ReadArray(buf, start, ReadString) == Err(StructError);
      case 13 => assert ReadNested(buf, start, depth) == Err(StructError);
      case _ =>
    }
  }

  // ----- payloads -----

  /** The type codes. */
  lemma TypeCodes(v: Value)
    ensures v.Bool? <==> TypeCode(v) == 1
    ensures v.Int? <==> TypeCode(v) == 2
    ensures v.Long? <==> TypeCode(v) == 3
    ensures v.Float? <==> TypeCode(v) == 4
    ensures v.Str? <==> TypeCode(v) == 5
    ensures v.Blob? <==> TypeCode(v) == 6
    ensures v.Bools? <==> TypeCode(v) == 7
    ensures v.Ints? <==> TypeCode(v) == 8
    ensures v.Longs? <==> TypeCode(v) == 9
    ensures v.Floats? <==> TypeCode(v) == 10
    ensures v.Strs? <==> TypeCode(v) == 11
    ensures v.Blobs? <==> TypeCode(v) == 12
    ensures v.Nested? <==> TypeCode(v) == 13
    ensures v.NestedList? <==> TypeCode(v) == 14
  {
  }

  /** A bool is a word, 1 or 0; the other scalars are as above. */
  lemma ScalarPayloads(i: int, f: Float64, s: string, b: bytes)
    ensures EncPayload(Bool(true)) == [1, 0, 0, 0] && EncPayload(Bool(false)) == [0, 0, 0, 0]
    ensures EncPayload(Int(i)) == EncInt(i) && EncPayload(Long(i)) == EncLong(i) && EncPayload(Float(f)) == EncFloat(f)
    ensures EncPayload(Str(s)) == EncString(s) && EncPayload(Blob(b)) == EncBinary(b)
  {
    hide LittleEndian, EncInt;
    IntBytes(1);
    IntBytes(0);
  }

  lemma {:induction false} ManyAt<T>(xs: seq<T>, enc: T -> bytes, width: nat, k: nat)
    requires forall x :: |enc(x)| == width
    requires k < |xs|
    ensures |EncMany(xs, enc)| == width * |xs| && 0 <= width * k && width * k + width <= |EncMany(xs, enc)|
    ensures EncMany(xs, enc)[width * k..width * k + width] == enc(xs[k])
    decreases |xs|
  {
    ManyLength(xs, enc, width);
    ManyLength(xs[1..], enc, width);
    var all, head, rest := EncMany(xs, enc), enc(xs[0]), EncMany(xs[1..], enc);
    if k == 0 {
      assert width * 0 == 0;
      assert width * |xs| == width + width * |xs[1..]|;
      assert all[..width] == head;
    } else {
      ManyAt(xs[1..], enc, width, k - 1);
      assert width * k == width + width * (k - 1);
      assert all[width * k..width * k + width] == rest[width * (k - 1)..width * (k - 1) + width];
    }
  }

  lemma {:induction false} ManyLength<T>(xs: seq<T>, enc: T -> bytes, width: nat)
    requires forall x :: |enc(x)| == width
    ensures |EncMany(xs, enc)| == width * |xs|
    decreases |xs|
  {
    if xs == [] {
      assert width * 0 == 0;
    } else {
      ManyLength(xs[1..], enc, width);
      assert width * |xs| == width + width * |xs[1..]|;
    }
  }

  lemma AfterCount(count: bytes, rest: bytes, lo: nat, hi: nat)
    requires |count| == 4 && lo <= hi <= |rest|
    ensures (count + rest)[..4] == count && (count + rest)[4 + lo..4 + hi] == rest[lo..hi]
  {
    assert (count + rest)[4..] == rest;
    assert (count + rest)[4 + lo..4 + hi] == (count + rest)[4..][lo..hi];
  }

  /** Arrays of numbers: the count, and element k at its place. */
  lemma NumberArrays(xs: seq<int>, fs: seq<Float64>, k: nat)
    ensures k < |xs| ==>
              var bs := EncPayload(Ints(xs));
              |bs| == 4 + 4 * |xs| && bs[..4] == EncInt(|xs|) && bs[4 + 4 * k..8 + 4 * k] == EncInt(xs[k])
    ensures k < |xs| ==>
              var bs := EncPayload(Longs(xs));
              |bs| == 4 + 8 * |xs| && bs[..4] == EncInt(|xs|) && bs[4 + 8 * k..12 + 8 * k] == EncLong(xs[k])
    ensures k < |fs| ==>
              var bs := EncPayload(Floats(fs));
              |bs| == 4 + 8 * |fs| && bs[..4] == EncInt(|fs|) && bs[4 + 8 * k..12 + 8 * k] == EncFloat(fs[k])
  {
    hide EncInt, EncLong, EncFloat, EncMany;
    if k < |xs| {
      ManyAt(xs, EncInt, 4, k);
      ManyAt(xs, EncLong, 8, k);
      AfterCount(EncInt(|xs|), EncMany(xs, EncInt), 4 * k, 4 * k + 4);
      AfterCount(EncInt(|xs|), EncMany(xs, EncLong), 8 * k, 8 * k + 8);
    }
    if k < |fs| {
      ManyAt(fs, EncFloat, 8, k);
      AfterCount(EncInt(|fs|), EncMany(fs, EncFloat), 8 * k, 8 * k + 8);
    }
  }

  // ----- bits -----

  lemma {:induction false} BitIsDigit(n: nat, k: nat)
    ensures TestBit(n, k) <==> n / Pow2(k) % 2 == 1
  {
    if k > 0 {
      BitIsDigit(n / 2, k - 1);
      DivTwice(n, 2, Pow2(k - 1));
    }
  }

  lemma PowersOfTwo()
    ensures Pow2(0) == 1 && Pow2(1) == 2 && Pow2(2) == 4 && Pow2(3) == 8
    ensures Pow2(4) == 16 && Pow2(5) == 32 && Pow2(6) == 64 && Pow2(7) == 128
  {
    assert Pow2(4) == 2 * Pow2(3) && Pow2(6) == 2 * Pow2(5);
  }

  /** A bool array: the count, ceil(n/8) bytes whose bit i % 8 of byte i / 8 is element i, and zeros. */
  lemma BoolArray(xs: seq<bool>, i: nat)
    requires i < |xs|
    ensures var bs, n := EncPayload(Bools(xs)), (|xs| + 7) / 8;
            && |bs| == 4 + n + (4 - n % 4) % 4 && bs[..4] == EncInt(|xs|)
            && (bs[4 + i / 8] / Pow2(i % 8) % 2 == 1 <==> xs[i])
            && forall k | 4 + n <= k < |bs| :: bs[k] == 0
  {
    hide EncInt, EncContent, Packed;
    var packed := Packed(xs);
    var n := (|xs| + 7) / 8;
    ContentBytes(packed, n);
    BitIsDigit(packed[i / 8], i % 8);
    assert TestBit(packed[i / 8], i % 8) <==> BitAt(xs, 8 * (i / 8) + i % 8);
    var bs, content := EncPayload(Bools(xs)), EncContent(packed, n);
    assert bs == EncInt(|xs|) + content;
    assert bs[4 + i / 8] == content[..n][i / 8];
    assert forall k | 4 <= k < |bs| :: bs[k] == content[k - 4];
  }

  // ----- entries and collections -----

  /** An entry with a one-letter name: the name, the type code, the payload. */
  lemma OneLetterEntry(c: char, v: Value)
    requires c as int < 0x80
    ensures EncEntry(Entry([c], v)) == [1, 0, 0, 0, c as int, 0, 0, 0, TypeCode(v), 0, 0, 0] + EncPayload(v)
  {
    hide EncInt, EncString, EncPayload, TypeCode;
    IntBytes(TypeCode(v));
    OneLetter(c);
    assert EncString([c]) + EncInt(TypeCode(v)) == [1, 0, 0, 0, c as int, 0, 0, 0, TypeCode(v), 0, 0, 0];
  }

  lemma OneLetter(c: char)
    requires c as int < 0x80
    ensures EncString([c]) == [1, 0, 0, 0, c as int, 0, 0, 0]
  {
    hide EncInt;
    IntBytes(1);
    StringBytes([c]);
    AsciiBytes([c]);
  }

  /** A collection is the count of its used slots and then their entries in slot order; empty slots leave no trace. */
  lemma CollectionBytes(c: Collection)
    requires Consistent(c)
    ensures Encode(c) == EncInt(|Items(c.slots)|) + EncMany(Items(c.slots), EncEntry)
  {
    hide EncInt, EncSlots, EncMany, EncEntry, Items;
    CountIsItems(c);
    SlotsAreEntries(c.slots);
  }

  lemma {:induction false} SlotsAreEntries(slots: seq<Slot>)
    ensures EncSlots(slots) == EncMany(Items(slots), EncEntry)
  {
    hide EncEntry;
    if slots != [] {
      SlotsAreEntries(slots[1..]);
      if slots[0].Used? {
        assert Items(slots)[0] == slots[0].entry && Items(slots)[1..] == Items(slots[1..]);
      }
    }
  }

  /** A nested collection is its bytes; a list of them is the count and the bytes of each. */
  lemma NestedPayloads(c: Collection, cs: seq<Collection>)
    ensures EncPayload(Nested(c)) == Encode(c)
    ensures EncPayload(NestedList(cs)) == EncInt(|cs|) + EncMany(cs, Encode)
  {
    hide EncInt, Encode;
    ListBytes(cs);
  }

  lemma {:induction false} ListBytes(cs: seq<Collection>)
    ensures EncodeList(cs) == EncMany(cs, Encode)
  {
    hide Encode;
    if cs != [] { ListBytes(cs[1..]); }
  }

  /** Serializing {"b": True} with an empty slot before it and another after it. */
  lemma SerializedExample(c: Collection)
    requires c == Collection([Hole, Used(Entry("b", Bool(true))), Hole], map["b" := 1])
    ensures Encode(c) == [1, 0, 0, 0] + ([1, 0, 0, 0, 98, 0, 0, 0, 1, 0, 0, 0] + [1, 0, 0, 0])
  {
    hide EncInt, EncEntry, EncPayload, EncSlots;
    IntBytes(1);
    OneLetterEntry('b', Bool(true));
    ScalarPayloads(0, 0, "", []);
    assert |c.index| == 1;
    OneUsedSlot(c.slots[1].entry);
  }

  lemma OneUsedSlot(e: Entry)
    ensures EncSlots([Hole, Used(e), Hole]) == EncEntry(e)
  {
    hide EncEntry;
    var slots := [Hole, Used(e), Hole];
    assert slots[1..] == [Used(e), Hole] && slots[1..][1..] == [Hole] && slots[1..][1..][1..] == [];
    assert EncSlots(slots[1..][1..]) == [];
    assert EncSlots(slots[1..]) == EncEntry(e);
  }

  // ----- what can be written -----

  /** What serialize() accepts: integers in range, and every length and count below 2^31. */
  lemma FitsExactly(v: Value)
    ensures v.Int? ==> (Fits(v) <==> -0x8000_0000 <= v.i < 0x8000_0000)
    ensures v.Long? ==> (Fits(v) <==> -0x8000_0000_0000_0000 <= v.l < 0x8000_0000_0000_0000)
    ensures v.Bool? || v.Float? ==> Fits(v)
    ensures v.Str? ==> (Fits(v) <==> |v.s| < 0x8000_0000)
    ensures v.Blob? ==> (Fits(v) <==> |v.bs| < 0x8000_0000)
    ensures v.Bools? ==> (Fits(v) <==> |v.bools| < 0x8000_0000)
    ensures v.Floats? ==> (Fits(v) <==> |v.floats| < 0x8000_0000)
    ensures v.Ints? ==> (Fits(v) <==> |v.ints| < 0x8000_0000 && forall x | x in v.ints :: Fits(Int(x)))
    ensures v.Longs? ==> (Fits(v) <==> |v.longs| < 0x8000_0000 && forall x | x in v.longs :: Fits(Long(x)))
    ensures v.Strs? ==> (Fits(v) <==> |v.strs| < 0x8000_0000 && forall x | x in v.strs :: Fits(Str(x)))
    ensures v.Blobs? ==> (Fits(v) <==> |v.blobs| < 0x8000_0000 && forall x | x in v.blobs :: Fits(Blob(x)))
    ensures v.NestedList? ==> (Fits(v) <==> |v.list| < 0x8000_0000 && forall x | x in v.list :: Fits(Nested(x)))
  {
    hide InInt, InLong, FitsCollection, AllOf;
    Ranges();
    match v
    case Ints(xs) => AllOfIn(xs, InInt);
    case Longs(xs) => AllOfIn(xs, InLong);
    case Strs(xs) => AllOfIn(xs, FitsString);
    case Blobs(xs) => AllOfIn(xs, FitsBinary);
    case NestedList(cs) => ListFits(cs);
    case _ =>
  }

  lemma AllOfIn<T>(xs: seq<T>, p: T -> bool)
    ensures AllOf(xs, p) <==> forall x | x in xs :: p(x)
  {
    assert AllOf(xs, p) ==> forall x | x in xs :: p(x) by {
      if AllOf(xs, p) { assert forall i | 0 <= i < |xs| :: p(xs[i]); }
    }
  }

  lemma Ranges()
    ensures forall n {:trigger InInt(n)} :: InInt(n) <==> -0x8000_0000 <= n < 0x8000_0000
    ensures forall n {:trigger InLong(n)} :: InLong(n) <==> -0x8000_0000_0000_0000 <= n < 0x8000_0000_0000_0000
  {
    Powers();
  }

  lemma FirstOrRest<T>(xs: seq<T>)
    requires xs != []
    ensures forall x :: x in xs <==> x == xs[0] || x in xs[1..]
  {
    assert xs == [xs[0]] + xs[1..];
  }

  lemma {:induction false} ListFits(cs: seq<Collection>)
    ensures FitsList(cs) <==> forall x | x in cs :: Fits(Nested(x))
  {
    hide FitsCollection;
    if cs != [] {
      ListFits(cs[1..]);
      FirstOrRest(cs);
      assert FitsList(cs) <==> Fits(Nested(cs[0])) && FitsList(cs[1..]);
      assert cs[0] in cs && forall x | x in cs[1..] :: x in cs;
    }
  }

  /** A collection fits when the number of its entries, their names and their values do. */
  lemma CollectionFits(c: Collection)
    requires Consistent(c)
    ensures FitsCollection(c) <==>
              |c.index| < 0x8000_0000 && forall e | e in Items(c.slots) :: |e.name| < 0x8000_0000 && Fits(e.value)
  {
    hide Items, Fits, FitsSlots, InInt;
    Ranges();
    SlotsFit(c.slots);
  }

  lemma EntryFits(slot: Slot)
    ensures FitsSlot(slot) <==> slot.Used? ==> |slot.entry.name| < 0x8000_0000 && Fits(slot.entry.value)
  {
    Ranges();
  }

  lemma {:induction false} SlotsFit(slots: seq<Slot>)
    ensures FitsSlots(slots) <==> forall e | e in Items(slots) :: |e.name| < 0x8000_0000 && Fits(e.value)
  {
    hide Fits, FitsSlot;
    if slots != [] {
      SlotsFit(slots[1..]);
      EntryFits(slots[0]);
      if slots[0].Used? {
        assert Items(slots)[1..] == Items(slots[1..]);
        FirstOrRest(Items(slots));
        assert Items(slots)[0] == slots[0].entry && slots[0].entry in Items(slots);
        assert forall e | e in Items(slots[1..]) :: e in Items(slots);
      }
      assert FitsSlots(slots) <==> FitsSlot(slots[0]) && FitsSlots(slots[1..]);
    }
  }
}
