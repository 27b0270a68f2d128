/** Reading what was written: self-delimiting at every aligned offset, and the identity up to empty slots
    exactly when all text is ASCII. */
module WireRoundTrip {
  import opened Outcomes
  import opened ByteCodec
  import Utf8
  import opened SlotTable
  import opened WireFormat

  /** The bytes bs sit in buf at this offset; anything may surround them. */
  ghost predicate At(buf: bytes, offset: int, bs: bytes) {
    0 <= offset && offset + |bs| <= |buf| && buf[offset..offset + |bs|] == bs
  }

  lemma AtSplit(buf: bytes, offset: int, a: bytes, b: bytes)
    requires At(buf, offset, a + b)
    ensures At(buf, offset, a) && At(buf, offset + |a|, b)
  {
    assert buf[offset..offset + |a|] == (a + b)[..|a|];
    assert buf[offset + |a|..offset + |a| + |b|] == (a + b)[|a|..];
  }

  /** The outcome of reading back x: when x is good, x itself and the offset after it; otherwise an error or
      some other value. */
  ghost predicate Reads<T>(r: Read<T>, x: T, end: int, good: bool) {
    if good then r == Ok((x, end)) else r.Ok? ==> r.value.0 != x
  }

  // ----- leaves -----

  lemma ReadIntAt(buf: bytes, offset: int, i: int)
    requires At(buf, offset, EncInt(i)) && InInt(i)
    ensures ReadInt(buf, offset) == Ok((i, offset + 4))
  {
    SignedRoundTrip(i, 4);
  }

  lemma ReadLongAt(buf: bytes, offset: int, l: int)
    requires At(buf, offset, EncLong(l)) && InLong(l)
    ensures ReadLong(buf, offset) == Ok((l, offset + 8))
  {
    SignedRoundTrip(l, 8);
  }

  lemma ReadFloatAt(buf: bytes, offset: int, f: Float64)
    requires At(buf, offset, EncFloat(f))
    ensures ReadFloat(buf, offset) == Ok((f, offset + 8))
  {
    ModulusOf8();
    UnsignedRoundTrip(f, 8);
  }

  /** The writer's length-relative padding and the reader's rounding of the offset meet. */
  lemma ReadContentAt(buf: bytes, offset: int, content: bytes, length: nat)
    requires offset % 4 == 0 && length <= |content| && At(buf, offset, EncContent(content, length))
    ensures ReadContent(buf, offset, length) == (content[..length], offset + RoundTo4(length))
  {
    AtSplit(buf, offset, content, Zeros(RoundTo4(length) - length));
    assert buf[offset..offset + length] == content[..length];
    PaddingAgreesIffAligned(offset, length);
  }

  lemma ReadBinaryAt(buf: bytes, offset: int, content: bytes, length: nat)
    requires offset % 4 == 0 && length <= |content| && InInt(length)
    requires At(buf, offset, EncInt(length) + EncContent(content, length))
    ensures ReadBinary(buf, offset) == Ok((content[..length], offset + 4 + RoundTo4(length)))
  {
    AtSplit(buf, offset, EncInt(length), EncContent(content, length));
    ReadIntAt(buf, offset, length);
    ReadContentAt(buf, offset + 4, content, length);
  }

  lemma ReadBlobAt(buf: bytes, offset: int, bs: bytes)
    requires offset % 4 == 0 && FitsBinary(bs) && At(buf, offset, EncBinary(bs))
    ensures ReadBinary(buf, offset) == Ok((bs, offset + |EncBinary(bs)|))
    ensures |EncBinary(bs)| % 4 == 0
  {
    hide ReadBinary, At, EncInt, InInt;
    ReadBinaryAt(buf, offset, bs, |bs|);
    assert bs[..|bs|] == bs;
  }

  /** Text comes back exactly when it is ASCII: the recorded length counts characters, not bytes. */
  lemma ReadStringAt(buf: bytes, offset: int, s: string)
    requires offset % 4 == 0 && FitsString(s) && At(buf, offset, EncString(s))
    ensures Reads(ReadString(buf, offset), s, offset + |EncString(s)|, Utf8.Ascii(s))
    ensures Utf8.Ascii(s) ==> |EncString(s)| % 4 == 0
  {
    hide ReadString, At, EncString, FitsString, Utf8.Ascii;
    var end := offset + 4 + RoundTo4(|s|);
    ReadTextAt(buf, offset, s, end);
    StringAligned(s);
  }

  lemma ReadTextAt(buf: bytes, offset: int, s: string, end: int)
    requires offset % 4 == 0 && FitsString(s) && At(buf, offset, EncString(s))
    requires end == offset + 4 + RoundTo4(|s|)
    ensures Reads(ReadString(buf, offset), s, end, Utf8.Ascii(s))
  {
    hide ReadString, ReadBinary, At, EncInt, EncContent, Utf8.Encode, Utf8.Ascii, Utf8.Decode, InInt;
    ReadBinaryAt(buf, offset, Utf8.Encode(s), |s|);
    DecodePrefix(s);
    ReadStringStep(buf, offset, Utf8.Encode(s)[..|s|], end);
  }

  lemma StringAligned(s: string)
    ensures Utf8.Ascii(s) ==> |EncString(s)| == 4 + RoundTo4(|s|)
  {
    hide EncInt, Utf8.Encode, Utf8.Ascii;
    Utf8.LengthIffAscii(s);
  }

  lemma ReadStringStep(buf: bytes, offset: int, content: bytes, end: int)
    requires ReadBinary(buf, offset) == Ok((content, end))
    ensures Utf8.Decode(content).None? ==> ReadString(buf, offset).Err?
    ensures Utf8.Decode(content).Some? ==> ReadString(buf, offset) == Ok((Utf8.Decode(content).value, end))
  {
  }

  lemma DecodePrefix(s: string)
    ensures Utf8.Decode(Utf8.Encode(s)[..|s|]) == Some(s) <==> Utf8.Ascii(s)
  {
    Utf8.LengthIffAscii(s);
    if Utf8.Ascii(s) {
      assert Utf8.Encode(s)[..|s|] == Utf8.Encode(s);
      Utf8.DecodeInverts(s);
    }
  }

  lemma ReadBoolsAt(buf: bytes, offset: int, xs: seq<bool>)
    requires offset % 4 == 0 && InInt(|xs|)
    requires At(buf, offset, EncInt(|xs|) + EncContent(Packed(xs), |Packed(xs)|))
    ensures ReadBools(buf, offset) == Ok((xs, offset + 4 + |EncContent(Packed(xs), |Packed(xs)|)|))
    ensures |EncContent(Packed(xs), |Packed(xs)|)| % 4 == 0
  {
    hide At, EncInt, ReadInt, ReadContent, InInt, Unpack, Packed, EncContent;
    var packed := Packed(xs);
    AtSplit(buf, offset, EncInt(|xs|), EncContent(packed, |packed|));
    ReadIntAt(buf, offset, |xs|);
    ReadContentAt(buf, offset + 4, packed, |packed|);
    assert packed[..|packed|] == packed;
    ContentAligned(packed);
    UnpackInvertsPack(xs);
  }

  lemma ContentAligned(content: bytes)
    ensures |EncContent(content, |content|)| == RoundTo4(|content|) && RoundTo4(|content|) % 4 == 0
  {
  }

  // ----- arrays -----

  ghost predicate ElementReads<T>(buf: bytes, x: T, enc: T -> bytes, read: (bytes, int) -> Read<T>, good: bool) {
    && (forall o {:trigger read(buf, o)} :: o % 4 == 0 && At(buf, o, enc(x)) ==>
          Reads(read(buf, o), x, o + |enc(x)|, good))
    && (good ==> |enc(x)| % 4 == 0)
  }

  predicate Always<T>(x: T) { true }

  lemma {:induction false} ReadManyAt<T>(buf: bytes, offset: int, xs: seq<T>, enc: T -> bytes,
                                         read: (bytes, int) -> Read<T>, good: T -> bool)
    requires offset % 4 == 0 && At(buf, offset, EncMany(xs, enc))
    requires forall i | 0 <= i < |xs| :: ElementReads(buf, xs[i], enc, read, good(xs[i]))
    ensures Reads(ReadMany(buf, offset, |xs|, read), xs, offset + |EncMany(xs, enc)|, AllOf(xs, good))
    ensures AllOf(xs, good) ==> |EncMany(xs, enc)| % 4 == 0
    decreases |xs|
  {
    hide At, ElementReads, EncMany, ReadMany, AllOf;
    if xs == [] {
      ManyEmpty(buf, offset, enc, read, good);
    } else {
      var x, rest := xs[0], xs[1..];
      var mid := offset + |enc(x)|;
      ManyCons(xs, enc, good);
      AtSplit(buf, offset, enc(x), EncMany(rest, enc));
      assert ElementReads(buf, xs[0], enc, read, good(x));
      UseElement(buf, offset, x, enc, read, good(x));
      if good(x) {
        assert forall i | 0 <= i < |rest| :: rest[i] == xs[i + 1];
        ReadManyAt(buf, mid, rest, enc, read, good);
      }
      ReadManyCons(buf, offset, xs, read, mid, offset + |EncMany(xs, enc)|, good(x), AllOf(rest, good));
    }
  }

  lemma ManyEmpty<T>(buf: bytes, offset: int, enc: T -> bytes, read: (bytes, int) -> Read<T>, good: T -> bool)
    ensures EncMany([], enc) == [] && AllOf([], good) && ReadMany(buf, offset, 0, read) == Ok(([], offset))
  {
  }

  lemma ManyCons<T>(xs: seq<T>, enc: T -> bytes, good: T -> bool)
    requires xs != []
    ensures EncMany(xs, enc) == enc(xs[0]) + EncMany(xs[1..], enc)
    ensures AllOf(xs, good) <==> good(xs[0]) && AllOf(xs[1..], good)
  {
    assert forall i | 0 < i < |xs| :: xs[i] == xs[1..][i - 1];
  }

  lemma ReadManyCons<T>(buf: bytes, offset: int, xs: seq<T>, read: (bytes, int) -> Read<T>, mid: int, end: int,
                        head: bool, tail: bool)
    requires xs != [] && Reads(read(buf, offset), xs[0], mid, head)
    requires head ==> Reads(ReadMany(buf, mid, |xs[1..]|, read), xs[1..], end, tail)
    ensures Reads(ReadMany(buf, offset, |xs|, read), xs, end, head && tail)
  {
    var r, many := read(buf, offset), ReadMany(buf, offset, |xs|, read);
    assert xs == [xs[0]] + xs[1..];
    if r.Ok? {
      var rest := ReadMany(buf, r.value.1, |xs| - 1, read);
      assert rest.Ok? ==> many == Ok(([r.value.0] + rest.value.0, rest.value.1));
      assert rest.Ok? ==> many.value.0[0] == r.value.0 && many.value.0[1..] == rest.value.0;
    }
  }

  lemma UseElement<T>(buf: bytes, offset: int, x: T, enc: T -> bytes, read: (bytes, int) -> Read<T>, good: bool)
    requires offset % 4 == 0 && At(buf, offset, enc(x)) && ElementReads(buf, x, enc, read, good)
    ensures Reads(read(buf, offset), x, offset + |enc(x)|, good) && (good ==> |enc(x)| % 4 == 0)
  {
  }

  lemma {:induction false} ReadArrayAt<T>(buf: bytes, offset: int, xs: seq<T>, enc: T -> bytes,
                                          read: (bytes, int) -> Read<T>, good: T -> bool)
    requires offset % 4 == 0 && InInt(|xs|) && At(buf, offset, EncInt(|xs|) + EncMany(xs, enc))
    requires forall i | 0 <= i < |xs| :: ElementReads(buf, xs[i], enc, read, good(xs[i]))
    ensures Reads(ReadArray(buf, offset, read), xs, offset + |EncInt(|xs|) + EncMany(xs, enc)|, AllOf(xs, good))
    ensures AllOf(xs, good) ==> |EncInt(|xs|) + EncMany(xs, enc)| % 4 == 0
  {
    hide At, ElementReads, EncMany, ReadInt, ReadMany, ReadArray, InInt, AllOf;
    AtSplit(buf, offset, EncInt(|xs|), EncMany(xs, enc));
    ReadIntAt(buf, offset, |xs|);
    ReadManyAt(buf, offset + 4, xs, enc, read, good);
    ReadArrayStep(buf, offset, |xs|, read);
  }

  lemma ReadArrayStep<T>(buf: bytes, offset: int, n: int, read: (bytes, int) -> Read<T>)
    requires ReadInt(buf, offset) == Ok((n, offset + 4))
    ensures ReadArray(buf, offset, read) == ReadMany(buf, offset + 4, n, read)
  {
  }

  lemma IntReads(buf: bytes, i: int)
    requires InInt(i)
    ensures ElementReads(buf, i, EncInt, ReadInt, true)
  {
    forall o | o % 4 == 0 && At(buf, o, EncInt(i)) ensures Reads(ReadInt(buf, o), i, o + 4, true) {
      ReadIntAt(buf, o, i);
    }
  }

  lemma LongReads(buf: bytes, l: int)
    requires InLong(l)
    ensures ElementReads(buf, l, EncLong, ReadLong, true)
  {
    forall o | o % 4 == 0 && At(buf, o, EncLong(l)) ensures Reads(ReadLong(buf, o), l, o + 8, true) {
      ReadLongAt(buf, o, l);
    }
  }

  lemma FloatReads(buf: bytes, f: Float64)
    ensures ElementReads(buf, f, EncFloat, ReadFloat, true)
  {
    forall o | o % 4 == 0 && At(buf, o, EncFloat(f)) ensures Reads(ReadFloat(buf, o), f, o + 8, true) {
      ReadFloatAt(buf, o, f);
    }
  }

  lemma StringReads(buf: bytes, s: string)
    requires FitsString(s)
    ensures ElementReads(buf, s, EncString, ReadString, Utf8.Ascii(s))
  {
    hide ReadString, At, EncString, FitsString, Utf8.Ascii;
    StringAligned(s);
    forall o | o % 4 == 0 && At(buf, o, EncString(s))
      ensures Reads(ReadString(buf, o), s, o + |EncString(s)|, Utf8.Ascii(s))
    {
      ReadStringAt(buf, o, s);
    }
  }

  lemma BinaryReads(buf: bytes, bs: bytes)
    requires FitsBinary(bs)
    ensures ElementReads(buf, bs, EncBinary, ReadBinary, true)
  {
    hide ReadBinary, At, EncInt, InInt;
    forall o | o % 4 == 0 && At(buf, o, EncBinary(bs))
      ensures Reads(ReadBinary(buf, o), bs, o + |EncBinary(bs)|, true)
    {
      ReadBlobAt(buf, o, bs);
    }
  }

  // ----- collections built from entries -----

  lemma {:induction false} PositionsOf(es: seq<Entry>)
    ensures Positions(es).Keys == Names(es)
    ensures forall name :: name in Positions(es) ==>
              Positions(es)[name] < |es| && es[Positions(es)[name]].name == name
  {
    if es != [] {
      var n := |es| - 1;
      PositionsOf(es[..n]);
      assert Names(es) == Names(es[..n]) + {es[n].name};
    }
  }

  /** Inserting entries with distinct names into an empty collection lays them out in order. */
  lemma {:induction false} InsertDistinct(es: seq<Entry>)
    requires DistinctNames(es)
    ensures InsertAll(EMPTY, es) == FromEntries(es)
  {
    if es != [] {
      var n := |es| - 1;
      InsertDistinct(es[..n]);
      InsertLast(es);
    }
  }

  lemma {:induction false} InsertLast(es: seq<Entry>)
    requires es != [] && DistinctNames(es)
    requires Consistent(FromEntries(es[..|es| - 1]))
    ensures SetItem(FromEntries(es[..|es| - 1]), es[|es| - 1]) == FromEntries(es)
  {
    var n := |es| - 1;
    var c := FromEntries(es[..n]);
    PositionsOf(es[..n]);
    LastIsNew(es);
    assert FirstHole(c.slots) == n;
    assert c.slots + [Used(es[n])] == FromEntries(es).slots;
  }

  /** n insertions leave n slots only if they were n new names, in slot order. */
  lemma {:induction false} InsertFull(es: seq<Entry>)
    ensures |InsertAll(EMPTY, es).slots| <= |es|
    ensures forall i | 0 <= i < |InsertAll(EMPTY, es).slots| :: InsertAll(EMPTY, es).slots[i].Used?
    ensures |InsertAll(EMPTY, es).slots| == |es| ==>
              forall i | 0 <= i < |es| :: InsertAll(EMPTY, es).slots[i] == Used(es[i])
  {
    if es != [] {
      var n := |es| - 1;
      InsertFull(es[..n]);
      var c := InsertAll(EMPTY, es[..n]);
      if es[n].name in c.index { assert IsUsed(c.slots, c.index[es[n].name], es[n].name); }
    }
  }

  /** Different entries of the right number cannot build the same collection. */
  lemma {:induction false} InsertInjective(es: seq<Entry>, expected: seq<Entry>)
    requires |es| == |expected| && InsertAll(EMPTY, es) == FromEntries(expected)
    ensures es == expected
  {
    InsertFull(es);
    forall i | 0 <= i < |es| ensures es[i] == expected[i] {
      assert InsertAll(EMPTY, es).slots[i] == Used(es[i]);
      assert FromEntries(expected).slots[i] == Used(expected[i]);
    }
  }

  lemma CompactDistinct(c: Collection)
    requires Consistent(c)
    ensures |CompactEntries(c.slots)| == |c.index|
    ensures DistinctNames(CompactEntries(c.slots))
    ensures InsertAll(EMPTY, CompactEntries(c.slots)) == Compact(c)
  {
    CountIsItems(c);
    InsertDistinct(CompactEntries(c.slots));
  }

  // ----- values and collections, by induction on nesting -----

  /** The outcome of reading back a list of entries. */
  ghost predicate Scans(scan: Scan, es: seq<Entry>, end: int, good: bool) {
    if good then scan == Scan(es, Ok(end)) else scan.end.Ok? ==> scan.entries != es
  }

  lemma {:induction false} ScanLength(buf: bytes, offset: int, n: nat, depth: nat)
    ensures ReadEntries(buf, offset, n, depth).end.Ok? ==> |ReadEntries(buf, offset, n, depth).entries| == n
    decreases n
  {
    hide ReadEntry;
    if n > 0 {
      var r := ReadEntry(buf, offset, depth);
      if r.Ok? { ScanLength(buf, r.value.1, n - 1, depth); }
    }
  }

  lemma {:induction false} ReadScalarAt(buf: bytes, offset: int, v: Value, depth: nat)
    requires v.Bool? || v.Int? || v.Long? || v.Float? || v.Str? || v.Blob? || v.Bools?
    requires offset % 4 == 0 && Fits(v) && At(buf, offset, EncPayload(v))
    ensures Reads(ReadValue(buf, offset, TypeCode(v), depth), v, offset + |EncPayload(v)|, AsciiOnly(v))
    ensures AsciiOnly(v) ==> |EncPayload(v)| % 4 == 0
  {
    hide ReadInt, ReadLong, ReadFloat, ReadString, ReadBinary, ReadBools, EncInt, EncLong, EncString, EncBinary,
         EncContent, InInt, InLong, FitsString, FitsBinary, Utf8.Ascii, At;
    match v
    case Bool(b) =>
      SmallInts();
      ReadIntAt(buf, offset, if b then 1 else 0);
    case Int(i) => ReadIntAt(buf, offset, i);
    case Long(l) => ReadLongAt(buf, offset, l);
    case Float(f) => ReadFloatAt(buf, offset, f);
    case Str(s) => ReadStringAt(buf, offset, s);
    case Blob(bs) => ReadBlobAt(buf, offset, bs);
    case Bools(xs) => ReadBoolsAt(buf, offset, xs);
  }

  lemma SmallInts()
    ensures forall i | 0 <= i < 15 :: InInt(i)
  {
    ModulusOf8();
  }

  lemma {:induction false} ReadArrayValueAt(buf: bytes, offset: int, v: Value, depth: nat)
    requires v.Ints? || v.Longs? || v.Floats? || v.Strs? || v.Blobs?
    requires offset % 4 == 0 && Fits(v) && At(buf, offset, EncPayload(v))
    ensures Reads(ReadValue(buf, offset, TypeCode(v), depth), v, offset + |EncPayload(v)|, AsciiOnly(v))
    ensures AsciiOnly(v) ==> |EncPayload(v)| % 4 == 0
  {
    hide ReadInt, ReadLong, ReadFloat, ReadString, ReadBinary, ReadArray, EncInt, EncLong, EncFloat, EncString,
         EncBinary,
         EncMany, InInt, InLong, FitsString, FitsBinary, Utf8.Ascii, At, ElementReads;
    match v
    case Ints(xs) =>
      forall i | 0 <= i < |xs| ensures ElementReads(buf, xs[i], EncInt, ReadInt, Always(xs[i])) {
        IntReads(buf, xs[i]);
      }
      ReadArrayAt(buf, offset, xs, EncInt, ReadInt, Always);
    case Longs(xs) =>
      forall i | 0 <= i < |xs| ensures ElementReads(buf, xs[i], EncLong, ReadLong, Always(xs[i])) {
        LongReads(buf, xs[i]);
      }
      ReadArrayAt(buf, offset, xs, EncLong, ReadLong, Always);
    case Floats(xs) =>
      forall i | 0 <= i < |xs| ensures ElementReads(buf, xs[i], EncFloat, ReadFloat, Always(xs[i])) {
        FloatReads(buf, xs[i]);
      }
      ReadArrayAt(buf, offset, xs, EncFloat, ReadFloat, Always);
    case Strs(xs) =>
      forall i | 0 <= i < |xs| ensures ElementReads(buf, xs[i], EncString, ReadString, Utf8.Ascii(xs[i])) {
        StringReads(buf, xs[i]);
      }
      ReadArrayAt(buf, offset, xs, EncString, ReadString, Utf8.Ascii);
    case Blobs(xs) =>
      forall i | 0 <= i < |xs| ensures ElementReads(buf, xs[i], EncBinary, ReadBinary, Always(xs[i])) {
        BinaryReads(buf, xs[i]);
      }
      ReadArrayAt(buf, offset, xs, EncBinary, ReadBinary, Always);
  }

  lemma {:induction false} ReadValueAt(buf: bytes, offset: int, v: Value, depth: nat)
    requires offset % 4 == 0 && Valid(v) && Fits(v) && Depth(v) <= depth && At(buf, offset, EncPayload(v))
    ensures Reads(ReadValue(buf, offset, TypeCode(v), depth), CompactValue(v), offset + |EncPayload(v)|, AsciiOnly(v))
    ensures AsciiOnly(v) ==> |EncPayload(v)| % 4 == 0
    decreases v, 0
  {
    hide ReadInt, ReadNested, ReadNestedMany, EncInt, Encode, EncodeList, InInt, At, FitsCollection, ValidCollection,
         AsciiSlots, Compact;
    match v
    case Nested(c) => ReadNestedAt(buf, offset, c, depth);
    case NestedList(cs) =>
      AtSplit(buf, offset, EncInt(|cs|), EncodeList(cs));
      ReadIntAt(buf, offset, |cs|);
      ReadNestedManyAt(buf, offset + 4, cs, depth);
    case Ints(_) => ReadArrayValueAt(buf, offset, v, depth);
    case Longs(_) => ReadArrayValueAt(buf, offset, v, depth);
    case Floats(_) => ReadArrayValueAt(buf, offset, v, depth);
    case Strs(_) => ReadArrayValueAt(buf, offset, v, depth);
    case Blobs(_) => ReadArrayValueAt(buf, offset, v, depth);
    case _ => ReadScalarAt(buf, offset, v, depth);
  }

  lemma {:induction false} ReadNestedAt(buf: bytes, offset: int, c: Collection, depth: nat)
    requires offset % 4 == 0 && ValidCollection(c) && FitsCollection(c) && DepthSlots(c.slots) < depth
    requires At(buf, offset, Encode(c))
    ensures Reads(ReadNested(buf, offset, depth), Compact(c), offset + |Encode(c)|, AsciiSlots(c.slots))
    ensures AsciiSlots(c.slots) ==> |Encode(c)| % 4 == 0
    decreases c, 1
  {
    hide ReadCollection, Encode, At, FitsCollection, AsciiSlots, DepthSlots, CompactEntries, InsertAll, FromEntries;
    ReadCollectionAt(buf, offset, c, depth - 1);
    CompactDistinct(c);
    var scan := ReadCollection(buf, offset, depth - 1);
    if !AsciiSlots(c.slots) && scan.end.Ok? && InsertAll(EMPTY, scan.entries) == Compact(c) {
      InsertInjective(scan.entries, CompactEntries(c.slots));
    }
  }

  lemma {:induction false} ReadNestedManyAt(buf: bytes, offset: int, cs: seq<Collection>, depth: nat)
    requires offset % 4 == 0 && ValidList(cs) && FitsList(cs) && DepthList(cs) <= depth
    requires At(buf, offset, EncodeList(cs))
    ensures Reads(ReadNestedMany(buf, offset, |cs|, depth), CompactList(cs), offset + |EncodeList(cs)|, AsciiList(cs))
    ensures AsciiList(cs) ==> |EncodeList(cs)| % 4 == 0
    decreases cs, 1
  {
    hide ReadNested, Encode, At, FitsCollection, ValidCollection, AsciiSlots, DepthSlots, Compact;
    if cs != [] {
      AtSplit(buf, offset, Encode(cs[0]), EncodeList(cs[1..]));
      ReadNestedAt(buf, offset, cs[0], depth);
      var r := ReadNestedMany(buf, offset, |cs|, depth);
      assert CompactList(cs)[0] == Compact(cs[0]) && CompactList(cs)[1..] == CompactList(cs[1..]);
      assert r.Ok? ==> r.value.0[0] == ReadNested(buf, offset, depth).value.0;
      if AsciiSlots(cs[0].slots) {
        var rest := offset + |Encode(cs[0])|;
        ReadNestedManyAt(buf, rest, cs[1..], depth);
        assert r.Ok? ==> r.value.0[1..] == ReadNestedMany(buf, rest, |cs[1..]|, depth).value.0;
      }
    }
  }

  lemma {:induction false} ReadEntryAt(buf: bytes, offset: int, e: Entry, depth: nat)
    requires offset % 4 == 0 && ValidEntry(e) && FitsEntry(e) && DepthEntry(e) <= depth
    requires At(buf, offset, EncEntry(e))
    ensures Reads(ReadEntry(buf, offset, depth), CompactEntry(e), offset + |EncEntry(e)|, AsciiEntry(e))
    ensures AsciiEntry(e) ==> |EncEntry(e)| % 4 == 0
    decreases e, 0
  {
    hide ReadInt, ReadString, ReadValue, EncInt, EncString, EncPayload, At, Fits, FitsString, Valid, AsciiOnly,
         Utf8.Ascii,
         CompactValue, TypeCode, IsEmptyArray, InInt;
    var head := EncString(e.name) + EncInt(TypeCode(e.value));
    AtSplit(buf, offset, head, EncPayload(e.value));
    AtSplit(buf, offset, EncString(e.name), EncInt(TypeCode(e.value)));
    ReadStringAt(buf, offset, e.name);
    if Utf8.Ascii(e.name) {
      SmallInts();
      ReadIntAt(buf, offset + |EncString(e.name)|, TypeCode(e.value));
      ReadValueAt(buf, offset + |head|, e.value, depth);
      CompactNonEmpty(e.value);
    }
  }

  lemma {:induction false} CompactNonEmpty(v: Value)
    requires Valid(v)
    ensures !IsEmptyArray(CompactValue(v))
  {
  }

  lemma {:induction false} ReadSlotsAt(buf: bytes, offset: int, slots: seq<Slot>, depth: nat)
    requires offset % 4 == 0 && ValidSlots(slots) && FitsSlots(slots) && DepthSlots(slots) <= depth
    requires At(buf, offset, EncSlots(slots))
    ensures Scans(ReadEntries(buf, offset, |Items(slots)|, depth), CompactEntries(slots),
                  offset + |EncSlots(slots)|, AsciiSlots(slots))
    ensures AsciiSlots(slots) ==> |EncSlots(slots)| % 4 == 0
    decreases slots, 1
  {
    hide ReadEntry, ReadEntries, EncSlot, EncSlots, At, FitsSlot, FitsSlots, ValidSlot, ValidSlots, AsciiSlot,
         AsciiSlots,
         DepthSlot, DepthSlots, CompactEntry, CompactEntries, Items;
    if slots == [] {
      ReadEntriesStep(buf, offset, 0, depth);
      NoSlots();
    } else {
      SlotsCons(slots);
      AtSplit(buf, offset, EncSlot(slots[0]), EncSlots(slots[1..]));
      var rest := offset + |EncSlot(slots[0])|;
      if slots[0].Used? {
        ReadUsedAt(buf, offset, slots[0], depth);
        if AsciiSlot(slots[0]) { ReadSlotsAt(buf, rest, slots[1..], depth); }
        ReadConsAt(buf, offset, |Items(slots[1..])|, depth, CompactEntry(slots[0].entry), CompactEntries(slots[1..]),
                   rest, offset + |EncSlots(slots)|, AsciiSlot(slots[0]), AsciiSlots(slots[1..]));
      } else {
        HoleIsNothing(slots[0]);
        ReadSlotsAt(buf, rest, slots[1..], depth);
      }
    }
  }

  lemma NoSlots()
    ensures EncSlots([]) == [] && AsciiSlots([]) && CompactEntries([]) == [] && Items([]) == []
  {
  }

  lemma SlotsCons(slots: seq<Slot>)
    requires slots != []
    ensures EncSlots(slots) == EncSlot(slots[0]) + EncSlots(slots[1..])
    ensures ValidSlots(slots) ==> ValidSlot(slots[0]) && ValidSlots(slots[1..])
    ensures FitsSlots(slots) ==> FitsSlot(slots[0]) && FitsSlots(slots[1..])
    ensures AsciiSlots(slots) <==> AsciiSlot(slots[0]) && AsciiSlots(slots[1..])
    ensures DepthSlots(slots) == Max(DepthSlot(slots[0]), DepthSlots(slots[1..]))
    ensures slots[0].Used? ==> CompactEntries(slots) == [CompactEntry(slots[0].entry)] + CompactEntries(slots[1..])
    ensures !slots[0].Used? ==> CompactEntries(slots) == CompactEntries(slots[1..])
    ensures |Items(slots)| == |Items(slots[1..])| + if slots[0].Used? then 1 else 0
  {
    hide EncSlot, ValidSlot, FitsSlot, AsciiSlot, DepthSlot, CompactEntry;
  }

  lemma HoleIsNothing(slot: Slot)
    requires !slot.Used?
    ensures EncSlot(slot) == [] && AsciiSlot(slot)
  {
  }

  lemma ReadConsAt(buf: bytes, offset: int, n: nat, depth: nat, e: Entry, es: seq<Entry>, mid: int, end: int,
                   head: bool, tail: bool)
    requires Reads(ReadEntry(buf, offset, depth), e, mid, head)
    requires head ==> Scans(ReadEntries(buf, mid, n, depth), es, end, tail)
    ensures Scans(ReadEntries(buf, offset, n + 1, depth), [e] + es, end, head && tail)
  {
    hide ReadEntry, ReadEntries;
    ReadEntriesStep(buf, offset, n + 1, depth);
    ScanCons(ReadEntry(buf, offset, depth), ReadEntries(buf, mid, n, depth), ReadEntries(buf, offset, n + 1, depth),
             e, es, mid, end, head, tail);
  }

  lemma ReadEntriesStep(buf: bytes, offset: int, n: nat, depth: nat)
    ensures var r := ReadEntry(buf, offset, depth);
            var scan := ReadEntries(buf, offset, n, depth);
            if n == 0 then scan == Scan([], Ok(offset))
            else if r.Err? then scan == Scan([], Err(r.error))
            else
              var rest := ReadEntries(buf, r.value.1, n - 1, depth);
              scan == Scan([r.value.0] + rest.entries, rest.end)
  {
  }

  lemma ScanCons(r: Read<Entry>, rest: Scan, scan: Scan, e: Entry, es: seq<Entry>, mid: int, end: int,
                 head: bool, tail: bool)
    requires Reads(r, e, mid, head) && (head ==> Scans(rest, es, end, tail))
    requires r.Err? ==> scan.end.Err?
    requires r.Ok? ==> scan.entries != [] && scan.entries[0] == r.value.0
    requires r.Ok? && r.value.1 == mid ==> scan == Scan([r.value.0] + rest.entries, rest.end)
    ensures Scans(scan, [e] + es, end, head && tail)
  {
    assert ([e] + es)[0] == e;
    assert ([e] + es)[1..] == es;
    assert r.Ok? && r.value.1 == mid ==> scan.entries[1..] == rest.entries;
  }

  lemma {:induction false} ReadUsedAt(buf: bytes, offset: int, slot: Slot, depth: nat)
    requires slot.Used? && offset % 4 == 0 && ValidSlot(slot) && FitsSlot(slot) && DepthSlot(slot) <= depth
    requires At(buf, offset, EncSlot(slot))
    ensures Reads(ReadEntry(buf, offset, depth), CompactEntry(slot.entry), offset + |EncSlot(slot)|, AsciiSlot(slot))
    ensures AsciiSlot(slot) ==> |EncSlot(slot)| % 4 == 0
    decreases slot, 0
  {
    hide ReadEntry, EncEntry, At, FitsEntry, ValidEntry, AsciiEntry, DepthEntry;
    ReadEntryAt(buf, offset, slot.entry, depth);
  }

  lemma {:induction false} ReadCollectionAt(buf: bytes, offset: int, c: Collection, depth: nat)
    requires offset % 4 == 0 && ValidCollection(c) && FitsCollection(c) && DepthSlots(c.slots) <= depth
    requires At(buf, offset, Encode(c))
    ensures Scans(ReadCollection(buf, offset, depth), CompactEntries(c.slots), offset + |Encode(c)|,
                  AsciiSlots(c.slots))
    ensures AsciiSlots(c.slots) ==> |Encode(c)| % 4 == 0
    ensures ReadCollection(buf, offset, depth).end.Ok? ==>
              |ReadCollection(buf, offset, depth).entries| == |CompactEntries(c.slots)|
    decreases c, 0
  {
    hide ReadInt, ReadEntries, EncInt, EncSlots, At, FitsSlots, ValidSlots, AsciiSlots, DepthSlots, Consistent, Items,
         CompactEntries, InInt;
    AtSplit(buf, offset, EncInt(|c.index|), EncSlots(c.slots));
    ReadIntAt(buf, offset, |c.index|);
    CountIsItems(c);
    ReadSlotsAt(buf, offset + 4, c.slots, depth);
    ScanLength(buf, offset + 4, |c.index|, depth);
  }

  // ----- main results -----

  /** Self-delimiting: between any 4-aligned prefix and any suffix, the reader finds the collection's entries
      and stops exactly at its end. */
  lemma SelfDelimiting(before: bytes, c: Collection, after: bytes, depth: nat)
    requires |before| % 4 == 0 && ValidCollection(c) && FitsCollection(c) && DepthSlots(c.slots) <= depth
    requires AsciiSlots(c.slots)
    ensures |Encode(c)| % 4 == 0
    ensures ReadCollection(before + Encode(c) + after, |before|, depth)
         == Scan(CompactEntries(c.slots), Ok(|before| + |Encode(c)|))
  {
    hide ReadCollection, Encode, FitsCollection, ValidCollection, AsciiSlots, DepthSlots, CompactEntries;
    var buf := before + Encode(c) + after;
    assert buf[|before|..|before| + |Encode(c)|] == Encode(c);
    ReadCollectionAt(buf, |before|, c, depth);
  }

  lemma ValidIsConsistent(c: Collection)
    requires ValidCollection(c)
    ensures Consistent(c)
  {
  }

  /** Merging a serialized collection inserts its entries one by one, and uses up the buffer. */
  lemma MergeIsInsertion(p: Collection, q: Collection, depth: nat)
    requires Consistent(p) && ValidCollection(q) && FitsCollection(q) && DepthSlots(q.slots) <= depth
    requires AsciiSlots(q.slots)
    ensures Deserialize(p, Encode(q), depth) == (InsertAll(p, CompactEntries(q.slots)), Ok(()))
    ensures DistinctNames(CompactEntries(q.slots))
  {
    hide ReadCollection, Encode, FitsCollection, ValidCollection, AsciiSlots, DepthSlots, CompactEntries, InsertAll,
         FromEntries;
    ValidIsConsistent(q);
    assert [] + Encode(q) + [] == Encode(q);
    SelfDelimiting([], q, [], depth);
    CompactDistinct(q);
  }

  /** The round trip is the identity, up to empty slots, exactly when all names and all text values at every
      level are ASCII. */
  lemma RoundTripIffAscii(c: Collection, depth: nat)
    requires ValidCollection(c) && FitsCollection(c) && DepthSlots(c.slots) <= depth
    ensures Deserialize(EMPTY, Encode(c), depth) == (Compact(c), Ok(())) <==> AsciiSlots(c.slots)
  {
    hide ReadCollection, Encode, FitsCollection, ValidCollection, AsciiSlots, DepthSlots, CompactEntries, InsertAll,
         FromEntries;
    ValidIsConsistent(c);
    CompactDistinct(c);
    if AsciiSlots(c.slots) {
      MergeIsInsertion(EMPTY, c, depth);
    } else if Deserialize(EMPTY, Encode(c), depth) == (Compact(c), Ok(())) {
      var scan := ReadCollection(Encode(c), 0, depth);
      ReadCollectionAt(Encode(c), 0, c, depth);
      InsertInjective(scan.entries, CompactEntries(c.slots));
    }
  }

  /** One accented letter is enough: the name is read back as its first byte and fails to decode. */
  lemma NonAsciiExample(depth: nat)
    ensures var c := SetItem(EMPTY, Entry("\U{E9}", Int(1)));
            Deserialize(EMPTY, Encode(c), depth) != (c, Ok(()))
  {
    hide Deserialize, Encode, Compact;
    var e := Entry("\U{E9}", Int(1));
    var c := SetItem(EMPTY, e);
    AccentedEntry(e, c);
    RoundTripIffAscii(c, depth);
  }

  lemma AccentedEntry(e: Entry, c: Collection)
    requires e == Entry("\U{E9}", Int(1)) && c == SetItem(EMPTY, e)
    ensures ValidCollection(c) && FitsCollection(c) && DepthSlots(c.slots) == 0
    ensures Compact(c) == c && !AsciiSlots(c.slots)
  {
    hide Compact, InInt, InsertAll;
    SetItemRefines(EMPTY, e);
    assert c.slots == [Used(e)];
    ModulusOf8();
    assert InInt(1) by { SmallInts(); }
    assert CompactEntries([Used(e)]) == [e];
    assert InsertAll(EMPTY, [e]) == c by { InsertOne(e); }
    CompactDistinct(c);
    assert !Utf8.Ascii(e.name) by { assert e.name[0] as int >= 0x80; }
  }

  lemma InsertOne(e: Entry)
    ensures InsertAll(EMPTY, [e]) == SetItem(EMPTY, e)
  {
    hide SetItem;
    assert [e][..0] == [];
    assert InsertAll(EMPTY, []) == EMPTY;
  }

  // ----- compaction is a normal form -----

  /** What the round trip keeps: the same names with the (compacted) same values, in the same order. */
  lemma CompactKeepsContents(c: Collection)
    requires Consistent(c)
    ensures Consistent(Compact(c))
    ensures Items(Compact(c).slots) == CompactEntries(c.slots)
    ensures |CompactEntries(c.slots)| == |Items(c.slots)|
    ensures forall i | 0 <= i < |Items(c.slots)| :: CompactEntries(c.slots)[i] == CompactEntry(Items(c.slots)[i])
    ensures Contents(Compact(c)).Keys == Contents(c).Keys
  {
    hide CompactEntries, Positions, InsertAll, Items;
    CompactDistinct(c);
    CompactPointwise(c.slots);
    ItemsOfFull(CompactEntries(c.slots));
    PositionsOf(CompactEntries(c.slots));
    CountIsItems(c);
    ItemsOfSlots(c.slots);
    assert Names(CompactEntries(c.slots)) == Names(Items(c.slots));
  }

  lemma {:induction false} CompactPointwise(slots: seq<Slot>)
    ensures forall i | 0 <= i < |Items(slots)| :: CompactEntries(slots)[i] == CompactEntry(Items(slots)[i])
  {
    if slots != [] {
      CompactPointwise(slots[1..]);
    }
  }

  lemma {:induction false} ItemsOfFull(es: seq<Entry>)
    ensures Items(FromEntries(es).slots) == es
  {
    var slots := FromEntries(es).slots;
    if es != [] {
      ItemsOfFull(es[1..]);
      assert slots[1..] == FromEntries(es[1..]).slots;
    }
  }
}
