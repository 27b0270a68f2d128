/** What deserialize() refuses: too many bytes, too few, collections nested too deeply, malformed entries. */
module WireRefusals {
  import opened Outcomes
  import opened ByteCodec
  import Utf8
  import opened SlotTable
  import opened WireFormat
  import opened WireRoundTrip
  import opened ReaderDepth

  // ----- too many bytes -----

  /** Anything after a serialized collection is refused, when the collection has been merged already. */
  lemma TrailingBytesRefused(p: Collection, q: Collection, after: bytes, depth: nat)
    requires Consistent(p) && ValidCollection(q) && FitsCollection(q) && DepthSlots(q.slots) <= depth
    requires AsciiSlots(q.slots) && after != []
    ensures Deserialize(p, Encode(q) + after, depth) == (InsertAll(p, CompactEntries(q.slots)), Err(ValueError))
  {
    hide ReadCollection, Encode, FitsCollection, ValidCollection, AsciiSlots, DepthSlots, CompactEntries, InsertAll;
    assert [] + Encode(q) + after == Encode(q) + after;
    SelfDelimiting([], q, after, depth);
  }

  // ----- too few bytes -----

  /** The buffer ends inside the bytes bs that begin at the offset. */
  ghost predicate Cut(buf: bytes, offset: int, bs: bytes) {
    0 <= offset <= |buf| < offset + |bs| && buf[offset..] == bs[..|buf| - offset]
  }

  lemma CutSplit(buf: bytes, offset: int, a: bytes, b: bytes)
    requires Cut(buf, offset, a + b)
    ensures |buf| < offset + |a| ==> Cut(buf, offset, a)
    ensures |buf| >= offset + |a| ==> At(buf, offset, a) && Cut(buf, offset + |a|, b)
  {
    if |buf| < offset + |a| {
      assert (a + b)[..|buf| - offset] == a[..|buf| - offset];
    } else {
      assert buf[offset..offset + |a|] == buf[offset..][..|a|] == a;
      assert buf[offset + |a|..] == buf[offset..][|a|..] == b[..|buf| - offset - |a|];
    }
  }

  /** A read that fails, or leaves the offset past the end of the buffer. */
  predicate Falls<T>(r: Read<T>, buf: bytes) { r.Ok? ==> r.value.1 > |buf| }

  lemma NumbersFall(buf: bytes, offset: int)
    requires 0 <= offset
    ensures offset + 4 > |buf| ==> ReadInt(buf, offset) == Err(StructError)
    ensures offset + 8 > |buf| ==> ReadLong(buf, offset) == Err(StructError)
    ensures offset + 8 > |buf| ==> ReadFloat(buf, offset) == Err(StructError)
  {
  }

  lemma PastFails(buf: bytes, offset: int)
    requires offset > |buf|
    ensures ReadInt(buf, offset).Err? && ReadLong(buf, offset).Err? && ReadFloat(buf, offset).Err?
    ensures ReadBinary(buf, offset).Err? && ReadString(buf, offset).Err? && ReadBools(buf, offset).Err?
  {
    NumbersFall(buf, offset);
  }

  /** Where the reader stops after a content of n bytes, however many of them there are. */
  lemma ContentEnds(buf: bytes, offset: int, n: int)
    requires ReadInt(buf, offset) == Ok((n, offset + 4))
    ensures ReadBinary(buf, offset).Ok? && ReadBinary(buf, offset).value.1 == RoundTo4(offset + 4 + n)
    ensures ReadBools(buf, offset).Ok? ==> ReadBools(buf, offset).value.1 == RoundTo4(offset + 4 + PackedSize(n))
  {
    hide ReadInt, RoundTo4, Slice, Unpack;
  }

  lemma ContentFalls(buf: bytes, offset: int, n: nat, content: bytes)
    requires offset % 4 == 0 && InInt(n) && Cut(buf, offset, EncInt(n) + EncContent(content, |content|))
    ensures ReadInt(buf, offset).Err? || ReadInt(buf, offset) == Ok((n, offset + 4))
    ensures ReadInt(buf, offset).Ok? ==> RoundTo4(offset + 4 + |content|) > |buf|
  {
    hide ReadInt, EncInt, EncContent, Cut, At, InInt;
    var bs := EncContent(content, |content|);
    CutOffset(buf, offset, EncInt(n) + bs);
    CutSplit(buf, offset, EncInt(n), bs);
    NumbersFall(buf, offset);
    if |buf| >= offset + 4 {
      ReadIntAt(buf, offset, n);
      ContentAligned(content);
      PaddingAgreesIffAligned(offset + 4, |content|);
      CutLength(buf, offset + 4, bs);
    }
  }

  lemma CutLength(buf: bytes, offset: int, bs: bytes)
    requires Cut(buf, offset, bs)
    ensures |buf| < offset + |bs|
  {
  }

  lemma BlobFalls(buf: bytes, offset: int, content: bytes)
    requires offset % 4 == 0 && FitsBinary(content) && Cut(buf, offset, EncBinary(content))
    ensures Falls(ReadBinary(buf, offset), buf)
  {
    hide EncInt, EncContent, Cut, ReadInt, ReadContent, RoundTo4;
    ContentFalls(buf, offset, |content|, content);
    if ReadInt(buf, offset).Ok? { ContentEnds(buf, offset, |content|); }
  }

  lemma StringFalls(buf: bytes, offset: int, s: string)
    requires offset % 4 == 0 && FitsString(s) && Utf8.Ascii(s) && Cut(buf, offset, EncString(s))
    ensures Falls(ReadString(buf, offset), buf)
  {
    Utf8.LengthIffAscii(s);
    BlobFalls(buf, offset, Utf8.Encode(s));
  }

  lemma BoolsFall(buf: bytes, offset: int, xs: seq<bool>)
    requires offset % 4 == 0 && InInt(|xs|) && Cut(buf, offset, EncInt(|xs|) + EncContent(Packed(xs), |Packed(xs)|))
    ensures Falls(ReadBools(buf, offset), buf)
  {
    hide EncInt, EncContent, Cut, ReadInt, ReadContent, RoundTo4, Packed, Unpack;
    ContentFalls(buf, offset, |xs|, Packed(xs));
    if ReadInt(buf, offset).Ok? { ContentEnds(buf, offset, |xs|); }
  }

  /** Reading an element from its bytes cut short, or past the end. */
  ghost predicate ElementFalls<T>(buf: bytes, x: T, enc: T -> bytes, read: (bytes, int) -> Read<T>) {
    forall o {:trigger read(buf, o)} :: o % 4 == 0 && Cut(buf, o, enc(x)) ==> Falls(read(buf, o), buf)
  }

  lemma {:induction false} ManyFall<T>(buf: bytes, offset: int, xs: seq<T>, enc: T -> bytes,
                                       read: (bytes, int) -> Read<T>)
    requires offset % 4 == 0 && Cut(buf, offset, EncMany(xs, enc))
    requires forall i | 0 <= i < |xs| ::
               ElementReads(buf, xs[i], enc, read, true) && ElementFalls(buf, xs[i], enc, read)
    requires forall o | o > |buf| :: read(buf, o).Err?
    ensures Falls(ReadMany(buf, offset, |xs|, read), buf)
    decreases |xs|
  {
    hide Cut, At, EncMany, ReadMany, ElementReads, ElementFalls;
    if xs == [] {
      NothingToCut(buf, offset, enc);
    } else {
      var x, rest := xs[0], xs[1..];
      UnfoldMany(buf, offset, xs, enc, read);
      CutSplit(buf, offset, enc(x), EncMany(rest, enc));
      assert ElementReads(buf, xs[0], enc, read, true) && ElementFalls(buf, xs[0], enc, read);
      if |buf| < offset + |enc(x)| {
        UseElementFalls(buf, offset, x, enc, read);
        var r := read(buf, offset);
        if r.Ok? { ManyPastFalls(buf, r.value.1, |xs| - 1, read); }
      } else {
        UseElement(buf, offset, x, enc, read, true);
        assert forall i | 0 <= i < |rest| :: rest[i] == xs[i + 1];
        ManyFall(buf, offset + |enc(x)|, rest, enc, read);
      }
    }
  }

  lemma NothingToCut<T>(buf: bytes, offset: int, enc: T -> bytes)
    ensures !Cut(buf, offset, EncMany([], enc))
  {
  }

  lemma UseElementFalls<T>(buf: bytes, offset: int, x: T, enc: T -> bytes, read: (bytes, int) -> Read<T>)
    requires offset % 4 == 0 && Cut(buf, offset, enc(x)) && ElementFalls(buf, x, enc, read)
    ensures Falls(read(buf, offset), buf)
  {
  }

  lemma UnfoldMany<T>(buf: bytes, offset: int, xs: seq<T>, enc: T -> bytes, read: (bytes, int) -> Read<T>)
    requires xs != []
    ensures EncMany(xs, enc) == enc(xs[0]) + EncMany(xs[1..], enc)
    ensures var r := read(buf, offset);
            var many := ReadMany(buf, offset, |xs|, read);
            if r.Err? then many.Err?
            else
              var rest := ReadMany(buf, r.value.1, |xs| - 1, read);
              many.Ok? ==> rest.Ok? && many.value.1 == rest.value.1
  {
  }

  lemma ManyPastFalls<T>(buf: bytes, offset: int, n: int, read: (bytes, int) -> Read<T>)
    requires offset > |buf| && forall o | o > |buf| :: read(buf, o).Err?
    ensures Falls(ReadMany(buf, offset, n, read), buf)
  {
  }

  lemma ArrayFalls<T>(buf: bytes, offset: int, xs: seq<T>, enc: T -> bytes, read: (bytes, int) -> Read<T>)
    requires offset % 4 == 0 && InInt(|xs|) && Cut(buf, offset, EncInt(|xs|) + EncMany(xs, enc))
    requires forall i | 0 <= i < |xs| ::
               ElementReads(buf, xs[i], enc, read, true) && ElementFalls(buf, xs[i], enc, read)
    requires forall o | o > |buf| :: read(buf, o).Err?
    ensures Falls(ReadArray(buf, offset, read), buf)
  {
    hide At, Cut, EncMany, EncInt, ReadInt, ReadMany, ElementReads, ElementFalls, InInt;
    CutOffset(buf, offset, EncInt(|xs|) + EncMany(xs, enc));
    CutSplit(buf, offset, EncInt(|xs|), EncMany(xs, enc));
    NumbersFall(buf, offset);
    if |buf| >= offset + 4 {
      ReadIntAt(buf, offset, |xs|);
      ManyFall(buf, offset + 4, xs, enc, read);
    }
  }

  lemma CutOffset(buf: bytes, offset: int, bs: bytes)
    ensures Cut(buf, offset, bs) ==> 0 <= offset <= |buf|
  {
  }

  lemma NumberFalls(buf: bytes, n: int, f: Float64)
    ensures ElementFalls(buf, n, EncInt, ReadInt) && ElementFalls(buf, n, EncLong, ReadLong)
    ensures ElementFalls(buf, f, EncFloat, ReadFloat)
    ensures forall o | o > |buf| :: ReadInt(buf, o).Err? && ReadLong(buf, o).Err? && ReadFloat(buf, o).Err?
  {
    forall o: int | 0 <= o
      ensures o + 4 > |buf| ==> ReadInt(buf, o).Err?
      ensures o + 8 > |buf| ==> ReadLong(buf, o).Err? && ReadFloat(buf, o).Err?
    {
      NumbersFall(buf, o);
    }
  }

  lemma TextFalls(buf: bytes, s: string, b: bytes)
    ensures FitsString(s) && Utf8.Ascii(s) ==> ElementFalls(buf, s, EncString, ReadString)
    ensures FitsBinary(b) ==> ElementFalls(buf, b, EncBinary, ReadBinary)
    ensures forall o | o > |buf| :: ReadString(buf, o).Err? && ReadBinary(buf, o).Err?
  {
    hide Cut, EncString, EncBinary, ReadString, ReadBinary, FitsString, FitsBinary, Utf8.Ascii;
    forall o | o % 4 == 0 && Cut(buf, o, EncString(s)) && FitsString(s) && Utf8.Ascii(s)
      ensures Falls(ReadString(buf, o), buf)
    {
      StringFalls(buf, o, s);
    }
    forall o | o % 4 == 0 && Cut(buf, o, EncBinary(b)) && FitsBinary(b) ensures Falls(ReadBinary(buf, o), buf) {
      BlobFalls(buf, o, b);
    }
    forall o | o > |buf| ensures ReadString(buf, o).Err? && ReadBinary(buf, o).Err? { PastFails(buf, o); }
  }

  lemma PlainFalls(buf: bytes, offset: int, v: Value, depth: nat)
    requires !v.Nested? && !v.NestedList? && offset % 4 == 0 && Fits(v) && AsciiOnly(v)
    requires Cut(buf, offset, EncPayload(v))
    ensures Falls(ReadValue(buf, offset, TypeCode(v), depth), buf)
  {
    hide At, Cut, EncInt, EncLong, EncFloat, EncString, EncBinary, EncContent, EncMany, ReadInt, ReadLong,
         ReadFloat, ReadString, ReadBinary, ReadBools, ReadArray, InInt, InLong, FitsString, FitsBinary, Utf8.Ascii,
         Packed, ElementReads, ElementFalls;
    CutOffset(buf, offset, EncPayload(v));
    NumberFalls(buf, 0, 0);
    TextFalls(buf, "", []);
    match v
    case Bool(b) => WordFalls(buf, offset, EncInt(if b then 1 else 0));
    case Int(i) => WordFalls(buf, offset, EncInt(i));
    case Long(l) => DoubleFalls(buf, offset, EncLong(l));
    case Float(f) => DoubleFalls(buf, offset, EncFloat(f));
    case Str(s) => StringFalls(buf, offset, s);
    case Blob(b) => BlobFalls(buf, offset, b);
    case Bools(xs) => BoolsFall(buf, offset, xs);
    case Ints(xs) =>
      forall i | 0 <= i < |xs|
        ensures ElementReads(buf, xs[i], EncInt, ReadInt, true) && ElementFalls(buf, xs[i], EncInt, ReadInt)
      {
        IntReads(buf, xs[i]);
        NumberFalls(buf, xs[i], 0);
      }
      ArrayFalls(buf, offset, xs, EncInt, ReadInt);
    case Longs(xs) =>
      forall i | 0 <= i < |xs|
        ensures ElementReads(buf, xs[i], EncLong, ReadLong, true) && ElementFalls(buf, xs[i], EncLong, ReadLong)
      {
        LongReads(buf, xs[i]);
        NumberFalls(buf, xs[i], 0);
      }
      ArrayFalls(buf, offset, xs, EncLong, ReadLong);
    case Floats(xs) =>
      forall i | 0 <= i < |xs|
        ensures ElementReads(buf, xs[i], EncFloat, ReadFloat, true) && ElementFalls(buf, xs[i], EncFloat, ReadFloat)
      {
        FloatReads(buf, xs[i]);
        NumberFalls(buf, 0, xs[i]);
      }
      ArrayFalls(buf, offset, xs, EncFloat, ReadFloat);
    case Strs(xs) =>
      forall i | 0 <= i < |xs|
        ensures ElementReads(buf, xs[i], EncString, ReadString, true) && ElementFalls(buf, xs[i], EncString, ReadString)
      {
        StringReads(buf, xs[i]);
        TextFalls(buf, xs[i], []);
      }
      ArrayFalls(buf, offset, xs, EncString, ReadString);
    case Blobs(xs) =>
      forall i | 0 <= i < |xs|
        ensures ElementReads(buf, xs[i], EncBinary, ReadBinary, true) && ElementFalls(buf, xs[i], EncBinary, ReadBinary)
      {
        BinaryReads(buf, xs[i]);
        TextFalls(buf, "", xs[i]);
      }
      ArrayFalls(buf, offset, xs, EncBinary, ReadBinary);
  }

  lemma WordFalls(buf: bytes, offset: int, bs: bytes)
    requires |bs| == 4 && Cut(buf, offset, bs)
    ensures ReadInt(buf, offset).Err?
  {
    NumbersFall(buf, offset);
  }

  lemma DoubleFalls(buf: bytes, offset: int, bs: bytes)
    requires |bs| == 8 && Cut(buf, offset, bs)
    ensures ReadLong(buf, offset).Err? && ReadFloat(buf, offset).Err?
  {
    NumbersFall(buf, offset);
  }

  lemma {:induction false} ValueFalls(buf: bytes, offset: int, v: Value, depth: nat)
    requires offset % 4 == 0 && Valid(v) && Fits(v) && Depth(v) <= depth && AsciiOnly(v)
    requires Cut(buf, offset, EncPayload(v))
    ensures Falls(ReadValue(buf, offset, TypeCode(v), depth), buf)
    decreases v, 0
  {
    hide At, Cut, EncInt, Encode, EncodeList, ReadInt, ReadNested, ReadNestedMany, InInt, FitsCollection,
         ValidCollection, AsciiSlots;
    CutOffset(buf, offset, EncPayload(v));
    match v
    case Nested(c) => NestedFalls(buf, offset, c, depth);
    case NestedList(cs) =>
      CutSplit(buf, offset, EncInt(|cs|), EncodeList(cs));
      if |buf| < offset + 4 {
        WordFalls(buf, offset, EncInt(|cs|));
      } else {
        ReadIntAt(buf, offset, |cs|);
        NestedManyFall(buf, offset + 4, cs, depth);
      }
    case _ => PlainFalls(buf, offset, v, depth);
  }

  lemma {:induction false} NestedFalls(buf: bytes, offset: int, c: Collection, depth: nat)
    requires offset % 4 == 0 && ValidCollection(c) && FitsCollection(c) && DepthSlots(c.slots) < depth
    requires AsciiSlots(c.slots) && Cut(buf, offset, Encode(c))
    ensures Falls(ReadNested(buf, offset, depth), buf)
    decreases c, 1
  {
    hide Cut, ReadCollection, Encode, FitsCollection, ValidCollection, AsciiSlots, DepthSlots, InsertAll;
    CollectionFalls(buf, offset, c, depth - 1);
  }

  lemma {:induction false} NestedManyFall(buf: bytes, offset: int, cs: seq<Collection>, depth: nat)
    requires offset % 4 == 0 && ValidList(cs) && FitsList(cs) && DepthList(cs) <= depth
    requires AsciiList(cs) && Cut(buf, offset, EncodeList(cs))
    ensures Falls(ReadNestedMany(buf, offset, |cs|, depth), buf)
    decreases cs, 1
  {
    hide At, Cut, ReadNested, Encode, FitsCollection, ValidCollection, AsciiSlots, DepthSlots;
    if cs == [] {
      EmptyNotCut(buf, offset);
    } else {
      CutSplit(buf, offset, Encode(cs[0]), EncodeList(cs[1..]));
      if |buf| < offset + |Encode(cs[0])| {
        NestedFalls(buf, offset, cs[0], depth);
        var r := ReadNested(buf, offset, depth);
        if r.Ok? { NestedPast(buf, r.value.1, depth); }
      } else {
        ReadNestedAt(buf, offset, cs[0], depth);
        NestedManyFall(buf, offset + |Encode(cs[0])|, cs[1..], depth);
      }
    }
  }

  lemma EmptyNotCut(buf: bytes, offset: int)
    ensures !Cut(buf, offset, [])
  {
  }

  lemma NestedPast(buf: bytes, offset: int, depth: nat)
    requires offset > |buf|
    ensures ReadNested(buf, offset, depth).Err?
  {
    hide ReadInt, ReadEntries, InsertAll;
    PastFails(buf, offset);
  }

  lemma {:induction false} EntryFalls(buf: bytes, offset: int, e: Entry, depth: nat)
    requires offset % 4 == 0 && ValidEntry(e) && FitsEntry(e) && DepthEntry(e) <= depth
    requires AsciiEntry(e) && Cut(buf, offset, EncEntry(e))
    ensures Falls(ReadEntry(buf, offset, depth), buf)
    decreases e, 0
  {
    hide At, Cut, ReadInt, ReadString, ReadValue, EncInt, EncString, EncPayload, Fits, FitsString, Valid, AsciiOnly,
         Utf8.Ascii, TypeCode, IsEmptyArray, InInt, Depth;
    var name, code := EncString(e.name), EncInt(TypeCode(e.value));
    CutOffset(buf, offset, EncEntry(e));
    CutSplit(buf, offset, name + code, EncPayload(e.value));
    if |buf| < offset + |name + code| {
      CutSplit(buf, offset, name, code);
      if |buf| < offset + |name| {
        StringFalls(buf, offset, e.name);
        var r := ReadString(buf, offset);
        if r.Ok? { PastFails(buf, r.value.1); }
      } else {
        ReadStringAt(buf, offset, e.name);
        WordFalls(buf, offset + |name|, code);
      }
    } else {
      AtSplit(buf, offset, name, code);
      ReadStringAt(buf, offset, e.name);
      SmallInts();
      ReadIntAt(buf, offset + |name|, TypeCode(e.value));
      ValueFalls(buf, offset + |name + code|, e.value, depth);
    }
  }

  lemma {:induction false} UsedFalls(buf: bytes, offset: int, slot: Slot, depth: nat)
    requires slot.Used? && offset % 4 == 0 && ValidSlot(slot) && FitsSlot(slot) && DepthSlot(slot) <= depth
    requires AsciiSlot(slot) && Cut(buf, offset, EncSlot(slot))
    ensures Falls(ReadEntry(buf, offset, depth), buf)
    decreases slot, 0
  {
    hide ReadEntry, EncEntry, Cut, FitsEntry, ValidEntry, AsciiEntry, DepthEntry;
    EntryFalls(buf, offset, slot.entry, depth);
  }

  lemma {:induction false} SlotsFall(buf: bytes, offset: int, slots: seq<Slot>, depth: nat)
    requires offset % 4 == 0 && ValidSlots(slots) && FitsSlots(slots) && DepthSlots(slots) <= depth
    requires AsciiSlots(slots) && Cut(buf, offset, EncSlots(slots))
    ensures var end := ReadEntries(buf, offset, |Items(slots)|, depth).end; end.Ok? ==> end.value > |buf|
    decreases slots, 1
  {
    hide At, Cut, ReadEntry, ReadEntries, EncSlot, EncSlots, FitsSlot, FitsSlots, ValidSlot, ValidSlots, AsciiSlot,
         AsciiSlots, DepthSlot, DepthSlots, CompactEntry, CompactEntries, Items;
    if slots == [] {
      NoSlots();
      EmptyNotCut(buf, offset);
    } else {
      SlotsCons(slots);
      CutSplit(buf, offset, EncSlot(slots[0]), EncSlots(slots[1..]));
      CutOffset(buf, offset, EncSlots(slots));
      if !slots[0].Used? {
        HoleIsNothing(slots[0]);
        SlotsFall(buf, offset, slots[1..], depth);
      } else {
        var n := |Items(slots[1..])|;
        ReadEntriesStep(buf, offset, n + 1, depth);
        if |buf| < offset + |EncSlot(slots[0])| {
          UsedFalls(buf, offset, slots[0], depth);
          var r := ReadEntry(buf, offset, depth);
          if r.Ok? { EntriesPast(buf, r.value.1, n, depth); }
        } else {
          ReadUsedAt(buf, offset, slots[0], depth);
          SlotsFall(buf, offset + |EncSlot(slots[0])|, slots[1..], depth);
        }
      }
    }
  }

  lemma EntriesPast(buf: bytes, offset: int, n: int, depth: nat)
    requires offset > |buf|
    ensures var end := ReadEntries(buf, offset, n, depth).end; end.Ok? ==> end.value > |buf|
  {
    hide ReadString, ReadInt, ReadValue;
    PastFails(buf, offset);
  }

  lemma {:induction false} CollectionFalls(buf: bytes, offset: int, c: Collection, depth: nat)
    requires offset % 4 == 0 && ValidCollection(c) && FitsCollection(c) && DepthSlots(c.slots) <= depth
    requires AsciiSlots(c.slots) && Cut(buf, offset, Encode(c))
    ensures var end := ReadCollection(buf, offset, depth).end; end.Ok? ==> end.value > |buf|
    decreases c, 0
  {
    hide At, Cut, ReadInt, ReadEntries, EncInt, EncSlots, FitsSlots, ValidSlots, AsciiSlots, DepthSlots, Consistent,
         Items, InInt;
    CutSplit(buf, offset, EncInt(|c.index|), EncSlots(c.slots));
    CutOffset(buf, offset, Encode(c));
    if |buf| < offset + 4 {
      WordFalls(buf, offset, EncInt(|c.index|));
    } else {
      ReadIntAt(buf, offset, |c.index|);
      CountIsItems(c);
      SlotsFall(buf, offset + 4, c.slots, depth);
    }
  }

  /** No proper prefix of a serialized collection is accepted, wherever it is cut and whatever the depth allowed. */
  lemma TruncationRefused(p: Collection, q: Collection, length: nat, depth: nat)
    requires Consistent(p) && ValidCollection(q) && FitsCollection(q) && AsciiSlots(q.slots) && length < |Encode(q)|
    ensures Deserialize(p, Encode(q)[..length], depth).1.Err?
  {
    hide ReadCollection, Encode, FitsCollection, ValidCollection, AsciiSlots, DepthSlots, InsertAll;
    var buf := Encode(q)[..length];
    var enough := Max(depth, DepthSlots(q.slots));
    CollectionFalls(buf, 0, q, enough);
    if !Stuck(buf, 0, depth) { CollectionStable(buf, 0, depth, enough); }
  }

  // ----- nested too deeply -----

  lemma {:induction false} ValueTooDeep(buf: bytes, offset: int, v: Value, depth: nat)
    requires offset % 4 == 0 && Valid(v) && Fits(v) && Depth(v) > depth && AsciiOnly(v)
    requires At(buf, offset, EncPayload(v))
    ensures ReadValue(buf, offset, TypeCode(v), depth) == Err(RecursionError)
    decreases v, 0
  {
    hide At, EncInt, Encode, EncodeList, ReadInt, ReadNested, ReadNestedMany, InInt, FitsCollection,
         ValidCollection, AsciiSlots;
    if v.Nested? {
      NestedTooDeep(buf, offset, v.params, depth);
    } else {
      AtSplit(buf, offset, EncInt(|v.list|), EncodeList(v.list));
      ReadIntAt(buf, offset, |v.list|);
      NestedManyTooDeep(buf, offset + 4, v.list, depth);
    }
  }

  lemma {:induction false} NestedTooDeep(buf: bytes, offset: int, c: Collection, depth: nat)
    requires offset % 4 == 0 && ValidCollection(c) && FitsCollection(c) && DepthSlots(c.slots) >= depth
    requires AsciiSlots(c.slots) && At(buf, offset, Encode(c))
    ensures ReadNested(buf, offset, depth) == Err(RecursionError)
    decreases c, 1
  {
    hide At, ReadCollection, Encode, FitsCollection, ValidCollection, AsciiSlots, DepthSlots, InsertAll;
    if depth > 0 { CollectionTooDeep(buf, offset, c, depth - 1); }
  }

  lemma {:induction false} NestedManyTooDeep(buf: bytes, offset: int, cs: seq<Collection>, depth: nat)
    requires offset % 4 == 0 && ValidList(cs) && FitsList(cs) && DepthList(cs) > depth
    requires AsciiList(cs) && At(buf, offset, EncodeList(cs))
    ensures ReadNestedMany(buf, offset, |cs|, depth) == Err(RecursionError)
    decreases cs, 1
  {
    hide At, ReadNested, Encode, FitsCollection, ValidCollection, AsciiSlots, DepthSlots;
    AtSplit(buf, offset, Encode(cs[0]), EncodeList(cs[1..]));
    if DepthSlots(cs[0].slots) >= depth {
      NestedTooDeep(buf, offset, cs[0], depth);
    } else {
      ReadNestedAt(buf, offset, cs[0], depth);
      NestedManyTooDeep(buf, offset + |Encode(cs[0])|, cs[1..], depth);
    }
  }

  lemma {:induction false} EntryTooDeep(buf: bytes, offset: int, e: Entry, depth: nat)
    requires offset % 4 == 0 && ValidEntry(e) && FitsEntry(e) && DepthEntry(e) > depth
    requires AsciiEntry(e) && At(buf, offset, EncEntry(e))
    ensures ReadEntry(buf, offset, depth) == Err(RecursionError)
    decreases e, 0
  {
    hide At, ReadInt, ReadString, ReadValue, EncInt, EncString, EncPayload, Fits, FitsString, Valid, AsciiOnly,
         Utf8.Ascii, TypeCode, IsEmptyArray, InInt, Depth;
    var name, code := EncString(e.name), EncInt(TypeCode(e.value));
    AtSplit(buf, offset, name + code, EncPayload(e.value));
    AtSplit(buf, offset, name, code);
    ReadStringAt(buf, offset, e.name);
    SmallInts();
    ReadIntAt(buf, offset + |name|, TypeCode(e.value));
    ValueTooDeep(buf, offset + |name + code|, e.value, depth);
  }

  lemma {:induction false} UsedTooDeep(buf: bytes, offset: int, slot: Slot, depth: nat)
    requires offset % 4 == 0 && ValidSlot(slot) && FitsSlot(slot) && DepthSlot(slot) > depth
    requires AsciiSlot(slot) && At(buf, offset, EncSlot(slot))
    ensures slot.Used? && ReadEntry(buf, offset, depth) == Err(RecursionError)
    decreases slot, 0
  {
    hide ReadEntry, EncEntry, At, FitsEntry, ValidEntry, AsciiEntry, DepthEntry;
    EntryTooDeep(buf, offset, slot.entry, depth);
  }

  lemma {:induction false} SlotsTooDeep(buf: bytes, offset: int, slots: seq<Slot>, depth: nat)
    requires offset % 4 == 0 && ValidSlots(slots) && FitsSlots(slots) && DepthSlots(slots) > depth
    requires AsciiSlots(slots) && At(buf, offset, EncSlots(slots))
    ensures ReadEntries(buf, offset, |Items(slots)|, depth).end == Err(RecursionError)
    decreases slots, 1
  {
    hide At, ReadEntry, ReadEntries, EncSlot, EncSlots, FitsSlot, FitsSlots, ValidSlot, ValidSlots, AsciiSlot,
         AsciiSlots, DepthSlot, CompactEntry, CompactEntries, Items;
    SlotsCons(slots);
    AtSplit(buf, offset, EncSlot(slots[0]), EncSlots(slots[1..]));
    if DepthSlot(slots[0]) > depth {
      UsedTooDeep(buf, offset, slots[0], depth);
      ReadEntriesStep(buf, offset, |Items(slots)|, depth);
    } else if slots[0].Used? {
      ReadUsedAt(buf, offset, slots[0], depth);
      SlotsTooDeep(buf, offset + |EncSlot(slots[0])|, slots[1..], depth);
      ReadEntriesStep(buf, offset, |Items(slots)|, depth);
    } else {
      HoleIsNothing(slots[0]);
      SlotsTooDeep(buf, offset, slots[1..], depth);
    }
  }

  lemma {:induction false} CollectionTooDeep(buf: bytes, offset: int, c: Collection, depth: nat)
    requires offset % 4 == 0 && ValidCollection(c) && FitsCollection(c) && DepthSlots(c.slots) > depth
    requires AsciiSlots(c.slots) && At(buf, offset, Encode(c))
    ensures Stuck(buf, offset, depth)
    decreases c, 0
  {
    hide At, ReadInt, ReadEntries, EncInt, EncSlots, FitsSlots, ValidSlots, AsciiSlots, DepthSlots, Consistent,
         Items, InInt;
    AtSplit(buf, offset, EncInt(|c.index|), EncSlots(c.slots));
    ReadIntAt(buf, offset, |c.index|);
    CountIsItems(c);
    SlotsTooDeep(buf, offset + 4, c.slots, depth);
  }

  /** The round trip is the identity, up to empty slots, exactly when all text is ASCII and the interpreter allows as
      many nested calls as the collection is deep. */
  lemma RoundTripIff(c: Collection, depth: nat)
    requires ValidCollection(c) && FitsCollection(c)
    ensures Deserialize(EMPTY, Encode(c), depth) == (Compact(c), Ok(()))
       <==> AsciiSlots(c.slots) && DepthSlots(c.slots) <= depth
  {
    hide ReadCollection, Encode, FitsCollection, ValidCollection, AsciiSlots, DepthSlots, CompactEntries, InsertAll,
         Compact;
    var buf := Encode(c);
    if DepthSlots(c.slots) <= depth {
      RoundTripIffAscii(c, depth);
    } else if AsciiSlots(c.slots) {
      WholeAt(buf);
      CollectionTooDeep(buf, 0, c, depth);
    } else {
      RoundTripIffAscii(c, DepthSlots(c.slots));
      if !Stuck(buf, 0, depth) { CollectionStable(buf, 0, depth, DepthSlots(c.slots)); }
    }
  }

  lemma WholeAt(buf: bytes)
    ensures At(buf, 0, buf)
  {
  }
}
