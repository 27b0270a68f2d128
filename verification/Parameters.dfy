/** The Parameters class: the slot table updated in place, its iterator, and the serializing and
    deserializing loops, proved against the functions of SlotTable and WireFormat. */
module ParametersClass {
  import opened Outcomes
  import opened ByteCodec
  import SlotTable
  import WireBytes
  import opened WireFormat

  type Slot = SlotTable.Slot
  type Entry = SlotTable.Entry
  type Value = SlotTable.Value
  type Collection = SlotTable.Collection

  // ----- iteration -----

  class EntryIterator {
    const slots: seq<Slot>
    var nextIndex: nat

    ghost predicate Valid()
      reads this
    {
      nextIndex <= |slots| && (nextIndex < |slots| ==> slots[nextIndex].Used?)
    }

    /** What is left to visit. */
    ghost function Remaining(): seq<Entry>
      reads this
      requires nextIndex <= |slots|
    {
      SlotTable.Items(slots[nextIndex..])
    }

    constructor (slots: seq<Slot>)
      ensures Valid() && this.slots == slots && Remaining() == SlotTable.Items(slots)
    {
      this.slots := slots;
      nextIndex := 0;
      new;
      assert slots[0..] == slots;
      SkipUnused();
    }

    lemma AtEnd()
      requires nextIndex == |slots|
      ensures Remaining() == []
    {
    }

    method SkipUnused()
      requires nextIndex <= |slots|
      modifies this
      ensures Valid() && old(nextIndex) <= nextIndex && Remaining() == old(Remaining())
    {
      var i := nextIndex;
      while i < |slots| && slots[i].Hole?
        invariant nextIndex <= i <= |slots|
        invariant SlotTable.Items(slots[i..]) == old(Remaining())
      {
        assert slots[i..][1..] == slots[i + 1..];
        i := i + 1;
      }
      nextIndex := i;
    }

    method Next() returns (r: Option<Entry>)
      requires Valid()
      modifies this
      ensures Valid()
      ensures old(nextIndex) < |slots| ==>
                && old(nextIndex) < nextIndex && r == Some(slots[old(nextIndex)].entry)
                && [r.value] + Remaining() == old(Remaining())
      ensures old(nextIndex) == |slots| ==> r == None && nextIndex == |slots| && old(Remaining()) == []
    {
      if nextIndex < |slots| {
        r := Some(slots[nextIndex].entry);
        assert slots[nextIndex..][1..] == slots[nextIndex + 1..];
        nextIndex := nextIndex + 1;
        SkipUnused();
      } else {
        r := None;
      }
    }
  }

  // ----- writing -----

  /** io.BytesIO, as far as the serializer uses it. */
  class ByteBuffer {
    var data: bytes

    constructor ()
      ensures data == []
    {
      data := [];
    }

    method Write(bs: bytes)
      modifies this
      ensures data == old(data) + bs
    {
      data := data + bs;
    }

    method AppendInt(i: int) returns (r: Result<(), Error>)
      modifies this
      ensures r == if InInt(i) then Ok(()) else Err(StructError)
      ensures r.Ok? ==> data == old(data) + EncInt(i)
    {
      if !InInt(i) { return Err(StructError); }
      Write(EncInt(i));
      return Ok(());
    }

    method AppendMany<T>(xs: seq<T>, enc: T -> bytes, fits: T -> bool) returns (r: Result<(), Error>)
      modifies this
      ensures r == if InInt(|xs|) && AllOf(xs, fits) then Ok(()) else Err(StructError)
      ensures r.Ok? ==> data == old(data) + (EncInt(|xs|) + EncMany(xs, enc))
    {
      hide EncInt, InInt, AllOf, EncMany;
      var _ :- AppendInt(|xs|);
      var i := 0;
      assert xs[0..] == xs;
      while i < |xs|
        invariant 0 <= i <= |xs|
        invariant AllOf(xs[i..], fits) <==> AllOf(xs, fits)
        invariant data + EncMany(xs[i..], enc) == old(data) + (EncInt(|xs|) + EncMany(xs, enc))
      {
        UncoverMany(xs, i, enc, fits);
        if !fits(xs[i]) { return Err(StructError); }
        Write(enc(xs[i]));
        i := i + 1;
      }
      UncoverMany(xs, i, enc, fits);
      return Ok(());
    }
  }

  lemma UncoverMany<T>(xs: seq<T>, i: nat, enc: T -> bytes, fits: T -> bool)
    requires i <= |xs|
    ensures i < |xs| ==> EncMany(xs[i..], enc) == enc(xs[i]) + EncMany(xs[i + 1..], enc)
    ensures i < |xs| ==> (AllOf(xs[i..], fits) <==> fits(xs[i]) && AllOf(xs[i + 1..], fits))
    ensures i == |xs| ==> EncMany(xs[i..], enc) == [] && AllOf(xs[i..], fits)
  {
    if i < |xs| {
      var rest := xs[i + 1..];
      assert xs[i..][0] == xs[i] && xs[i..][1..] == rest;
      assert forall k | 0 <= k < |rest| :: rest[k] == xs[i..][k + 1];
    }
  }

  /** Type code and payload of one value. */
  method AppendValue(buffer: ByteBuffer, v: Value) returns (r: Result<(), Error>)
    requires Valid(v)
    modifies buffer
    ensures r == if Fits(v) then Ok(()) else Err(StructError)
    ensures r.Ok? ==> buffer.data == old(buffer.data) + (EncInt(TypeCode(v)) + EncPayload(v))
    decreases v, 2
  {
    hide EncInt, EncPayload, Fits, Valid, InInt, TypeCode;
    CodesFit(v);
    var _ := buffer.AppendInt(TypeCode(v));
    r := AppendPayload(buffer, v);
  }

  method AppendPayload(buffer: ByteBuffer, v: Value) returns (r: Result<(), Error>)
    requires Valid(v)
    modifies buffer
    ensures r == if Fits(v) then Ok(()) else Err(StructError)
    ensures r.Ok? ==> buffer.data == old(buffer.data) + EncPayload(v)
    decreases v, 1
  {
    hide EncInt, EncLong, EncFloat, EncString, EncBinary, EncMany, EncContent, Encode, EncodeList, InInt, InLong,
         FitsString,
         FitsBinary, FitsCollection, FitsList, ValidCollection, ValidList, Packed, AllOf;
    CodesFit(v);
    AllFloatsFit(v);
    match v
    case Bool(b) => r := buffer.AppendInt(if b then 1 else 0);
    case Int(i) => r := buffer.AppendInt(i);
    case Long(l) => r := AppendScalar(buffer, EncLong(l), InLong(l));
    case Float(f) => r := AppendScalar(buffer, EncFloat(f), true);
    case Str(s) => r := AppendScalar(buffer, EncString(s), FitsString(s));
    case Blob(bs) => r := AppendScalar(buffer, EncBinary(bs), FitsBinary(bs));
    case Bools(xs) =>
      var packed := PackBools(xs);
      r := AppendScalar(buffer, EncInt(|xs|) + EncContent(packed, |packed|), InInt(|xs|));
    case Ints(xs) => r := buffer.AppendMany(xs, EncInt, InInt);
    case Longs(xs) => r := buffer.AppendMany(xs, EncLong, InLong);
    case Floats(xs) => r := buffer.AppendMany(xs, EncFloat, AnyFloat);
    case Strs(xs) => r := buffer.AppendMany(xs, EncString, FitsString);
    case Blobs(xs) => r := buffer.AppendMany(xs, EncBinary, FitsBinary);
    case Nested(c) => r := AppendNested(buffer, c);
    case NestedList(cs) => r := AppendNestedMany(buffer, cs);
  }

  lemma AllFloatsFit(v: Value)
    ensures v.Floats? ==> AllOf(v.floats, AnyFloat)
  {
  }

  predicate AnyFloat(f: SlotTable.Float64) { true }

  lemma CodesFit(v: Value)
    ensures InInt(TypeCode(v)) && InInt(0) && InInt(1)
  {
    ModulusOf8();
  }

  method AppendScalar(buffer: ByteBuffer, bs: bytes, fits: bool) returns (r: Result<(), Error>)
    modifies buffer
    ensures r == if fits then Ok(()) else Err(StructError)
    ensures r.Ok? ==> buffer.data == old(buffer.data) + bs
  {
    if !fits { return Err(StructError); }
    buffer.Write(bs);
    return Ok(());
  }

  method AppendNested(buffer: ByteBuffer, c: Collection) returns (r: Result<(), Error>)
    requires ValidCollection(c)
    modifies buffer
    ensures r == if FitsCollection(c) then Ok(()) else Err(StructError)
    ensures r.Ok? ==> buffer.data == old(buffer.data) + Encode(c)
    decreases c, 1
  {
    var bs :- Serialize(c);
    buffer.Write(bs);
    return Ok(());
  }

  method AppendNestedMany(buffer: ByteBuffer, cs: seq<Collection>) returns (r: Result<(), Error>)
    requires ValidList(cs)
    modifies buffer
    ensures r == if InInt(|cs|) && FitsList(cs) then Ok(()) else Err(StructError)
    ensures r.Ok? ==> buffer.data == old(buffer.data) + (EncInt(|cs|) + EncodeList(cs))
    decreases cs, 1
  {
    hide Encode, FitsCollection, ValidCollection, EncInt, InInt;
    var _ :- buffer.AppendInt(|cs|);
    var i := 0;
    while i < |cs|
      invariant 0 <= i <= |cs| && ValidList(cs[i..]) && (FitsList(cs) <==> FitsList(cs[i..]))
      invariant buffer.data + EncodeList(cs[i..]) == old(buffer.data) + EncInt(|cs|) + EncodeList(cs)
    {
      assert cs[i..][1..] == cs[i + 1..] && cs[i..][0] == cs[i];
      var _ :- AppendNested(buffer, cs[i]);
      i := i + 1;
    }
    assert cs[i..] == [] && buffer.data + [] == buffer.data;
    return Ok(());
  }

  /** serialize(): the count, then every entry the iterator visits. */
  method Serialize(c: Collection) returns (r: Result<bytes, Error>)
    requires ValidCollection(c)
    ensures r == if FitsCollection(c) then Ok(Encode(c)) else Err(StructError)
    decreases c, 0
  {
    hide EncInt, EncEntry, EncMany, FitsEntry, ValidEntry, InInt, EncSlots, FitsSlots, ValidSlots, AllOf,
         SlotTable.Consistent,
         AllValid, SlotTable.Items;
    var buffer := new ByteBuffer();
    SlotsAreItems(c.slots);
    WireBytes.SlotsAreEntries(c.slots);
    var _ :- buffer.AppendInt(|c.index|);
    var items := new EntryIterator(c.slots);
    while items.nextIndex < |c.slots|
      invariant items.Valid() && items.slots == c.slots
      invariant AllValid(items.Remaining())
      invariant FitsSlots(c.slots) <==> AllOf(items.Remaining(), FitsEntry)
      invariant buffer.data + EncMany(items.Remaining(), EncEntry) == Encode(c)
      decreases |c.slots| - items.nextIndex
    {
      ghost var rest := items.Remaining();
      var next := items.Next();
      var e := next.value;
      UncoverFirst(e, items.Remaining());
      var _ :- AppendEntry(buffer, e);
    }
    items.AtEnd();
    NothingLeft(buffer.data);
    return Ok(buffer.data);
  }

  method AppendEntry(buffer: ByteBuffer, e: Entry) returns (r: Result<(), Error>)
    requires ValidEntry(e)
    modifies buffer
    ensures r == if FitsEntry(e) then Ok(()) else Err(StructError)
    ensures r.Ok? ==> buffer.data == old(buffer.data) + EncEntry(e)
    decreases e, 0
  {
    hide EncInt, EncString, EncPayload, FitsString, Fits, Valid, TypeCode;
    if !FitsString(e.name) { return Err(StructError); }
    buffer.Write(EncString(e.name));
    r := AppendValue(buffer, e.value);
  }

  lemma UncoverFirst(e: Entry, rest: seq<Entry>)
    ensures AllValid([e] + rest) <==> ValidEntry(e) && AllValid(rest)
    ensures AllOf([e] + rest, FitsEntry) <==> FitsEntry(e) && AllOf(rest, FitsEntry)
    ensures EncMany([e] + rest, EncEntry) == EncEntry(e) + EncMany(rest, EncEntry)
  {
    hide ValidEntry, FitsEntry, EncEntry;
    var es := [e] + rest;
    assert es[0] == e && es[1..] == rest;
    assert AllValid(es) ==> AllValid(rest) by { assert forall i | 0 <= i < |rest| :: rest[i] == es[i + 1]; }
    assert AllOf(es, FitsEntry) ==> AllOf(rest, FitsEntry) by {
      assert forall i | 0 <= i < |rest| :: rest[i] == es[i + 1];
    }
  }

  lemma NothingLeft(data: bytes)
    ensures data + EncMany([], EncEntry) == data
    ensures EncMany([], EncEntry) == []
    ensures AllOf([], FitsEntry) && AllValid([])
  {
  }

  ghost predicate AllValid(es: seq<Entry>) {
    forall i | 0 <= i < |es| :: ValidEntry(es[i])
  }

  lemma {:induction false} SlotsAreItems(slots: seq<Slot>)
    ensures FitsSlots(slots) <==> AllOf(SlotTable.Items(slots), FitsEntry)
    ensures ValidSlots(slots) ==> AllValid(SlotTable.Items(slots))
  {
    hide FitsEntry, ValidEntry, AllOf, AllValid, EncMany;
    NothingLeft([]);
    if slots != [] {
      SlotsAreItems(slots[1..]);
      var rest := SlotTable.Items(slots[1..]);
      if slots[0].Used? {
        UncoverFirst(slots[0].entry, rest);
        assert ValidSlots(slots) ==> ValidSlot(slots[0]);
      }
    }
  }

  // ----- reading -----

  /** The element loops of the reader. */
  method ExtractMany<T>(buf: bytes, start: int, n: int, extract: (bytes, int) -> Read<T>) returns (r: Read<seq<T>>)
    ensures r == ReadMany(buf, start, n, extract)
  {
    var value, offset := [], start;
    var j := 0;
    PrependNone([], ReadMany(buf, start, n, extract));
    while j < n
      invariant 0 <= j && (j <= n || n <= 0 == j)
      invariant ReadMany(buf, start, n, extract) == Prepend(value, ReadMany(buf, offset, n - j, extract))
    {
      var element :- extract(buf, offset);
      var (v, o) := element;
      PrependOne(value, v, ReadMany(buf, o, n - j - 1, extract));
      value, offset, j := value + [v], o, j + 1;
    }
    PrependNone(value, ReadMany(buf, offset, n - j, extract));
    return Ok((value, offset));
  }

  function Prepend<T>(xs: seq<T>, r: Read<seq<T>>): Read<seq<T>> {
    if r.Err? then r else Ok((xs + r.value.0, r.value.1))
  }

  lemma PrependNone<T>(xs: seq<T>, r: Read<seq<T>>)
    ensures Prepend([], r) == r
    ensures r.Ok? && r.value.0 == [] ==> Prepend(xs, r) == Ok((xs, r.value.1))
  {
    if r.Ok? {
      assert [] + r.value.0 == r.value.0;
      assert xs + [] == xs;
    }
  }

  lemma PrependOne<T>(xs: seq<T>, x: T, r: Read<seq<T>>)
    ensures Prepend(xs, Prepend([x], r)) == Prepend(xs + [x], r)
  {
    if r.Ok? { assert xs + ([x] + r.value.0) == (xs + [x]) + r.value.0; }
  }

  /** The unpacking loop, one bit at a time; packed_array[byte_position] may be out of range. */
  method ExtractBits(packed: bytes, length: int) returns (r: Result<seq<bool>, Error>)
    ensures r == UnpackBits(packed, length)
  {
    var value: seq<bool> := [];
    var j := 0;
    while j < length
      invariant 0 <= j && (j <= length || length <= 0 == j) && |value| == j
      invariant PackedSize(j) <= |packed|
      invariant value == Unpack(packed, j)
    {
      var bytePosition, bitPosition := j / 8, j % 8;
      if bytePosition >= |packed| { return Err(IndexError); }
      value := value + [TestBit(packed[bytePosition], bitPosition)];
      j := j + 1;
    }
    return Ok(value);
  }

  class Parameters {
    var slots: seq<Slot>
    var index: map<string, nat>

    function View(): Collection
      reads this
    {
      SlotTable.Collection(slots, index)
    }

    ghost predicate Valid()
      reads this
    {
      SlotTable.Consistent(View())
    }

    constructor ()
      ensures Valid() && View() == SlotTable.EMPTY
    {
      slots, index := [], map[];
    }

    /** __setitem__ */
    method SetItem(name: string, value: Value) returns (r: Result<(), Error>)
      requires Valid()
      modifies this
      ensures Valid()
      ensures r == if SlotTable.IsEmptyArray(value) then Err(TypeError) else Ok(())
      ensures View() == SlotTable.Step(old(View()), SlotTable.Set(SlotTable.Entry(name, value)))
    {
      var e := SlotTable.Entry(name, value);
      SlotTable.StepRefines(View(), SlotTable.Set(e));
      if SlotTable.IsEmptyArray(value) { return Err(TypeError); }
      if name in index {
        assert SlotTable.IsUsed(slots, index[name], name);
        slots := slots[index[name] := SlotTable.Used(e)];
      } else {
        var i := SlotTable.FirstHole(slots);
        if i < |slots| {
          slots := slots[i := SlotTable.Used(e)];
        } else {
          slots := slots + [SlotTable.Used(e)];
        }
        index := index[name := i];
      }
      return Ok(());
    }

    /** __getitem__ */
    method GetItem(name: string) returns (r: Result<Value, Error>)
      requires Valid()
      ensures r == if name in SlotTable.Contents(View()) then Ok(SlotTable.Contents(View())[name]) else Err(KeyError)
    {
      if name in index {
        assert SlotTable.IsUsed(slots, index[name], name);
        return Ok(slots[index[name]].entry.value);
      }
      return Err(KeyError);
    }

    /** __delitem__ */
    method DelItem(name: string) returns (r: Result<(), Error>)
      requires Valid()
      modifies this
      ensures Valid()
      ensures r == if name in old(index) then Ok(()) else Err(KeyError)
      ensures View() == SlotTable.Step(old(View()), SlotTable.Delete(name))
    {
      SlotTable.StepRefines(View(), SlotTable.Delete(name));
      if name !in index { return Err(KeyError); }
      assert SlotTable.IsUsed(slots, index[name], name);
      slots := slots[index[name] := SlotTable.Hole];
      index := index - {name};
      return Ok(());
    }

    /** deserialize(): entries are merged into this collection even when a later one raises. */
    method Deserialize(buf: bytes, depth: nat) returns (r: Result<(), Error>)
      requires Valid()
      modifies this
      ensures Valid()
      ensures (View(), r) == WireFormat.Deserialize(old(View()), buf, depth)
    {
      var offset :- DoDeserialize(buf, 0, depth);
      if offset != |buf| { return Err(ValueError); }
      return Ok(());
    }

    /** __do_deserialize(): one __setitem__ per entry read. */
    method DoDeserialize(buf: bytes, start: int, depth: nat) returns (r: Result<int, Error>)
      requires Valid()
      modifies this
      ensures Valid()
      ensures View() == SlotTable.InsertAll(old(View()), ReadCollection(buf, start, depth).entries)
      ensures r == ReadCollection(buf, start, depth).end
      decreases depth, 2
    {
      hide ReadInt, ReadEntry, View, SlotTable.Consistent, SlotTable.Step, SlotTable.InsertAll, SlotTable.IsEmptyArray;
      InsertOne(View(), [], SlotTable.Entry("", SlotTable.Int(0)));
      var header :- ReadInt(buf, start);
      var (n, offset) := header;
      ghost var scan := ReadEntries(buf, offset, n, depth);
      ghost var done: seq<Entry> := [];
      var i := 0;
      while i < n
        invariant Valid() && 0 <= i && (i <= n || n <= 0 == i)
        invariant View() == SlotTable.InsertAll(old(View()), done)
        invariant scan == After(done, ReadEntries(buf, offset, n - i, depth))
        decreases n - i
      {
        assert done + [] == done;
        var entry :- ExtractEntry(buf, offset, depth);
        var (e, o) := entry;
        AfterOne(done, e, ReadEntries(buf, o, n - i - 1, depth));
        InsertOne(old(View()), done, e);
        var _ := SetItem(e.name, e.value);
        done, offset, i := done + [e], o, i + 1;
      }
      assert done + [] == done;
      return Ok(offset);
    }
  }

  lemma InsertOne(c: Collection, done: seq<Entry>, e: Entry)
    requires SlotTable.Consistent(c)
    ensures SlotTable.InsertAll(c, []) == c
    ensures !SlotTable.IsEmptyArray(e.value) ==>
              SlotTable.InsertAll(c, done + [e]) == SlotTable.Step(SlotTable.InsertAll(c, done), SlotTable.Set(e))
  {
    hide SlotTable.SetItem, SlotTable.Consistent, SlotTable.IsEmptyArray;
    assert (done + [e])[..|done|] == done;
  }

  function After(es: seq<Entry>, scan: Scan): Scan {
    Scan(es + scan.entries, scan.end)
  }

  lemma AfterOne(es: seq<Entry>, e: Entry, scan: Scan)
    ensures After(es, Scan([e] + scan.entries, scan.end)) == After(es + [e], scan)
  {
    assert es + ([e] + scan.entries) == (es + [e]) + scan.entries;
  }

  /** One iteration's reads: name, type code, value. An empty array is refused by __setitem__. */
  method ExtractEntry(buf: bytes, start: int, depth: nat) returns (r: Read<Entry>)
    ensures r == ReadEntry(buf, start, depth)
    ensures r.Ok? ==> !SlotTable.IsEmptyArray(r.value.0.value)
    decreases depth, 1
  {
    hide ReadString, ReadInt, ReadValue, SlotTable.IsEmptyArray;
    var text :- ReadString(buf, start);
    var (name, o) := text;
    var word :- ReadInt(buf, o);
    var (code, o') := word;
    var v :- ExtractValue(buf, o', code, depth);
    var (value, end) := v;
    if SlotTable.IsEmptyArray(value) { return Err(TypeError); }
    return Ok((SlotTable.Entry(name, value), end));
  }

  method ExtractValue(buf: bytes, start: int, code: int, depth: nat) returns (r: Read<Value>)
    ensures r == ReadValue(buf, start, code, depth)
    decreases depth, 0, 2
  {
    hide ReadInt, ReadLong, ReadFloat, ReadString, ReadBinary, ReadNested, ReadNestedMany, ReadMany, UnpackBits;
    match code
    case 7 =>
      var head :- ReadInt(buf, start);
      var (length, o) := head;
      var (packed, end) := ReadContent(buf, o, PackedSize(length));
      var xs :- ExtractBits(packed, length);
      return Ok((SlotTable.Bools(xs), end));
    case 8 =>
      var head :- ReadInt(buf, start);
      var (length, o) := head;
      var xs := ExtractMany(buf, o, length, ReadInt);
      return Retype(xs, (xs: seq<int>) => SlotTable.Ints(xs));
    case 9 =>
      var head :- ReadInt(buf, start);
      var (length, o) := head;
      var xs := ExtractMany(buf, o, length, ReadLong);
      return Retype(xs, (xs: seq<int>) => SlotTable.Longs(xs));
    case 10 =>
      var head :- ReadInt(buf, start);
      var (length, o) := head;
      var xs := ExtractMany(buf, o, length, ReadFloat);
      return Retype(xs, (xs: seq<SlotTable.Float64>) => SlotTable.Floats(xs));
    case 11 =>
      var head :- ReadInt(buf, start);
      var (length, o) := head;
      var xs := ExtractMany(buf, o, length, ReadString);
      return Retype(xs, (xs: seq<string>) => SlotTable.Strs(xs));
    case 12 =>
      var head :- ReadInt(buf, start);
      var (length, o) := head;
      var xs := ExtractMany(buf, o, length, ReadBinary);
      return Retype(xs, (xs: seq<bytes>) => SlotTable.Blobs(xs));
    case 13 =>
      var c := ExtractNested(buf, start, depth);
      return Retype(c, (c: Collection) => SlotTable.Nested(c));
    case 14 =>
      var head :- ReadInt(buf, start);
      var (length, o) := head;
      var cs := ExtractNestedMany(buf, o, length, depth);
      return Retype(cs, (cs: seq<Collection>) => SlotTable.NestedList(cs));
    case _ =>
      return ReadValue(buf, start, code, depth);
  }

  /** A fresh collection, filled by a nested call. */
  method ExtractNested(buf: bytes, start: int, depth: nat) returns (r: Read<Collection>)
    ensures r == ReadNested(buf, start, depth)
    decreases depth, 0, 0
  {
    if depth == 0 { return Err(RecursionError); }
    var nested := new Parameters();
    var o :- nested.DoDeserialize(buf, start, depth - 1);
    return Ok((nested.View(), o));
  }

  method ExtractNestedMany(buf: bytes, start: int, n: int, depth: nat) returns (r: Read<seq<Collection>>)
    ensures r == ReadNestedMany(buf, start, n, depth)
    decreases depth, 0, 1
  {
    hide ReadNested;
    var value, offset := [], start;
    var j := 0;
    PrependNone([], ReadNestedMany(buf, start, n, depth));
    while j < n
      invariant 0 <= j && (j <= n || n <= 0 == j)
      invariant ReadNestedMany(buf, start, n, depth) == Prepend(value, ReadNestedMany(buf, offset, n - j, depth))
      decreases n - j
    {
      var element :- ExtractNested(buf, offset, depth);
      var (c, o) := element;
      PrependOne(value, c, ReadNestedMany(buf, o, n - j - 1, depth));
      value, offset, j := value + [c], o, j + 1;
    }
    PrependNone(value, ReadNestedMany(buf, offset, n - j, depth));
    return Ok((value, offset));
  }
}
