/** The YAMI wire format: what serialize() writes, and what __do_deserialize() makes of arbitrary bytes. */
module WireFormat {
  import opened Outcomes
  import opened ByteCodec
  import Utf8
  import opened SlotTable

  datatype Error = StructError | UnicodeError | IndexError | KeyError | TypeError | ValueError | RecursionError

  // ----- writer -----

  function EncInt(i: int): (bs: bytes)
    ensures |bs| == 4
  {
    LittleEndian(i, 4)
  }

  function EncLong(l: int): (bs: bytes)
    ensures |bs| == 8
  {
    LittleEndian(l, 8)
  }

  function EncFloat(f: Float64): (bs: bytes)
    ensures |bs| == 8
  {
    LittleEndian(f, 8)
  }

  /** The content, padded by the distance from `length` to the next word boundary. For text, `length` counts
      characters while the content is UTF-8. */
  function EncContent(content: bytes, length: nat): bytes {
    content + Zeros(RoundTo4(length) - length)
  }

  function EncString(s: string): bytes {
    EncInt(|s|) + EncContent(Utf8.Encode(s), |s|)
  }

  function EncBinary(bs: bytes): bytes {
    EncInt(|bs|) + EncContent(bs, |bs|)
  }

  function EncMany<T>(xs: seq<T>, enc: T -> bytes): bytes {
    if xs == [] then [] else enc(xs[0]) + EncMany(xs[1..], enc)
  }

  function TypeCode(v: Value): (code: int)
    ensures 1 <= code <= 14
  {
    match v
    case Bool(_) => 1
    case Int(_) => 2
    case Long(_) => 3
    case Float(_) => 4
    case Str(_) => 5
    case Blob(_) => 6
    case Bools(_) => 7
    case Ints(_) => 8
    case Longs(_) => 9
    case Floats(_) => 10
    case Strs(_) => 11
    case Blobs(_) => 12
    case Nested(_) => 13
    case NestedList(_) => 14
  }

  /** The bytes after the type code. */
  function EncPayload(v: Value): bytes
    decreases v, 0
  {
    match v
    case Bool(b) => EncInt(if b then 1 else 0)
    case Int(i) => EncInt(i)
    case Long(l) => EncLong(l)
    case Float(f) => EncFloat(f)
    case Str(s) => EncString(s)
    case Blob(bs) => EncBinary(bs)
    case Bools(xs) => EncInt(|xs|) + EncContent(Packed(xs), |Packed(xs)|)
    case Ints(xs) => EncInt(|xs|) + EncMany(xs, EncInt)
    case Longs(xs) => EncInt(|xs|) + EncMany(xs, EncLong)
    case Floats(xs) => EncInt(|xs|) + EncMany(xs, EncFloat)
    case Strs(xs) => EncInt(|xs|) + EncMany(xs, EncString)
    case Blobs(xs) => EncInt(|xs|) + EncMany(xs, EncBinary)
    case Nested(c) => Encode(c)
    case NestedList(cs) => EncInt(|cs|) + EncodeList(cs)
  }

  function EncEntry(e: Entry): bytes
    decreases e, 0
  {
    EncString(e.name) + EncInt(TypeCode(e.value)) + EncPayload(e.value)
  }

  function EncSlots(slots: seq<Slot>): bytes
    decreases slots, 0
  {
    if slots == [] then []
    else EncSlot(slots[0]) + EncSlots(slots[1..])
  }

  function EncSlot(slot: Slot): bytes
    decreases slot, 0
  {
    if slot.Used? then EncEntry(slot.entry) else []
  }

  function EncodeList(cs: seq<Collection>): bytes
    decreases cs, 0
  {
    if cs == [] then [] else Encode(cs[0]) + EncodeList(cs[1..])
  }

  /** What serialize() returns: the count, then the used slots in order. */
  function Encode(c: Collection): bytes
    decreases c, 0
  {
    EncInt(|c.index|) + EncSlots(c.slots)
  }

  // ----- what can be written -----

  predicate InInt(i: int) { InSigned(i, 4) }

  predicate InLong(l: int) { InSigned(l, 8) }

  predicate AllOf<T>(xs: seq<T>, p: T -> bool) {
    forall i | 0 <= i < |xs| :: p(xs[i])
  }

  predicate FitsString(s: string) { InInt(|s|) }

  predicate FitsBinary(bs: bytes) { InInt(|bs|) }

  /** Every number written by struct.pack is in range; otherwise it raises struct.error. */
  predicate Fits(v: Value)
    decreases v, 0
  {
    match v
    case Bool(_) => true
    case Int(i) => InInt(i)
    case Long(l) => InLong(l)
    case Float(_) => true
    case Str(s) => FitsString(s)
    case Blob(bs) => FitsBinary(bs)
    case Bools(xs) => InInt(|xs|)
    case Ints(xs) => InInt(|xs|) && AllOf(xs, InInt)
    case Longs(xs) => InInt(|xs|) && AllOf(xs, InLong)
    case Floats(xs) => InInt(|xs|)
    case Strs(xs) => InInt(|xs|) && AllOf(xs, FitsString)
    case Blobs(xs) => InInt(|xs|) && AllOf(xs, FitsBinary)
    case Nested(c) => FitsCollection(c)
    case NestedList(cs) => InInt(|cs|) && FitsList(cs)
  }

  predicate FitsList(cs: seq<Collection>)
    decreases cs, 0
  {
    cs == [] || (FitsCollection(cs[0]) && FitsList(cs[1..]))
  }

  predicate FitsSlots(slots: seq<Slot>)
    decreases slots, 0
  {
    slots == [] || (FitsSlot(slots[0]) && FitsSlots(slots[1..]))
  }

  predicate FitsSlot(slot: Slot)
    decreases slot, 0
  {
    slot.Used? ==> FitsEntry(slot.entry)
  }

  predicate FitsEntry(e: Entry)
    decreases e, 0
  {
    FitsString(e.name) && Fits(e.value)
  }

  predicate FitsCollection(c: Collection)
    decreases c, 0
  {
    InInt(|c.index|) && FitsSlots(c.slots)
  }

  /** A value that __setitem__ accepts, all the way down. */
  ghost predicate Valid(v: Value)
    decreases v, 0
  {
    !IsEmptyArray(v)
    && match v
       case Nested(c) => ValidCollection(c)
       case NestedList(cs) => ValidList(cs)
       case _ => true
  }

  ghost predicate ValidList(cs: seq<Collection>)
    decreases cs, 0
  {
    cs == [] || (ValidCollection(cs[0]) && ValidList(cs[1..]))
  }

  ghost predicate ValidSlots(slots: seq<Slot>)
    decreases slots, 0
  {
    slots == [] || (ValidSlot(slots[0]) && ValidSlots(slots[1..]))
  }

  ghost predicate ValidSlot(slot: Slot)
    decreases slot, 0
  {
    slot.Used? ==> ValidEntry(slot.entry)
  }

  ghost predicate ValidEntry(e: Entry)
    decreases e, 0
  {
    Valid(e.value)
  }

  ghost predicate ValidCollection(c: Collection)
    decreases c, 0
  {
    Consistent(c) && ValidSlots(c.slots)
  }

  /** Every piece of text in the value is ASCII. */
  predicate AsciiOnly(v: Value)
    decreases v, 0
  {
    match v
    case Str(s) => Utf8.Ascii(s)
    case Strs(xs) => AllOf(xs, Utf8.Ascii)
    case Nested(c) => AsciiSlots(c.slots)
    case NestedList(cs) => AsciiList(cs)
    case _ => true
  }

  predicate AsciiList(cs: seq<Collection>)
    decreases cs, 0
  {
    cs == [] || (AsciiSlots(cs[0].slots) && AsciiList(cs[1..]))
  }

  predicate AsciiSlots(slots: seq<Slot>)
    decreases slots, 0
  {
    slots == [] || (AsciiSlot(slots[0]) && AsciiSlots(slots[1..]))
  }

  predicate AsciiSlot(slot: Slot)
    decreases slot, 0
  {
    slot.Used? ==> AsciiEntry(slot.entry)
  }

  predicate AsciiEntry(e: Entry)
    decreases e, 0
  {
    Utf8.Ascii(e.name) && AsciiOnly(e.value)
  }

  /** How many nested calls the reader makes for the value. */
  function Depth(v: Value): nat
    decreases v, 0
  {
    match v
    case Nested(c) => 1 + DepthSlots(c.slots)
    case NestedList(cs) => DepthList(cs)
    case _ => 0
  }

  function DepthList(cs: seq<Collection>): nat
    decreases cs, 0
  {
    if cs == [] then 0 else Max(1 + DepthSlots(cs[0].slots), DepthList(cs[1..]))
  }

  function DepthSlots(slots: seq<Slot>): nat
    decreases slots, 0
  {
    if slots == [] then 0 else Max(DepthSlot(slots[0]), DepthSlots(slots[1..]))
  }

  function DepthSlot(slot: Slot): nat
    decreases slot, 0
  {
    if slot.Used? then DepthEntry(slot.entry) else 0
  }

  function DepthEntry(e: Entry): nat
    decreases e, 0
  {
    Depth(e.value)
  }

  function Max(a: nat, b: nat): nat { if a >= b then a else b }

  // ----- reader -----

  /** struct.unpack_from: a negative offset counts from the end of the buffer. */
  function UnpackFrom(buf: bytes, offset: int, width: nat): (r: Result<bytes, Error>)
    ensures r.Ok? ==> |r.value| == width
  {
    var start := if offset < 0 then offset + |buf| else offset;
    if start < 0 || start + width > |buf| then Err(StructError) else Ok(buf[start..start + width])
  }

  function Clamp(i: int, n: nat): (r: nat)
    ensures r <= n
  {
    var j := if i < 0 then i + n else i;
    if j < 0 then 0 else if j > n then n else j
  }

  /** buf[lo:hi] */
  function Slice(buf: bytes, lo: int, hi: int): bytes {
    var l, h := Clamp(lo, |buf|), Clamp(hi, |buf|);
    if l < h then buf[l..h] else []
  }

  type Read<+T> = Result<(T, int), Error>

  function ReadInt(buf: bytes, offset: int): Read<int> {
    var bs :- UnpackFrom(buf, offset, 4);
    Ok((Signed(bs), offset + 4))
  }

  function ReadLong(buf: bytes, offset: int): Read<int> {
    var bs :- UnpackFrom(buf, offset, 8);
    Ok((Signed(bs), offset + 8))
  }

  function ReadFloat(buf: bytes, offset: int): Read<Float64> {
    var bs :- UnpackFrom(buf, offset, 8);
    UnsignedBound(bs);
    Ok((Unsigned(bs), offset + 8))
  }

  lemma {:induction false} UnsignedBelowModulus(bs: bytes)
    ensures Unsigned(bs) < Modulus(|bs|)
  {
    if bs != [] { UnsignedBelowModulus(bs[1..]); }
  }

  lemma UnsignedBound(bs: bytes)
    requires |bs| == 8
    ensures Unsigned(bs) < 0x1_0000_0000_0000_0000
  {
    UnsignedBelowModulus(bs);
    ModulusOf8();
  }

  lemma ModulusOf8()
    ensures Modulus(4) == 0x1_0000_0000
    ensures Modulus(8) == 0x1_0000_0000_0000_0000
  {
    assert Modulus(2) == 0x1_0000;
    assert Modulus(6) == 0x1_0000_0000_0000;
  }

  function ReadContent(buf: bytes, offset: int, length: int): (bytes, int) {
    (Slice(buf, offset, offset + length), RoundTo4(offset + length))
  }

  function ReadBinary(buf: bytes, offset: int): Read<bytes> {
    var (length, o) :- ReadInt(buf, offset);
    Ok(ReadContent(buf, o, length))
  }

  function ReadString(buf: bytes, offset: int): Read<string> {
    var (content, o) :- ReadBinary(buf, offset);
    match Utf8.Decode(content)
    case None => Err(UnicodeError)
    case Some(s) => Ok((s, o))
  }

  /** Testing bit after bit of the packed bytes; running off their end raises IndexError. */
  function UnpackBits(packed: bytes, n: int): Result<seq<bool>, Error> {
    if n <= 0 then Ok([])
    else if PackedSize(n) > |packed| then Err(IndexError)
    else Ok(Unpack(packed, n))
  }

  function ReadBools(buf: bytes, offset: int): Read<seq<bool>> {
    var (length, o) :- ReadInt(buf, offset);
    var (packed, o') := ReadContent(buf, o, PackedSize(length));
    var xs :- UnpackBits(packed, length);
    Ok((xs, o'))
  }

  function ReadMany<T>(buf: bytes, offset: int, n: int, read: (bytes, int) -> Read<T>): Read<seq<T>>
    decreases n
  {
    if n <= 0 then Ok(([], offset))
    else
      var (x, o) :- read(buf, offset);
      var (xs, o') :- ReadMany(buf, o, n - 1, read);
      Ok(([x] + xs, o'))
  }

  function ReadArray<T>(buf: bytes, offset: int, read: (bytes, int) -> Read<T>): Read<seq<T>> {
    var (length, o) :- ReadInt(buf, offset);
    ReadMany(buf, o, length, read)
  }

  function Retype<T, U>(r: Read<T>, f: T -> U): Read<U> {
    var (x, o) :- r;
    Ok((f(x), o))
  }

  /** The value after a type code. `depth` is the number of further nested calls the interpreter allows. */
  function ReadValue(buf: bytes, offset: int, code: int, depth: nat): Read<Value>
    decreases depth, 2
  {
    match code
    case 1 => Retype(ReadInt(buf, offset), (i: int) => Bool(i != 0))
    case 2 => Retype(ReadInt(buf, offset), (i: int) => Int(i))
    case 3 => Retype(ReadLong(buf, offset), (l: int) => Long(l))
    case 4 => Retype(ReadFloat(buf, offset), (f: Float64) => Float(f))
    case 5 => Retype(ReadString(buf, offset), (s: string) => Str(s))
    case 6 => Retype(ReadBinary(buf, offset), (bs: bytes) => Blob(bs))
    case 7 => Retype(ReadBools(buf, offset), (xs: seq<bool>) => Bools(xs))
    case 8 => Retype(ReadArray(buf, offset, ReadInt), (xs: seq<int>) => Ints(xs))
    case 9 => Retype(ReadArray(buf, offset, ReadLong), (xs: seq<int>) => Longs(xs))
    case 10 => Retype(ReadArray(buf, offset, ReadFloat), (xs: seq<Float64>) => Floats(xs))
    case 11 => Retype(ReadArray(buf, offset, ReadString), (xs: seq<string>) => Strs(xs))
    case 12 => Retype(ReadArray(buf, offset, ReadBinary), (xs: seq<bytes>) => Blobs(xs))
    case 13 => Retype(ReadNested(buf, offset, depth), (c: Collection) => Nested(c))
    case 14 =>
      var (length, o) :- ReadInt(buf, offset);
      Retype(ReadNestedMany(buf, o, length, depth), (cs: seq<Collection>) => NestedList(cs))
    case _ => Err(ValueError)
  }

  function ReadNested(buf: bytes, offset: int, depth: nat): Read<Collection>
    decreases depth, 0
  {
    if depth == 0 then Err(RecursionError)
    else
      var scan := ReadCollection(buf, offset, depth - 1);
      var o :- scan.end;
      Ok((InsertAll(EMPTY, scan.entries), o))
  }

  function ReadNestedMany(buf: bytes, offset: int, n: int, depth: nat): Read<seq<Collection>>
    decreases depth, 1, n
  {
    if n <= 0 then Ok(([], offset))
    else
      var (c, o) :- ReadNested(buf, offset, depth);
      var (cs, o') :- ReadNestedMany(buf, o, n - 1, depth);
      Ok(([c] + cs, o'))
  }

  /** The entries read, in order, and how the reading ended: past the last of them, or with an error that
      leaves them inserted. */
  datatype Scan = Scan(entries: seq<Entry>, end: Result<int, Error>)

  function ReadEntry(buf: bytes, offset: int, depth: nat): Read<Entry>
    decreases depth, 3
  {
    var (name, o) :- ReadString(buf, offset);
    var (code, o') :- ReadInt(buf, o);
    var (value, o'') :- ReadValue(buf, o', code, depth);
    if IsEmptyArray(value) then Err(TypeError) else Ok((Entry(name, value), o''))
  }

  function ReadEntries(buf: bytes, offset: int, n: int, depth: nat): Scan
    decreases depth, 4, n
  {
    if n <= 0 then Scan([], Ok(offset))
    else
      match ReadEntry(buf, offset, depth)
      case Err(e) => Scan([], Err(e))
      case Ok((entry, o)) =>
        var rest := ReadEntries(buf, o, n - 1, depth);
        Scan([entry] + rest.entries, rest.end)
  }

  function ReadCollection(buf: bytes, offset: int, depth: nat): Scan
    decreases depth, 5
  {
    match ReadInt(buf, offset)
    case Err(e) => Scan([], Err(e))
    case Ok((n, o)) => ReadEntries(buf, o, n, depth)
  }

  /** deserialize(): merge what was read into p, and raise ValueError unless the buffer is used up. */
  function Deserialize(p: Collection, buf: bytes, depth: nat): (Collection, Result<(), Error>)
    requires Consistent(p)
  {
    var scan := ReadCollection(buf, 0, depth);
    (InsertAll(p, scan.entries),
     match scan.end
     case Err(e) => Err(e)
     case Ok(o) => if o != |buf| then Err(ValueError) else Ok(()))
  }

  // ----- what a round trip keeps -----

  /** A collection without its empty slots, at every level. */
  function Compact(c: Collection): Collection
    decreases c, 0
  {
    FromEntries(CompactEntries(c.slots))
  }

  function FromEntries(es: seq<Entry>): Collection {
    Collection(seq(|es|, i requires 0 <= i < |es| => Used(es[i])), Positions(es))
  }

  function Positions(es: seq<Entry>): (m: map<string, nat>) {
    if es == [] then map[] else Positions(es[..|es| - 1])[es[|es| - 1].name := |es| - 1]
  }

  function CompactEntries(slots: seq<Slot>): (es: seq<Entry>)
    ensures |es| == |Items(slots)|
    ensures forall i | 0 <= i < |es| :: es[i].name == Items(slots)[i].name
    decreases slots, 0
  {
    if slots == [] then []
    else CompactSlot(slots[0]) + CompactEntries(slots[1..])
  }

  function CompactSlot(slot: Slot): (es: seq<Entry>)
    ensures |es| == if slot.Used? then 1 else 0
    ensures slot.Used? ==> es[0].name == slot.entry.name
    decreases slot, 0
  {
    if slot.Used? then [CompactEntry(slot.entry)] else []
  }

  function CompactEntry(e: Entry): (r: Entry)
    ensures r.name == e.name
    decreases e, 0
  {
    Entry(e.name, CompactValue(e.value))
  }

  function CompactValue(v: Value): Value
    decreases v, 0
  {
    match v
    case Nested(c) => Nested(Compact(c))
    case NestedList(cs) => NestedList(CompactList(cs))
    case _ => v
  }

  function CompactList(cs: seq<Collection>): (r: seq<Collection>)
    ensures |r| == |cs|
    decreases cs, 0
  {
    if cs == [] then [] else [Compact(cs[0])] + CompactList(cs[1..])
  }
}
