/** When the deserializer ends by itself: how deep its nested calls go on arbitrary bytes. */
module ReaderDepth {
  import opened Outcomes
  import opened ByteCodec
  import opened SlotTable
  import opened WireFormat

  /** The nested calls go deeper than the interpreter allows. */
  predicate Stuck(buf: bytes, offset: int, depth: nat) {
    ReadCollection(buf, offset, depth).end == Err(RecursionError)
  }

  predicate NestedStuck(buf: bytes, offset: int, depth: nat) {
    ReadNested(buf, offset, depth) == Err(RecursionError)
  }

  lemma NestedIsOneDeeper(buf: bytes, offset: int, depth: nat)
    ensures NestedStuck(buf, offset, depth) <==> depth == 0 || Stuck(buf, offset, depth - 1)
  {
    hide ReadCollection, InsertAll;
  }

  // ----- bytes that are read for ever -----

  /** A count of 13, a name of length -12, and 13 again: the name ends at offset -4, the type code is the last word,
      and the nested collection begins at offset 0. */
  const BACKWARD: bytes := [13, 0, 0, 0, 0xF4, 0xFF, 0xFF, 0xFF, 13, 0, 0, 0]

  lemma BackwardWords()
    ensures ReadInt(BACKWARD, 0) == Ok((13, 4)) && ReadInt(BACKWARD, 4) == Ok((-12, 8))
    ensures ReadInt(BACKWARD, -4) == Ok((13, 0))
  {
    ModulusOf8();
    assert BACKWARD[0..4] == [13, 0, 0, 0] && BACKWARD[8..12] == [13, 0, 0, 0];
    assert BACKWARD[4..8] == [0xF4, 0xFF, 0xFF, 0xFF];
    UnsignedWord(13, 0, 0, 0);
    UnsignedWord(0xF4, 0xFF, 0xFF, 0xFF);
  }

  lemma UnsignedWord(a: byte, b: byte, c: byte, d: byte)
    ensures Unsigned([a, b, c, d]) == a as int + 0x100 * b as int + 0x1_0000 * c as int + 0x100_0000 * d as int
  {
    assert [d][1..] == [] && [c, d][1..] == [d] && [b, c, d][1..] == [c, d] && [a, b, c, d][1..] == [b, c, d];
    assert Unsigned([d]) == d as int;
    assert Unsigned([c, d]) == c as int + 256 * Unsigned([d]);
    assert Unsigned([b, c, d]) == b as int + 256 * Unsigned([c, d]);
  }

  lemma {:induction false} BackwardNeverEnds(depth: nat)
    ensures Stuck(BACKWARD, 0, depth)
    decreases depth
  {
    hide ReadInt, ReadCollection, ReadEntries;
    BackwardWords();
    assert ReadString(BACKWARD, 4) == Ok(("", -4)) by {
      assert Slice(BACKWARD, 8, -4) == [];
    }
    if depth > 0 { BackwardNeverEnds(depth - 1); }
    NestedIsOneDeeper(BACKWARD, 0, depth);
    assert ReadValue(BACKWARD, 0, 13, depth) == Err(RecursionError);
    assert ReadEntry(BACKWARD, 4, depth) == Err(RecursionError);
    FirstEntryDecides(BACKWARD, 0, depth);
  }

  lemma FirstEntryDecides(buf: bytes, offset: int, depth: nat)
    requires ReadInt(buf, offset).Ok? && ReadInt(buf, offset).value.0 > 0
    requires ReadEntry(buf, ReadInt(buf, offset).value.1, depth) == Err(RecursionError)
    ensures Stuck(buf, offset, depth)
  {
    hide ReadInt, ReadEntry;
    var (n, o) := ReadInt(buf, offset).value;
    assert ReadEntries(buf, o, n, depth) == Scan([], Err(RecursionError));
  }

  // ----- more depth changes nothing once it is enough -----

  lemma {:induction false} NestedStable(buf: bytes, offset: int, depth: nat, more: nat)
    requires depth <= more && !NestedStuck(buf, offset, depth)
    ensures ReadNested(buf, offset, more) == ReadNested(buf, offset, depth)
    decreases depth, 0
  {
    hide ReadCollection, InsertAll;
    CollectionStable(buf, offset, depth - 1, more - 1);
  }

  lemma {:induction false} NestedManyStable(buf: bytes, offset: int, n: int, depth: nat, more: nat)
    requires depth <= more && ReadNestedMany(buf, offset, n, depth) != Err(RecursionError)
    ensures ReadNestedMany(buf, offset, n, more) == ReadNestedMany(buf, offset, n, depth)
    decreases depth, 1, n
  {
    hide ReadNested;
    if n > 0 {
      NestedStable(buf, offset, depth, more);
      var r := ReadNested(buf, offset, depth);
      if r.Ok? { NestedManyStable(buf, r.value.1, n - 1, depth, more); }
    }
  }

  lemma {:induction false} ValueStable(buf: bytes, offset: int, code: int, depth: nat, more: nat)
    requires depth <= more && ReadValue(buf, offset, code, depth) != Err(RecursionError)
    ensures ReadValue(buf, offset, code, more) == ReadValue(buf, offset, code, depth)
    decreases depth, 2
  {
    hide ReadInt, ReadLong, ReadFloat, ReadString, ReadBinary, ReadBools, ReadArray, ReadNested, ReadNestedMany;
    if code == 13 {
      NestedStable(buf, offset, depth, more);
    } else if code == 14 {
      var r := ReadInt(buf, offset);
      if r.Ok? { NestedManyStable(buf, r.value.1, r.value.0, depth, more); }
    }
  }

  lemma {:induction false} EntryStable(buf: bytes, offset: int, depth: nat, more: nat)
    requires depth <= more && ReadEntry(buf, offset, depth) != Err(RecursionError)
    ensures ReadEntry(buf, offset, more) == ReadEntry(buf, offset, depth)
    decreases depth, 3
  {
    hide ReadInt, ReadString, ReadValue, IsEmptyArray;
    var name := ReadString(buf, offset);
    if name.Ok? {
      var code := ReadInt(buf, name.value.1);
      if code.Ok? { ValueStable(buf, code.value.1, code.value.0, depth, more); }
    }
  }

  lemma {:induction false} EntriesStable(buf: bytes, offset: int, n: int, depth: nat, more: nat)
    requires depth <= more && ReadEntries(buf, offset, n, depth).end != Err(RecursionError)
    ensures ReadEntries(buf, offset, n, more) == ReadEntries(buf, offset, n, depth)
    decreases depth, 4, n
  {
    hide ReadEntry;
    if n > 0 {
      EntryStable(buf, offset, depth, more);
      var r := ReadEntry(buf, offset, depth);
      if r.Ok? { EntriesStable(buf, r.value.1, n - 1, depth, more); }
    }
  }

  /** A collection that is read without running out of depth is read the same at every greater depth. */
  lemma {:induction false} CollectionStable(buf: bytes, offset: int, depth: nat, more: nat)
    requires depth <= more && !Stuck(buf, offset, depth)
    ensures ReadCollection(buf, offset, more) == ReadCollection(buf, offset, depth)
    decreases depth, 5
  {
    hide ReadInt, ReadEntries;
    var r := ReadInt(buf, offset);
    if r.Ok? { EntriesStable(buf, r.value.1, r.value.0, depth, more); }
  }

  // ----- which nested call is to blame -----

  lemma {:induction false} ManyNeverStuck<T>(buf: bytes, offset: int, n: int, read: (bytes, int) -> Read<T>)
    requires forall o :: read(buf, o) != Err(RecursionError)
    ensures ReadMany(buf, offset, n, read) != Err(RecursionError)
    decreases n
  {
    if n > 0 {
      var r := read(buf, offset);
      if r.Ok? { ManyNeverStuck(buf, r.value.1, n - 1, read); }
    }
  }

  lemma LeavesNeverStuck(buf: bytes, offset: int)
    ensures ReadInt(buf, offset) != Err(RecursionError) && ReadLong(buf, offset) != Err(RecursionError)
    ensures ReadFloat(buf, offset) != Err(RecursionError) && ReadBinary(buf, offset) != Err(RecursionError)
    ensures ReadString(buf, offset) != Err(RecursionError) && ReadBools(buf, offset) != Err(RecursionError)
  {
    hide Unsigned, Signed, Utf8.Decode, Unpack;
  }

  lemma ArrayNeverStuck<T>(buf: bytes, offset: int, read: (bytes, int) -> Read<T>)
    requires forall o :: read(buf, o) != Err(RecursionError)
    ensures ReadArray(buf, offset, read) != Err(RecursionError)
  {
    hide ReadInt, ReadMany;
    LeavesNeverStuck(buf, offset);
    var r := ReadInt(buf, offset);
    if r.Ok? { ManyNeverStuck(buf, r.value.1, r.value.0, read); }
  }

  lemma PlainNeverStuck(buf: bytes, offset: int, code: int, depth: nat)
    requires code != 13 && code != 14
    ensures ReadValue(buf, offset, code, depth) != Err(RecursionError)
  {
    hide ReadInt, ReadLong, ReadFloat, ReadString, ReadBinary, ReadBools, ReadArray;
    forall o
      ensures ReadInt(buf, o) != Err(RecursionError) && ReadLong(buf, o) != Err(RecursionError)
      ensures ReadFloat(buf, o) != Err(RecursionError) && ReadBinary(buf, o) != Err(RecursionError)
      ensures ReadString(buf, o) != Err(RecursionError) && ReadBools(buf, o) != Err(RecursionError)
    {
      LeavesNeverStuck(buf, o);
    }
    ArrayNeverStuck(buf, offset, ReadInt);
    ArrayNeverStuck(buf, offset, ReadLong);
    ArrayNeverStuck(buf, offset, ReadFloat);
    ArrayNeverStuck(buf, offset, ReadString);
    ArrayNeverStuck(buf, offset, ReadBinary);
  }

  lemma {:induction false} NestedManyBlame(buf: bytes, offset: int, n: int, depth: nat) returns (c: int)
    requires ReadNestedMany(buf, offset, n, depth) == Err(RecursionError)
    ensures NestedStuck(buf, c, depth)
    ensures forall m | m >= depth && ReadNestedMany(buf, offset, n, m) != Err(RecursionError) :: !NestedStuck(buf, c, m)
    decreases n
  {
    hide ReadNested;
    if NestedStuck(buf, offset, depth) {
      c := offset;
    } else {
      var r := ReadNested(buf, offset, depth);
      c := NestedManyBlame(buf, r.value.1, n - 1, depth);
      forall m | m >= depth && ReadNestedMany(buf, offset, n, m) != Err(RecursionError)
        ensures !NestedStuck(buf, c, m)
      {
        NestedStable(buf, offset, depth, m);
      }
    }
  }

  lemma {:induction false} EntryBlame(buf: bytes, offset: int, depth: nat) returns (c: int)
    requires ReadEntry(buf, offset, depth) == Err(RecursionError)
    ensures NestedStuck(buf, c, depth)
    ensures forall m | m >= depth && ReadEntry(buf, offset, m) != Err(RecursionError) :: !NestedStuck(buf, c, m)
  {
    hide ReadInt, ReadLong, ReadFloat, ReadString, ReadBinary, ReadBools, ReadArray, ReadNested, ReadNestedMany,
         IsEmptyArray;
    LeavesNeverStuck(buf, offset);
    var name := ReadString(buf, offset);
    LeavesNeverStuck(buf, name.value.1);
    var (code, start) := ReadInt(buf, name.value.1).value;
    if code != 13 && code != 14 { PlainNeverStuck(buf, start, code, depth); }
    if code == 13 {
      c := start;
    } else {
      LeavesNeverStuck(buf, start);
      var (n, o) := ReadInt(buf, start).value;
      c := NestedManyBlame(buf, o, n, depth);
    }
  }

  lemma {:induction false} EntriesBlame(buf: bytes, offset: int, n: int, depth: nat) returns (c: int)
    requires ReadEntries(buf, offset, n, depth).end == Err(RecursionError)
    ensures NestedStuck(buf, c, depth)
    ensures forall m | m >= depth && ReadEntries(buf, offset, n, m).end != Err(RecursionError) ::
              !NestedStuck(buf, c, m)
    decreases n
  {
    hide ReadEntry, NestedStuck;
    var r := ReadEntry(buf, offset, depth);
    if r.Err? {
      c := EntryBlame(buf, offset, depth);
    } else {
      c := EntriesBlame(buf, r.value.1, n - 1, depth);
      forall m | m >= depth && ReadEntries(buf, offset, n, m).end != Err(RecursionError)
        ensures !NestedStuck(buf, c, m)
      {
        EntryStable(buf, offset, depth, m);
      }
    }
  }

  /** Reading the collection at `a` cannot end before the nested collection at `b` has been read, one call deeper. */
  ghost predicate Needs(buf: bytes, a: int, b: int) {
    forall m: nat :: !Stuck(buf, a, m) ==> m > 0 && !Stuck(buf, b, m - 1)
  }

  lemma Blame(buf: bytes, offset: int, depth: nat) returns (c: int)
    requires Stuck(buf, offset, depth)
    ensures depth > 0 ==> Stuck(buf, c, depth - 1)
    ensures Needs(buf, offset, c) && -|buf| <= offset < |buf|
  {
    hide ReadInt, ReadEntries, ReadNested;
    LeavesNeverStuck(buf, offset);
    var (n, o) := ReadInt(buf, offset).value;
    assert -|buf| <= offset < |buf| by { IntInRange(buf, offset); }
    c := EntriesBlame(buf, o, n, depth);
    NestedIsOneDeeper(buf, c, depth);
    forall m: nat | !Stuck(buf, offset, m) ensures m > 0 && !Stuck(buf, c, m - 1) {
      if m < depth { CollectionStable(buf, offset, m, depth); }
      NestedIsOneDeeper(buf, c, m);
    }
  }

  lemma IntInRange(buf: bytes, offset: int)
    ensures ReadInt(buf, offset).Ok? ==> -|buf| <= offset < |buf|
  {
  }

  lemma NeedsTrans(buf: bytes, a: int, b: int, c: int)
    requires Needs(buf, a, b) && Needs(buf, b, c)
    ensures Needs(buf, a, c)
  {
    forall m: nat | !Stuck(buf, a, m) ensures m > 0 && !Stuck(buf, c, m - 1) {
      CollectionStable(buf, c, m - 2, m - 1);
    }
  }

  lemma {:induction false} NeedsItself(buf: bytes, offset: int, depth: nat)
    requires Needs(buf, offset, offset)
    ensures Stuck(buf, offset, depth)
  {
    if depth > 0 { NeedsItself(buf, offset, depth - 1); }
  }

  // ----- the exact condition -----

  function Offsets(lo: int, hi: int): (r: set<int>)
    requires lo <= hi
    ensures forall i :: i in r <==> lo <= i < hi
    ensures |r| == hi - lo
    decreases hi - lo
  {
    if lo == hi then {} else Offsets(lo, hi - 1) + {hi - 1}
  }

  lemma SubsetCount(a: set<int>, b: set<int>)
    requires a <= b
    ensures |a| <= |b|
  {
    assert b == a + (b - a);
  }

  /** A collection that ends at some depth cannot go deeper than there are offsets: `above` are the offsets of the
      calls around it, and it comes back to none of them. */
  lemma {:induction false} EndsWithin(buf: bytes, offset: int, depth: nat, enough: nat, above: set<int>)
    requires !Stuck(buf, offset, enough) && above <= Offsets(-|buf|, |buf|) && depth + |above| >= 2 * |buf|
    requires forall a | a in above :: Needs(buf, a, offset)
    ensures !Stuck(buf, offset, depth)
    decreases depth
  {
    hide Stuck, Needs, Offsets;
    if Stuck(buf, offset, depth) {
      var c := Blame(buf, offset, depth);
      if offset in above { NeedsItself(buf, offset, enough); }
      var around := above + {offset};
      SubsetCount(around, Offsets(-|buf|, |buf|));
      forall a | a in around ensures Needs(buf, a, c) {
        if a != offset { NeedsTrans(buf, a, offset, c); }
      }
      EndsDeeper(buf, offset, c, enough);
      EndsWithin(buf, c, depth - 1, enough - 1, around);
    }
  }

  lemma EndsDeeper(buf: bytes, a: int, b: int, enough: nat)
    requires Needs(buf, a, b) && !Stuck(buf, a, enough)
    ensures enough > 0 && !Stuck(buf, b, enough - 1)
  {
  }

  /** On any bytes: the reader runs out of depth at every depth exactly when it does at twice the buffer's length. */
  lemma NeverEndsIff(buf: bytes, offset: int)
    ensures (forall depth: nat :: Stuck(buf, offset, depth)) <==> Stuck(buf, offset, 2 * |buf|)
  {
    hide Stuck;
    if depth: nat :| !Stuck(buf, offset, depth) {
      EndsWithin(buf, offset, 2 * |buf|, depth, {});
    }
  }

  /** So from that depth on the outcome of deserialize() does not depend on the interpreter's limit. */
  lemma DepthDoesNotMatter(p: Collection, buf: bytes, depth: nat)
    requires Consistent(p) && depth >= 2 * |buf|
    ensures Deserialize(p, buf, depth).1 == Err(RecursionError) <==> Stuck(buf, 0, 2 * |buf|)
    ensures !Stuck(buf, 0, 2 * |buf|) ==> Deserialize(p, buf, depth) == Deserialize(p, buf, 2 * |buf|)
  {
    hide ReadCollection, InsertAll, Consistent;
    NeverEndsIff(buf, 0);
    assert Stuck(buf, 0, 2 * |buf|) ==> Stuck(buf, 0, depth);
    if !Stuck(buf, 0, 2 * |buf|) { CollectionStable(buf, 0, 2 * |buf|, depth); }
  }

  // ----- reading forward -----

  /** The length of the string or binary at the offset is not negative. */
  predicate ForwardBinary(buf: bytes, offset: int) {
    ReadInt(buf, offset).Ok? ==> ReadInt(buf, offset).value.0 >= 0
  }

  predicate ForwardMany<T>(buf: bytes, offset: int, n: int, read: (bytes, int) -> Read<T>)
    decreases n
  {
    n <= 0
    || (ForwardBinary(buf, offset)
        && (read(buf, offset).Ok? ==> ForwardMany(buf, read(buf, offset).value.1, n - 1, read)))
  }

  predicate ForwardArray<T>(buf: bytes, offset: int, read: (bytes, int) -> Read<T>) {
    ReadInt(buf, offset).Ok? ==> ForwardMany(buf, ReadInt(buf, offset).value.1, ReadInt(buf, offset).value.0, read)
  }

  predicate ForwardValue(buf: bytes, offset: int, code: int, depth: nat)
    decreases depth, 2
  {
    match code
    case 5 => ForwardBinary(buf, offset)
    case 6 => ForwardBinary(buf, offset)
    case 11 => ForwardArray(buf, offset, ReadString)
    case 12 => ForwardArray(buf, offset, ReadBinary)
    case 13 => ForwardNested(buf, offset, depth)
    case 14 =>
      ReadInt(buf, offset).Ok? ==>
        ForwardNestedMany(buf, ReadInt(buf, offset).value.1, ReadInt(buf, offset).value.0, depth)
    case _ => true
  }

  predicate ForwardNested(buf: bytes, offset: int, depth: nat)
    decreases depth, 0
  {
    depth > 0 ==> Forward(buf, offset, depth - 1)
  }

  predicate ForwardNestedMany(buf: bytes, offset: int, n: int, depth: nat)
    decreases depth, 1, n
  {
    n <= 0
    || (ForwardNested(buf, offset, depth)
        && (ReadNested(buf, offset, depth).Ok? ==>
              ForwardNestedMany(buf, ReadNested(buf, offset, depth).value.1, n - 1, depth)))
  }

  predicate ForwardEntry(buf: bytes, offset: int, depth: nat)
    decreases depth, 3
  {
    && ForwardBinary(buf, offset)
    && (ReadString(buf, offset).Ok? ==>
          var code := ReadInt(buf, ReadString(buf, offset).value.1);
          code.Ok? ==> ForwardValue(buf, code.value.1, code.value.0, depth))
  }

  predicate ForwardEntries(buf: bytes, offset: int, n: int, depth: nat)
    decreases depth, 4, n
  {
    n <= 0
    || (ForwardEntry(buf, offset, depth)
        && (ReadEntry(buf, offset, depth).Ok? ==>
              ForwardEntries(buf, ReadEntry(buf, offset, depth).value.1, n - 1, depth)))
  }

  /** No string or binary length that the reader comes across is negative. */
  predicate Forward(buf: bytes, offset: int, depth: nat)
    decreases depth, 5
  {
    ReadInt(buf, offset).Ok? ==> ForwardEntries(buf, ReadInt(buf, offset).value.1, ReadInt(buf, offset).value.0, depth)
  }

  /** A read at a non-negative offset ends at least `least` bytes further on, or fails without running out of depth. */
  predicate Advances<T>(r: Read<T>, offset: int, least: nat) {
    if r.Ok? then r.value.1 >= offset + least else r != Err(RecursionError)
  }

  lemma IntAdvances(buf: bytes, offset: int)
    ensures Advances(ReadInt(buf, offset), offset, 4)
    ensures offset >= 0 && ReadInt(buf, offset).Ok? ==> ReadInt(buf, offset).value.1 == offset + 4 <= |buf|
  {
  }

  lemma BinaryAdvances(buf: bytes, offset: int)
    requires ForwardBinary(buf, offset)
    ensures Advances(ReadBinary(buf, offset), offset, 4) && Advances(ReadString(buf, offset), offset, 4)
    ensures offset >= 0 && ReadString(buf, offset).Ok? ==> offset + 4 <= |buf|
  {
    hide ReadInt, Utf8.Decode, Slice;
    IntAdvances(buf, offset);
    LeavesNeverStuck(buf, offset);
  }

  lemma {:induction false} ManyAdvances<T>(buf: bytes, offset: int, n: int, read: (bytes, int) -> Read<T>)
    requires ForwardMany(buf, offset, n, read)
    requires forall o | ForwardBinary(buf, o) :: Advances(read(buf, o), o, 0)
    ensures Advances(ReadMany(buf, offset, n, read), offset, 0)
    decreases n
  {
    hide ForwardBinary;
    if n > 0 {
      var r := read(buf, offset);
      if r.Ok? { ManyAdvances(buf, r.value.1, n - 1, read); }
    }
  }

  lemma {:induction false} FixedAdvance<T>(buf: bytes, offset: int, n: int, read: (bytes, int) -> Read<T>)
    requires forall o :: Advances(read(buf, o), o, 0)
    ensures Advances(ReadMany(buf, offset, n, read), offset, 0)
    decreases n
  {
    if n > 0 {
      var r := read(buf, offset);
      if r.Ok? { FixedAdvance(buf, r.value.1, n - 1, read); }
    }
  }

  lemma ArrayAdvances<T>(buf: bytes, offset: int, read: (bytes, int) -> Read<T>)
    requires ForwardArray(buf, offset, read)
    requires forall o | ForwardBinary(buf, o) :: Advances(read(buf, o), o, 0)
    ensures Advances(ReadArray(buf, offset, read), offset, 4)
  {
    hide ReadInt, ReadMany, ForwardMany, ForwardBinary;
    IntAdvances(buf, offset);
    var r := ReadInt(buf, offset);
    if r.Ok? { ManyAdvances(buf, r.value.1, r.value.0, read); }
  }

  lemma FixedArrayAdvances<T>(buf: bytes, offset: int, read: (bytes, int) -> Read<T>)
    requires forall o :: Advances(read(buf, o), o, 0)
    ensures Advances(ReadArray(buf, offset, read), offset, 4)
  {
    hide ReadInt, ReadMany;
    IntAdvances(buf, offset);
    var r := ReadInt(buf, offset);
    if r.Ok? { FixedAdvance(buf, r.value.1, r.value.0, read); }
  }

  lemma NumbersAdvance(buf: bytes, offset: int)
    ensures Advances(ReadInt(buf, offset), offset, 4) && Advances(ReadLong(buf, offset), offset, 4)
    ensures Advances(ReadFloat(buf, offset), offset, 4)
    ensures ReadBools(buf, offset) != Err(RecursionError)
    ensures ReadBools(buf, offset).Ok? && ReadBools(buf, offset).value.0 != [] ==>
              ReadBools(buf, offset).value.1 >= offset + 4
  {
    hide Unsigned, Signed, Unpack, Slice;
    LeavesNeverStuck(buf, offset);
  }

  /** A value that can be set ends at least four bytes further on. */
  predicate ValueAdvanced(r: Read<Value>, offset: int) {
    r != Err(RecursionError) && (r.Ok? && !IsEmptyArray(r.value.0) ==> r.value.1 >= offset + 4)
  }

  lemma PlainAdvances(buf: bytes, offset: int, code: int, depth: nat)
    requires code != 13 && code != 14 && ForwardValue(buf, offset, code, depth)
    ensures ValueAdvanced(ReadValue(buf, offset, code, depth), offset)
  {
    hide ReadInt, ReadLong, ReadFloat, ReadString, ReadBinary, ReadBools, ReadArray, ForwardBinary, ForwardArray;
    PlainNeverStuck(buf, offset, code, depth);
    NumbersAdvance(buf, offset);
    forall o
      ensures Advances(ReadInt(buf, o), o, 0) && Advances(ReadLong(buf, o), o, 0)
      ensures Advances(ReadFloat(buf, o), o, 0)
    {
      NumbersAdvance(buf, o);
    }
    forall o | ForwardBinary(buf, o) ensures Advances(ReadString(buf, o), o, 4) && Advances(ReadBinary(buf, o), o, 4) {
      BinaryAdvances(buf, o);
    }
    match code
    case 8 => FixedArrayAdvances(buf, offset, ReadInt);
    case 9 => FixedArrayAdvances(buf, offset, ReadLong);
    case 10 => FixedArrayAdvances(buf, offset, ReadFloat);
    case 11 => ArrayAdvances(buf, offset, ReadString);
    case 12 => ArrayAdvances(buf, offset, ReadBinary);
    case _ =>
  }

  lemma {:induction false} NestedAdvances(buf: bytes, offset: int, depth: nat)
    requires ForwardNested(buf, offset, depth) && depth > 0 && 0 <= offset && |buf| < offset + 12 * depth
    ensures Advances(ReadNested(buf, offset, depth), offset, 4)
    decreases depth, 0
  {
    hide ReadCollection, Forward, InsertAll;
    CollectionAdvances(buf, offset, depth - 1);
  }

  lemma {:induction false} NestedManyAdvances(buf: bytes, offset: int, n: int, depth: nat)
    requires ForwardNestedMany(buf, offset, n, depth) && depth > 0 && 0 <= offset && |buf| < offset + 12 * depth
    ensures Advances(ReadNestedMany(buf, offset, n, depth), offset, 0)
    decreases depth, 1, n
  {
    hide ReadNested, ForwardNested;
    if n > 0 {
      NestedAdvances(buf, offset, depth);
      var r := ReadNested(buf, offset, depth);
      if r.Ok? { NestedManyAdvances(buf, r.value.1, n - 1, depth); }
    }
  }

  lemma {:induction false} ValueAdvances(buf: bytes, offset: int, code: int, depth: nat)
    requires ForwardValue(buf, offset, code, depth) && 0 <= offset <= |buf| < offset + 12 * depth
    ensures ValueAdvanced(ReadValue(buf, offset, code, depth), offset)
    decreases depth, 2
  {
    hide ReadInt, ReadNested, ReadNestedMany, ReadLong, ReadFloat, ReadString, ReadBinary, ReadBools, ReadArray,
         ForwardNested, ForwardNestedMany, ForwardBinary, ForwardArray, IsEmptyArray;
    if code == 13 {
      NestedAdvances(buf, offset, depth);
    } else if code == 14 {
      IntAdvances(buf, offset);
      var r := ReadInt(buf, offset);
      if r.Ok? { NestedManyAdvances(buf, r.value.1, r.value.0, depth); }
    } else {
      PlainAdvances(buf, offset, code, depth);
    }
  }

  /** An entry takes at least three words. */
  lemma {:induction false} EntryAdvances(buf: bytes, offset: int, depth: nat)
    requires ForwardEntry(buf, offset, depth) && 0 <= offset && |buf| < offset + 8 + 12 * depth
    ensures Advances(ReadEntry(buf, offset, depth), offset, 12)
    decreases depth, 3
  {
    hide ReadInt, ReadString, ReadValue, ForwardBinary, ForwardValue, IsEmptyArray;
    BinaryAdvances(buf, offset);
    var name := ReadString(buf, offset);
    if name.Ok? {
      IntAdvances(buf, name.value.1);
      var code := ReadInt(buf, name.value.1);
      if code.Ok? { ValueAdvances(buf, code.value.1, code.value.0, depth); }
    }
  }

  predicate ScanAdvanced(scan: Scan, offset: int) {
    if scan.end.Ok? then scan.end.value >= offset else scan.end != Err(RecursionError)
  }

  lemma {:induction false} EntriesAdvance(buf: bytes, offset: int, n: int, depth: nat)
    requires ForwardEntries(buf, offset, n, depth) && 0 <= offset && |buf| < offset + 8 + 12 * depth
    ensures ScanAdvanced(ReadEntries(buf, offset, n, depth), offset)
    decreases depth, 4, n
  {
    hide ReadEntry, ForwardEntry;
    if n > 0 {
      EntryAdvances(buf, offset, depth);
      var r := ReadEntry(buf, offset, depth);
      if r.Ok? { EntriesAdvance(buf, r.value.1, n - 1, depth); }
    }
  }

  lemma {:induction false} CollectionAdvances(buf: bytes, offset: int, depth: nat)
    requires Forward(buf, offset, depth) && 0 <= offset && |buf| < offset + 12 * (depth + 1)
    ensures ScanAdvanced(ReadCollection(buf, offset, depth), offset + 4)
    decreases depth, 5
  {
    hide ReadInt, ReadEntries, ForwardEntries;
    IntAdvances(buf, offset);
    var r := ReadInt(buf, offset);
    if r.Ok? { EntriesAdvance(buf, r.value.1, r.value.0, depth); }
  }

  /** When no length read is negative the offsets grow by three words for each nested call, so a depth of a twelfth
      of the buffer is enough for any bytes. */
  lemma ForwardEnds(buf: bytes, depth: nat)
    requires Forward(buf, 0, depth) && |buf| < 12 * (depth + 1)
    ensures !Stuck(buf, 0, depth)
  {
    hide Forward, ReadCollection;
    CollectionAdvances(buf, 0, depth);
  }

  // ----- a condition on the bytes alone -----

  lemma {:induction false} ManyForward<T>(buf: bytes, offset: int, n: int, read: (bytes, int) -> Read<T>)
    requires forall o :: ForwardBinary(buf, o)
    ensures ForwardMany(buf, offset, n, read)
    decreases n
  {
    hide ForwardBinary;
    if n > 0 && read(buf, offset).Ok? { ManyForward(buf, read(buf, offset).value.1, n - 1, read); }
  }

  lemma {:induction false} ValueForward(buf: bytes, offset: int, code: int, depth: nat)
    requires forall o :: ForwardBinary(buf, o)
    ensures ForwardValue(buf, offset, code, depth)
    decreases depth, 2
  {
    hide ForwardBinary, ForwardMany, ReadInt;
    var r := ReadInt(buf, offset);
    if r.Ok? && code == 11 { ManyForward(buf, r.value.1, r.value.0, ReadString); }
    if r.Ok? && code == 12 { ManyForward(buf, r.value.1, r.value.0, ReadBinary); }
    if code == 13 && depth > 0 { CollectionForward(buf, offset, depth - 1); }
    if r.Ok? && code == 14 { NestedManyForward(buf, r.value.1, r.value.0, depth); }
  }

  lemma {:induction false} NestedManyForward(buf: bytes, offset: int, n: int, depth: nat)
    requires forall o :: ForwardBinary(buf, o)
    ensures ForwardNestedMany(buf, offset, n, depth)
    decreases depth, 1, n
  {
    hide ForwardBinary, Forward, ReadNested;
    if n > 0 {
      if depth > 0 { CollectionForward(buf, offset, depth - 1); }
      var r := ReadNested(buf, offset, depth);
      if r.Ok? { NestedManyForward(buf, r.value.1, n - 1, depth); }
    }
  }

  lemma {:induction false} EntriesForward(buf: bytes, offset: int, n: int, depth: nat)
    requires forall o :: ForwardBinary(buf, o)
    ensures ForwardEntries(buf, offset, n, depth)
    decreases depth, 4, n
  {
    hide ForwardBinary, ForwardValue, ReadString, ReadInt, ReadEntry;
    if n > 0 {
      var name := ReadString(buf, offset);
      if name.Ok? {
        var code := ReadInt(buf, name.value.1);
        if code.Ok? { ValueForward(buf, code.value.1, code.value.0, depth); }
      }
      var r := ReadEntry(buf, offset, depth);
      if r.Ok? { EntriesForward(buf, r.value.1, n - 1, depth); }
    }
  }

  lemma {:induction false} CollectionForward(buf: bytes, offset: int, depth: nat)
    requires forall o :: ForwardBinary(buf, o)
    ensures Forward(buf, offset, depth)
    decreases depth, 5
  {
    hide ForwardBinary, ForwardEntries, ReadInt;
    var r := ReadInt(buf, offset);
    if r.Ok? { EntriesForward(buf, r.value.1, r.value.0, depth); }
  }

  lemma LowWordIsPositive(a: byte, b: byte, c: byte, d: byte)
    requires d < 0x80
    ensures Signed([a, b, c, d]) >= 0
  {
    UnsignedWord(a, b, c, d);
    ModulusOf8();
  }

  lemma LowIntIsPositive(buf: bytes, offset: int)
    requires forall k | 0 <= k < |buf| :: buf[k] < 0x80
    ensures ForwardBinary(buf, offset)
  {
    hide Signed;
    var start := if offset < 0 then offset + |buf| else offset;
    if 0 <= start && start + 4 <= |buf| {
      var word := buf[start..start + 4];
      assert word == [word[0], word[1], word[2], word[3]];
      LowWordIsPositive(word[0], word[1], word[2], word[3]);
    }
  }

  /** Bytes that are all below 0x80 hold no negative length, so the reader always ends on them. */
  lemma LowBytesEnd(buf: bytes, depth: nat)
    requires (forall k | 0 <= k < |buf| :: buf[k] < 0x80) && |buf| < 12 * (depth + 1)
    ensures !Stuck(buf, 0, depth)
  {
    hide Forward, Stuck, ForwardBinary;
    forall o ensures ForwardBinary(buf, o) { LowIntIsPositive(buf, o); }
    CollectionForward(buf, 0, depth);
    ForwardEnds(buf, depth);
  }
}
