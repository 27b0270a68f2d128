# A verified model of the Nix service platform's core

This project models five parts of the repository and proves what they promise:

1. **YAMI parameters and their wire format** (`python/nix/lib/yami.py`): the ordered slot table with holes and a
   name index, the recursive serializer and the deserializer for 14 value types, word padding and bit packing.
2. **Messages** (`src/nix/message.hxx`, `src/nix/message.cxx`, `src/nix/util/string.cxx`): a JSON tree addressed by
   dotted paths and updated through a walking pointer.
3. **Logging algorithms** (`src/nix/easylogging++.h`): glob matching, bounded decimal formatting, the every-N hit
   counter, and the compressed configuration map.
4. **The job queue** (`src/nix/module/builtin/service/job_queue.cxx`, `src/nix/queue.hxx`, `src/nix/job.cxx`).
5. **The resolver and the cache** (`src/nix/module/builtin/service/resolver.cxx`, `cache.cxx`).

Code that updates objects in place is a class or a method with loops, proved against a function on values; the
promises are then proved of those functions, over every input and, for the services, over every run of requests.
A request handler, a cleaner pass and one monitor ping are each one atomic step. `dafny verify dfyconfig.toml`
checks everything.

| file | contents |
|---|---|
| `Outcomes.dfy` | `Option` and `Result` |
| `ByteCodec.dfy`, `Utf8.dfy` | little-endian integers, padding, bit packing; UTF-8 |
| `SlotTable.dfy` | collections of parameters as values; runs of sets and deletes; merging |
| `WireFormat.dfy` | what the serializer writes and what the deserializer makes of any bytes |
| `WireBytes.dfy` | the bytes on the wire in numbers; what each read gives and refuses |
| `WireRoundTrip.dfy` | self-delimiting, aligned, round trip |
| `WireRefusals.dfy` | trailing bytes, truncation and too deep nesting are refused |
| `ReaderDepth.dfy` | when the deserializer ends by itself on arbitrary bytes |
| `Parameters.dfy` | the `Parameters` class, its iterator, the writing and reading loops |
| `Tokens.dfy` | `split` and joining |
| `JsonTree.dfy`, `Message.dfy` | JSON trees and path operations; the `Message` class |
| `Glob.dfy`, `DecimalBuffer.dfy`, `HitCounters.dfy`, `Configurations.dfy` | the logging algorithms |
| `Remainders.dfy` | division facts |
| `Queue.dfy`, `JobQueue.dfy`, `JobLifecycle.dfy` | the bounded queue, the service, the life of a job |
| `JobOutcomes.dfy` | what each request of the job queue answers and changes |
| `JobDelivery.dfy` | which jobs workers are given, which results are delivered, and to whom |
| `Resolver.dfy`, `Cache.dfy` | the two services and their history references |

## Where the code differs from its promises

For each of these a lemma states exactly when the promise holds:

- Text with a non-ASCII character does not survive a round trip: the length field counts characters and the content
  is UTF-8 bytes (`WireRefusals.RoundTripIff`, `WireRoundTrip.NonAsciiExample`).
- On some malformed bytes the deserializer calls itself without end: a string of negative length takes it backwards
  (`ReaderDepth.BackwardNeverEnds`). It does exactly when it is still calling itself at a depth of twice the buffer's
  length (`ReaderDepth.NeverEndsIff`), and never when no length read is negative (`ReaderDepth.ForwardEnds`).
- `get_meta` does not see what `set_meta` stored under a name with a dot (`MessageClass.MetaRoundTrip`).
- `Message::remove` of a path whose parents do not exist creates them (`JsonTree.RemoveIsNoOpIff`,
  `JsonTree.RemoveCreates`).
- `LOG_EVERY_N` fires on exactly every n-th call for n up to 100000 and for no larger n
  (`HitCounters.HitsEveryNthIff`).
- The compressed configuration agrees with the list exactly when the setting registered first has the value of
  Global (`ConfigurationsModel.AgreesIffFirstIsGlobal`). `PerformanceTracking` and `MillisecondsWidth` are documented
  to be ignored unless set for Global, but follow the Info level (`ConfigurationsModel.GlobalDecidesIff`,
  `ConfigurationsModel.PerformanceFollowsInfo`).
- A result reported for a job nobody holds, or a reused job id, breaks the accounting of jobs
  (`JobLifecycle.StepKeepsIff`). A job handed straight to a waiting worker is recorded nowhere.
- A result is given to whoever presents the API key in the worker's message, so to the submitter exactly when the
  worker repeats the submitter's key (`JobDelivery.SubmitterServedIff`, `JobDelivery.DeliveredToSubmitterIff`).
- Asking the resolver for an unknown node makes the node known, so that a service can be bound to it
  (`ResolverService.BindServiceIffKnown`, `ResolverService.AskedForIsBindable`). The monitor's failure count of a node
  survives its unbinding (`ResolverService.MonitorUnbindsIff`).
- The cache answers as its history except when a cleaner pass or a retrieve saw the entry expired and the clock then
  went back far enough for it to be live again (`CacheService.RetrieveIsAnswerIff`, `CacheService.ClockSetBack`).
- In `Message::set` and `append` the branch that throws "Not an object" is unreachable: `isMember` on such a value
  has thrown already (`assert false` in `MessageClass.Message.Set` and `Append`).

## Model

| member | source | states |
|---|---|---|
| ByteCodec.RoundTo4 | python/nix/lib/yami.py:30-33 | the least multiple of 4 that is not below the argument, negative ones included |
| ByteCodec.PaddingAgreesIffAligned | python/nix/lib/yami.py:50-57 | padding relative to a length and rounding of an absolute offset agree if and only if the offset is a multiple of 4 |
| ByteCodec.SignedRoundTrip | python/nix/lib/yami.py:35-43 | unpacking a packed 4- or 8-byte signed integer gives the integer, for every value in the format's range |
| ByteCodec.PackBools | python/nix/lib/yami.py:138-148 | the packing loop yields the one byte string whose bits are the array's elements |
| ByteCodec.Packed | python/nix/lib/yami.py:141-148 | ceil(n/8) bytes; every bit is the element at its position and every unused bit is zero |
| ByteCodec.PackedUnique | python/nix/lib/yami.py:141-148 | the packing conditions leave only one byte string |
| ByteCodec.UnpackInvertsPack | python/nix/lib/yami.py:540-549 | testing the bits of the packed bytes gives back the array, at any length |
| Utf8.Decode | python/nix/lib/yami.py:450 | strict decoding: whatever decodes re-encodes to the same bytes |
| Utf8.EncodeCharBits | python/nix/lib/yami.py:54 | lead and continuation bytes of each length, whose free bits make up the code point |
| Utf8.DecodeFailsIff | python/nix/lib/yami.py:450 | strict decoding fails exactly on bytes that encode no text |
| Utf8.DecodeInverts | python/nix/lib/yami.py:54 | decoding the encoding of any text gives the text |
| Utf8.LengthIffAscii | python/nix/lib/yami.py:54-55 | the byte length equals the character count, which the writer records, if and only if the text is ASCII |
| SlotTable.EmptyArrays | python/nix/lib/yami.py:294-300 | the refused sequences are exactly the seven empty lists |
| SlotTable.RefusedChangesNothing | python/nix/lib/yami.py:319-365 | a set or delete that raises leaves the table as it is |
| SlotTable.DelItemLeavesHole | python/nix/lib/yami.py:354-362 | deleting empties the entry's slot and leaves every other slot alone |
| SlotTable.SetItemRefines | python/nix/lib/yami.py:319-343 | setting keeps the index the exact one-to-one map from names to used slots, and is a map update of the contents |
| SlotTable.DelItemRefines | python/nix/lib/yami.py:354-362 | deleting keeps the index exact and removes just that name |
| SlotTable.CountIsItems | python/nix/lib/yami.py:96-103 | the iterator yields exactly `len` entries, with distinct names, so the count written first is right |
| SlotTable.RunRefines | python/nix/lib/yami.py:319-370 | over every sequence of sets and deletes the table is the plain map, and its length is the largest number of entries ever live at once |
| SlotTable.MergeLayout | python/nix/lib/yami.py:319-343 | inserting any entries, repeated names included, into any collection: old names keep their slots with the last value, new names fill the lowest holes in order of first appearance and then extend the end, left-over holes stay |
| WireBytes.IntBytes | python/nix/lib/yami.py:35-38 | an int is its four base-256 digits, least significant first, and fits exactly between -2^31 and 2^31 |
| WireBytes.LongBytes | python/nix/lib/yami.py:40-48 | a long, or the pattern of a float, is its eight digits; a long fits between -2^63 and 2^63 |
| WireBytes.ContentBytes | python/nix/lib/yami.py:50-57 | content is followed by (4 - length mod 4) mod 4 bytes, each zero |
| WireBytes.StringBytes | python/nix/lib/yami.py:59-67 | text is the number of characters, the UTF-8 bytes, and zeros |
| WireBytes.AsciiBytes | python/nix/lib/yami.py:54 | ASCII text is one byte per character |
| WireBytes.BinaryBytes | python/nix/lib/yami.py:78-86 | binary is its length, its bytes, and zeros |
| WireBytes.TypeCodes | python/nix/lib/yami.py:111-190 | the fourteen type codes |
| WireBytes.ScalarPayloads | python/nix/lib/yami.py:111-133 | the payload of each scalar; a bool is the word 1 or 0 |
| WireBytes.NumberArrays | python/nix/lib/yami.py:152-168 | the count, and element k of an array of numbers at its place |
| WireBytes.BoolArray | python/nix/lib/yami.py:138-150 | the count, ceil(n/8) bytes whose bit i mod 8 of byte i/8 is element i, and zeros |
| WireBytes.NestedPayloads | python/nix/lib/yami.py:182-190 | a nested collection is its bytes; a list of them the count and the bytes of each |
| WireBytes.CollectionBytes | python/nix/lib/yami.py:96-108 | the count of the used slots and then their entries in slot order; holes leave no trace |
| WireBytes.SerializedExample | python/nix/lib/yami.py:91-194 | the bytes of a one-entry collection with holes around the entry |
| WireBytes.FitsExactly | python/nix/lib/yami.py:35-86 | what the writer accepts: integers in range, every length and count below 2^31, all the way down |
| WireBytes.CollectionFits | python/nix/lib/yami.py:96-108 | a collection fits when its count, its names and its values do |
| WireBytes.NumbersRead | python/nix/lib/yami.py:419-441 | on any bytes and offset: the number whose bytes they are, or struct.error when there are too few |
| WireBytes.ContentRead | python/nix/lib/yami.py:465-474 | on any bytes and length, negative ones included: the slice read and the aligned offset after it |
| WireBytes.TextRead | python/nix/lib/yami.py:443-463 | text read is what the bytes encode, and UnicodeDecodeError if they encode nothing |
| WireBytes.BinaryRead | python/nix/lib/yami.py:454-485 | a length and that much content; without a length, struct.error |
| WireBytes.UnopenedRefused | python/nix/lib/yami.py:512-513 | an entry fails as the reading of its name or type code does |
| WireBytes.CodeRefused | python/nix/lib/yami.py:606-607 | a type code that is not 1 to 14 is a ValueError |
| WireBytes.EmptyListRefused | python/nix/lib/yami.py:298-300 | a list whose count is zero or negative is a TypeError |
| WireBytes.ShortBitsRefused | python/nix/lib/yami.py:545-549 | fewer packed bytes than bools is an IndexError |
| WireBytes.ValueRefused | python/nix/lib/yami.py:515-605 | a value without its first number is a struct.error, for every type |
| WireRoundTrip.ReadContentAt | python/nix/lib/yami.py:465-474 | at an aligned offset the reader's rounding stops where the writer's padding ends |
| WireRoundTrip.ReadStringAt | python/nix/lib/yami.py:454-463 | a written string is read back, with the offset after it and aligned, if and only if it is ASCII |
| WireRoundTrip.ReadBoolsAt | python/nix/lib/yami.py:539-550 | a written bool array is read back and the reader stops at its end |
| WireRoundTrip.ReadManyAt | python/nix/lib/yami.py:552-590 | an array written element by element is read back exactly when all elements are, and stays aligned |
| WireRoundTrip.ReadValueAt | python/nix/lib/yami.py:515-607 | every one of the 14 value types is read back at any aligned offset, whatever surrounds it, exactly when its text is ASCII |
| WireRoundTrip.ReadCollectionAt | python/nix/lib/yami.py:506-609 | the induction over nesting: the reader finds the collection's entries and stops at its end, which is aligned, exactly when all text is ASCII |
| WireRoundTrip.SelfDelimiting | python/nix/lib/yami.py:506-609 | between any aligned prefix and any suffix the reader stops exactly at the end of the serialized collection |
| WireRoundTrip.MergeIsInsertion | python/nix/lib/yami.py:487-504 | deserializing a serialized collection into any collection inserts its entries one by one and uses up the buffer |
| WireRoundTrip.RoundTripIffAscii | python/nix/lib/yami.py:91-194 | deserializing what was serialized gives the same collection without its holes, at any depth, if and only if all names and text values are ASCII |
| WireRoundTrip.NonAsciiExample | python/nix/lib/yami.py:54-63 | one accented letter in a name does not come back |
| WireRoundTrip.CompactKeepsContents | python/nix/lib/yami.py:262-271 | dropping holes keeps the names, their order and their (hole-free) values |
| WireRefusals.TrailingBytesRefused | python/nix/lib/yami.py:499-504 | anything after a serialized collection is a ValueError, raised after the collection has been merged |
| WireRefusals.CollectionFalls | python/nix/lib/yami.py:506-609 | a buffer that ends inside a collection makes the reader fail or stop past the end, by induction over nesting |
| WireRefusals.TruncationRefused | python/nix/lib/yami.py:487-504 | no proper prefix of a serialized collection is accepted, wherever it is cut |
| WireRefusals.CollectionTooDeep | python/nix/lib/yami.py:592-604 | a collection nested more deeply than the interpreter allows is a RecursionError |
| WireRefusals.RoundTripIff | python/nix/lib/yami.py:91-194 | the round trip is the identity up to holes if and only if all text is ASCII and the depth is allowed |
| ReaderDepth.BackwardNeverEnds | python/nix/lib/yami.py:443-463 | twelve bytes on which the reader goes back to offset 0 and exceeds every depth |
| ReaderDepth.CollectionStable | python/nix/lib/yami.py:506-609 | for any bytes: a collection read without running out of depth is read the same at every greater depth |
| ReaderDepth.EndsWithin | python/nix/lib/yami.py:592-604 | a reading that ends at all never comes back to the offset of a call around it, so it ends within as many nested calls as there are offsets |
| ReaderDepth.NeverEndsIff | python/nix/lib/yami.py:506-609 | for any bytes: the reader runs out of depth at every depth if and only if it does at twice the buffer's length |
| ReaderDepth.DepthDoesNotMatter | python/nix/lib/yami.py:487-504 | from that depth on the outcome of deserialize does not depend on the interpreter's limit |
| ReaderDepth.EntryAdvances | python/nix/lib/yami.py:511-607 | when no length read is negative every entry ends at least three words further on |
| ReaderDepth.CollectionAdvances | python/nix/lib/yami.py:506-609 | and every collection at least one word, without running out of a depth of a twelfth of the remaining bytes |
| ReaderDepth.ForwardEnds | python/nix/lib/yami.py:506-609 | so no bytes without a negative length exceed a depth of a twelfth of the buffer |
| ReaderDepth.LowBytesEnd | python/nix/lib/yami.py:506-609 | in particular bytes that are all below 0x80 |
| ParametersClass.EntryIterator.SkipUnused | python/nix/lib/yami.py:262-271 | moves to the next used slot or the end, skipping holes only |
| ParametersClass.EntryIterator.Next | python/nix/lib/yami.py:246-260 | returns the first remaining entry, and stops just when none remains |
| ParametersClass.ByteBuffer.AppendInt | python/nix/lib/yami.py:35-38 | appends the four bytes, or raises struct.error exactly outside 32 bits |
| ParametersClass.ByteBuffer.AppendMany | python/nix/lib/yami.py:152-180 | appends the count and every element, or raises when one does not fit |
| ParametersClass.AppendValue | python/nix/lib/yami.py:111-190 | appends type code and payload, or raises struct.error exactly when a number in the value is out of range |
| ParametersClass.AppendNestedMany | python/nix/lib/yami.py:182-186 | appends the count and the serialized collections |
| ParametersClass.Serialize | python/nix/lib/yami.py:91-194 | the writing loop produces the wire form of the collection, or raises exactly when some number does not fit |
| ParametersClass.ExtractMany | python/nix/lib/yami.py:552-590 | the element loops read the elements in order, for any count and any bytes |
| ParametersClass.ExtractBits | python/nix/lib/yami.py:544-549 | the unpacking loop, with its IndexError when the packed bytes are too few |
| ParametersClass.ExtractEntry | python/nix/lib/yami.py:511-607 | name, type code and value of one entry from any bytes, with every error the reads raise |
| ParametersClass.ExtractValue | python/nix/lib/yami.py:515-607 | the value for each type code from any bytes; ValueError for an unknown code |
| ParametersClass.ExtractNestedMany | python/nix/lib/yami.py:597-604 | the loop reading an array of nested collections |
| ParametersClass.Parameters.constructor | python/nix/lib/yami.py:273-277 | an empty table |
| ParametersClass.Parameters.SetItem | python/nix/lib/yami.py:319-343 | replaces in place, or fills the lowest hole, or extends; TypeError for an empty sequence, changing nothing |
| ParametersClass.Parameters.GetItem | python/nix/lib/yami.py:345-352 | the value of the name in the map the table stands for, or KeyError |
| ParametersClass.Parameters.DelItem | python/nix/lib/yami.py:354-365 | leaves a hole and forgets the name, or KeyError |
| ParametersClass.Parameters.DoDeserialize | python/nix/lib/yami.py:506-609 | for arbitrary bytes: inserts the entries read before the first error, and ends with that error or the final offset |
| ParametersClass.Parameters.Deserialize | python/nix/lib/yami.py:487-504 | merges what was read, and raises ValueError unless the buffer is used up |
| Tokens.FindFirstOf | src/nix/util/string.cxx:41 | the first position of a delimiter from a given one, or npos |
| Tokens.FindFirstNotOf | src/nix/util/string.cxx:40 | the first position of a non-delimiter, or npos |
| Tokens.SplitInto | src/nix/util/string.cxx:35-48 | appends exactly the maximal delimiter-free runs of the string, in order, for any delimiters |
| Tokens.RunsAreRuns | src/nix/util/string.cxx:43-47 | the tokens are maximal, non-empty and delimiter-free, ordered, and cover every other character |
| Tokens.RunsUnique | src/nix/util/string.cxx:43-47 | there is only one such list of runs |
| Tokens.SplitOfJoin | src/nix/util/string.cxx:35-48 | splitting non-empty delimiter-free keys joined by the delimiter returns the keys |
| Tokens.SplitIsNormal | src/nix/util/string.cxx:35-48 | joining the tokens of any path is a spelling of the same path |
| JsonTree.PutThenLookup | src/nix/message.hxx:93-113 | after a successful set the path reads the value, and paths inside it read its parts |
| JsonTree.PutFrame | src/nix/message.hxx:93-113 | a set leaves every path alone that is neither a prefix nor an extension of its own |
| JsonTree.PutSucceedsIff | src/nix/message.hxx:98-112 | set succeeds if and only if every node that exists above the target is an object or null; otherwise member access throws |
| JsonTree.PutOverwrites | src/nix/message.hxx:110-112 | setting a path twice is setting it to the last value |
| JsonTree.PutsCommute | src/nix/message.hxx:93-113 | sets of unrelated paths commute |
| JsonTree.AppendThenLookup | src/nix/message.hxx:117-144 | after an append the path holds the old elements and the new one |
| JsonTree.AppendFrame | src/nix/message.hxx:117-144 | an append leaves unrelated paths alone |
| JsonTree.AppendAccumulates | src/nix/message.hxx:117-144 | any number of appends leaves the old elements followed by the new ones in order, and unrelated paths untouched |
| JsonTree.AppendsSucceedTogether | src/nix/message.hxx:134-143 | if the first append at a path succeeds, so do all that follow |
| JsonTree.AppendSucceedsIff | src/nix/message.hxx:123-143 | append succeeds if and only if the way is passable and the target is missing, null, an empty object or an array; which of the two it is decides the exception |
| JsonTree.FoundIff | src/nix/message.cxx:252-263 | a path is found if and only if the root is no array and every key on it is a member of an object |
| JsonTree.RemoveSucceedsIff | src/nix/message.cxx:188-197 | remove succeeds if and only if every node that exists above the target is an object or null |
| JsonTree.RemoveThenLookup | src/nix/message.cxx:183-198 | after a remove the path is not found |
| JsonTree.RemoveFrame | src/nix/message.cxx:183-198 | a remove leaves unrelated paths alone |
| JsonTree.RemoveIsNoOpIff | src/nix/message.cxx:189-194 | a remove leaves the document unchanged if and only if the target is missing and its parent exists |
| JsonTree.RemoveCreates | src/nix/message.cxx:189-194 | removing "a.b" from an empty document creates "a" |
| MessageClass.Message.Set | src/nix/message.hxx:93-113 | the pointer walk sets the path as specified, or throws and leaves the whole document unchanged |
| MessageClass.Message.Append | src/nix/message.hxx:117-144 | the same for append: all or nothing |
| MessageClass.Message.Remove | src/nix/message.cxx:183-198 | the same for remove |
| MessageClass.Message.FindValue | src/nix/message.cxx:248-264 | the value at the path's keys, nothing at all when the root is an array |
| MessageClass.Message.Exists | src/nix/message.cxx:242-246 | whether the path has a value |
| MessageClass.Message.SetMeta | src/nix/message.hxx:80-83 | writes the member "@name" of an object or null root without splitting the name; throws for any other root, changing nothing |
| MessageClass.Message.Get | src/nix/message.cxx:48-107 | the value at the path, converted, when there is one and it converts; otherwise the default |
| MessageClass.Message.GetMeta | src/nix/message.hxx:85-90 | the same for "@name" as a path |
| MessageClass.GetAfterSet | src/nix/message.hxx:92-113 | after a successful set a getter finds the value set, and at an unrelated path what was there before |
| MessageClass.MetaRoundTrip | src/nix/message.hxx:79-90 | get_meta after set_meta finds the value exactly when the name has no dot, and otherwise finds what it found before |
| MessageClass.MetaFrame | src/nix/message.hxx:80-83 | set_meta leaves every path alone that does not begin with its key |
| Glob.WildCardMatch | src/nix/easylogging++.h:1230-1253 | true if and only if the string can be cut into one piece per pattern character, each matching its character; terminates |
| Glob.MatchesStar | src/nix/easylogging++.h:1239-1244 | '*' matches nothing, or swallows a character and stays |
| Glob.MatchesOne | src/nix/easylogging++.h:1233-1249 | any other pattern character takes exactly one character |
| DecimalBuffer.PaddedIsModulo | src/nix/easylogging++.h:1374-1387 | zero-padded output is exactly min(len, 8) digits denoting n modulo that power of ten, for len >= 1 |
| DecimalBuffer.UnpaddedIsNumber | src/nix/easylogging++.h:1377-1383 | unpadded output denotes n modulo 10^min(len, 8), so it is n if and only if n fits; then it has no leading zero, and zero is one digit |
| DecimalBuffer.NoRoom | src/nix/easylogging++.h:1377-1385 | for len <= 0 nothing is written, except that a zero is |
| DecimalBuffer.WriteDigits | src/nix/easylogging++.h:1375-1383 | the digit loop stays inside the local buffer and writes the low digits |
| DecimalBuffer.FillLocal | src/nix/easylogging++.h:1375-1385 | the padding loop stays inside it too; together they leave the formatted number before the terminator |
| DecimalBuffer.AddToBuff | src/nix/easylogging++.h:1389-1393 | copies the longest prefix that fits before the limit, the terminator if there is room, touches nothing else, and returns where the prefix ends |
| DecimalBuffer.Copied | src/nix/easylogging++.h:1389-1393 | what the copy leaves at every position of the buffer |
| DecimalBuffer.EndIsCopied | src/nix/easylogging++.h:1389-1393 | the returned position is before the limit only when the whole text and its terminator were written |
| DecimalBuffer.ConvertAndAddToBuff | src/nix/easylogging++.h:1374-1387 | the buffer receives the formatted number, cut at the limit |
| HitCounters.HitCounter.ValidateHitCounts | src/nix/easylogging++.h:3216-3221 | the count after a call, wrapping at 100000 |
| HitCounters.RegisteredHitCounters.Get | src/nix/easylogging++.h:2072-2081 | the first registered counter of a call site |
| HitCounters.RegisteredHitCounters.ValidateEveryN | src/nix/easylogging++.h:3266-3275 | registers a site at most once, advances only its counter, and says whether the call is a hit |
| HitCounters.SitesAreIndependent | src/nix/easylogging++.h:3266-3275 | over any interleaving a site's count depends on its own calls only |
| HitCounters.CountIsCongruent | src/nix/easylogging++.h:3216-3221 | for 1 <= n <= 100000 the count stays congruent to the number of calls and never exceeds 100000 |
| HitCounters.EveryNth | src/nix/easylogging++.h:3266-3275 | over any interleaving the k-th call of a site is a hit if and only if n divides k |
| HitCounters.CountBounded | src/nix/easylogging++.h:3216-3221 | whatever mixture of n, from 0 to 100000, a site is called with, its count never exceeds 100000 |
| HitCounters.ZeroGoesRound | src/nix/easylogging++.h:3216-3221 | with n zero the count goes round from 1 to 100000 and no call is a hit |
| HitCounters.HitsEveryNthIff | src/nix/easylogging++.h:3216-3275 | a site hits exactly its every n-th call if and only if n <= 100000 |
| HitCounters.PromiseBroken | src/nix/easylogging++.h:3216-3221 | for every larger n some call is wrong |
| ConfigurationsModel.SetValueOf | src/nix/easylogging++.h:2553-2559 | set changes the value of its level, or of Global and all valid levels, and of no other (level, type) pair, each registered once |
| ConfigurationsModel.RunIsLatest | src/nix/easylogging++.h:2553-2559 | over every run each pair is registered once and holds the value set last for its level or for Global |
| ConfigurationsModel.Configurations.UnsafeSetOne | src/nix/easylogging++.h:2812-2818 | replaces the registered value or registers a new one at the end |
| ConfigurationsModel.Configurations.UnsafeSetGlobally | src/nix/easylogging++.h:2839-2848 | the loop over the levels, doubling from Trace to Info |
| ConfigurationsModel.Configurations.UnsafeSetLevel | src/nix/easylogging++.h:2812-2822 | one level, or Global and all of them |
| ConfigurationsModel.Configurations.SetLevel | src/nix/easylogging++.h:2553-2559 | set on the registered list |
| ConfigurationsModel.TypedMap.SetTyped | src/nix/easylogging++.h:2990-3010 | the first value goes to Global, a value Global has is left out, any other is stored for its level |
| ConfigurationsModel.TypedMap.GetConfigByVal | src/nix/easylogging++.h:2957-2971 | the level's value, or Global's, or the error |
| ConfigurationsModel.TypedMap.BuildFrom | src/nix/easylogging++.h:3012-3050 | the building loop over the registered settings of a type, in registration order |
| ConfigurationsModel.AgreesIffFirstIsGlobal | src/nix/easylogging++.h:2957-3010 | the compressed map agrees with the list at every level if and only if the setting registered first has the value of Global |
| ConfigurationsModel.StoredIffDifferent | src/nix/easylogging++.h:2996-3000 | what the compression leaves out: a level has an entry of its own if and only if its value differs from Global's |
| ConfigurationsModel.LookupIsLatest | src/nix/easylogging++.h:2553-3050 | after any run whose first call for a type is at Global, the typed lookup at every level gives the value set last for that level or for Global |
| ConfigurationsModel.LastDecides | src/nix/easylogging++.h:3037-3041 | for PerformanceTracking and MillisecondsWidth the setting registered last decides, whatever its level |
| ConfigurationsModel.GlobalDecidesIff | src/nix/easylogging++.h:2543-2545 | the documented rule for these types holds if and only if the setting registered last has the value of Global |
| ConfigurationsModel.LastOfRun | src/nix/easylogging++.h:2839-2848 | after any run that starts at Global the setting registered last is that of Info, or of the last further level some call registered after it |
| ConfigurationsModel.PerformanceFollowsInfo | src/nix/easylogging++.h:3037-3041 | so over every such run these types give the value set last for that level, which is Info when only Global and the seven levels are used |
| BoundedQueue.Queue.PopFront | src/nix/queue.hxx:31-58 | the first element, or nothing when closed; waits when open and empty |
| BoundedQueue.Queue.PushBack | src/nix/queue.hxx:60-72 | appends, or refuses when closed or full |
| BoundedQueue.Queue.SetEnabled | src/nix/queue.hxx:79-83 | opens or closes and keeps the elements |
| BoundedQueue.Queue.Clear | src/nix/queue.hxx:85-95 | drops all elements and leaves the queue open or closed as it was |
| BoundedQueue.Fifo | src/nix/queue.hxx:31-95 | over every run: what was accepted is what left followed by what is there, in order, and the bound is never passed |
| BoundedQueue.QueueIsReference | src/nix/queue.hxx:31-95 | over every run: an element is accepted if and only if the queue is open and fewer than its bound wait; a closed queue gives nothing, an open one the element accepted first |
| JobQueueService.JobQueue.InitNamed | src/nix/module/builtin/service/job_queue.cxx:109-124 | creates both queues of a new name; an existing waiting-workers queue is kept |
| JobQueueService.JobQueue.SubmitJob | src/nix/module/builtin/service/job_queue.cxx:126-192 | the whole new state and the reply, for every refusal and for direct hand-over to a waiting worker |
| JobQueueService.JobQueue.GetWorkFor | src/nix/module/builtin/service/job_queue.cxx:194-221 | a pending job moves to the jobs in progress; on a closed queue the worker is parked |
| JobQueueService.JobQueue.ReportProgress | src/nix/module/builtin/service/job_queue.cxx:223-235 | updates the job in progress, if there is one and the progress is not zero |
| JobQueueService.JobQueue.AcceptResult | src/nix/module/builtin/service/job_queue.cxx:238-257 | stores the result as completed, whoever sends it |
| JobQueueService.JobQueue.FetchResult | src/nix/module/builtin/service/job_queue.cxx:259-293 | delivers and forgets a completed job when the caller presents the key its result was reported with; refuses any other key; answers for jobs in progress and unknown ones |
| JobQueueService.JobQueue.ClearEvery | src/nix/module/builtin/service/job_queue.cxx:397-403 | clears every queue |
| JobQueueService.JobQueue.SwitchEvery | src/nix/module/builtin/service/job_queue.cxx:405-410 | opens or closes every queue |
| JobQueueService.JobQueue.RemoveEvery | src/nix/module/builtin/service/job_queue.cxx:412-419 | removes every queue, keeping the waiting workers |
| JobQueueService.JobQueue.HandleManage | src/nix/module/builtin/service/job_queue.cxx:306-369 | the combined effect of all management switches in their order, and the reply |
| JobLifecycle.StepKeepsIff | src/nix/module/builtin/service/job_queue.cxx:109-419 | the accounting of jobs survives a request if and only if an accepted submission has a new id and a result comes from a worker that holds the job |
| JobLifecycle.SetResultBreaks | src/nix/module/builtin/service/job_queue.cxx:238-257 | a result for a job nobody holds puts the job in a second place, or counts it without its being accepted |
| JobLifecycle.ManageShrinks | src/nix/module/builtin/service/job_queue.cxx:306-419 | management only takes pending jobs away, and every queue name keeps a waiting-workers queue |
| JobLifecycle.RunConserves | src/nix/module/builtin/service/job_queue.cxx:109-419 | over every disciplined run each accepted job is in exactly one of pending, handed over, in progress, completed, delivered, dropped; completed jobs have progress 100; the counter is completed plus delivered |
| JobLifecycle.DeliveredAtMostOnce | src/nix/module/builtin/service/job_queue.cxx:259-293 | a result is delivered at most once per job id, and only for accepted jobs |
| JobOutcomes.SubmitOutcome | src/nix/module/builtin/service/job_queue.cxx:126-192 | every refusal; hand-over to the worker waiting longest; otherwise the end of the queue, or "Queue full"; and what stays unchanged |
| JobOutcomes.GetWorkOutcome | src/nix/module/builtin/service/job_queue.cxx:194-221 | the first job of an open queue, then in progress; waiting on an empty one; parking on a closed one while there is room |
| JobOutcomes.ProgressOutcome | src/nix/module/builtin/service/job_queue.cxx:223-235 | progress other than zero is recorded, at most 100, reaching 100 marks the job completed, and get_result tells of it |
| JobOutcomes.ResultOutcome | src/nix/module/builtin/service/job_queue.cxx:238-257 | the worker's job is kept whole as completed, with progress 100 |
| JobOutcomes.GetResultOutcome | src/nix/module/builtin/service/job_queue.cxx:259-293 | a completed job is given once, to its key; every other answer changes nothing |
| JobOutcomes.ManageAllEffect | src/nix/module/builtin/service/job_queue.cxx:309-329 | clear_all, remove_all and switch_all in this order, on every queue |
| JobOutcomes.ManageNamedEffect | src/nix/module/builtin/service/job_queue.cxx:332-368 | creation with room for 50 unless a size is given, switching, clearing and removing of the named queue, and the reply |
| JobOutcomes.RunWellFormed | src/nix/module/builtin/service/job_queue.cxx:109-419 | over every run no queue is over its bound and each has a queue of waiting workers that is never closed |
| JobDelivery.CompletedIsReported | src/nix/module/builtin/service/job_queue.cxx:246-250 | over every run a completed job is the job of the last result reported for its id, every field of it, with progress 100 |
| JobDelivery.ResultIsReported | src/nix/module/builtin/service/job_queue.cxx:259-276 | over every run whatever is delivered is that job, against the key it carries |
| JobDelivery.RunMatches | src/nix/module/builtin/service/job_queue.cxx:109-419 | over every disciplined run pending jobs are as submitted, in their queue and in order of submission, and jobs in progress differ only in how far they are |
| JobDelivery.WorkIsOldest | src/nix/module/builtin/service/job_queue.cxx:204-215 | over every disciplined run a worker is given the job submitted first among those pending in the queue, exactly as it was submitted there |
| JobDelivery.NotReadyIsSubmitted | src/nix/module/builtin/service/job_queue.cxx:279-286 | who asks for a job in progress is told of the job as submitted, but for how far it is |
| JobDelivery.SubmitterServedIff | src/nix/module/builtin/service/job_queue.cxx:244-276 | for a job in progress: after its result is reported the submitter is given it if and only if the worker's message repeats the submitter's key, and is denied access otherwise |
| JobDelivery.DeliveredToSubmitterIff | src/nix/module/builtin/service/job_queue.cxx:259-276 | over every disciplined run a completed job is given to exactly the reported key, hence to its submitter if and only if the two keys are equal |
| JobDelivery.SubmitterOnly | src/nix/module/builtin/service/job_queue.cxx:244-276 | when every worker repeats the key, a completed job is given to its submitter and to nobody else |
| ResolverService.Resolver.BindNode | src/nix/module/builtin/service/resolver.cxx:97-114 | binds a non-empty name to a non-empty address |
| ResolverService.Resolver.ResolveNode | src/nix/module/builtin/service/resolver.cxx:116-131 | the address, or failure, entering an unknown node with an empty address |
| ResolverService.Resolver.RemoveNode | src/nix/module/builtin/service/resolver.cxx:300-307 | removes the node from the node map and from every service |
| ResolverService.Resolver.Unbind | src/nix/module/builtin/service/resolver.cxx:133-140 | the same as a request |
| ResolverService.Resolver.BindService | src/nix/module/builtin/service/resolver.cxx:143-162 | lists a known node under the service |
| ResolverService.AddressesInOrder | src/nix/module/builtin/service/resolver.cxx:181-185 | the loop over the resolved set: its non-empty elements in ascending order |
| ResolverService.LessIff | src/nix/module/builtin/service/resolver.cxx:168-185 | the order: a proper prefix comes first, and otherwise the first difference decides |
| ResolverService.InOrderAscends | src/nix/module/builtin/service/resolver.cxx:168-185 | that order is strictly ascending |
| ResolverService.Resolver.ResolveService | src/nix/module/builtin/service/resolver.cxx:164-188 | the non-empty addresses of the listed nodes, each once, in ascending order; failure when no node is listed |
| ResolverService.Resolver.UnbindService | src/nix/module/builtin/service/resolver.cxx:190-204 | takes one node off the service |
| ResolverService.Resolver.Pinged | src/nix/module/builtin/service/resolver.cxx:229-247 | resets or counts the failures of a node and unbinds it at the limit |
| ResolverService.Resolver.ServicePinged | src/nix/module/builtin/service/resolver.cxx:257-286 | the same for one node of one service |
| ResolverService.Resolver.PingNodes | src/nix/module/builtin/service/resolver.cxx:221-247 | the loop over a copy of the node map: the state after it, whatever the order of the pings |
| ResolverService.Resolver.PingServices | src/nix/module/builtin/service/resolver.cxx:250-286 | the nested loops over a copy of the services, the same way |
| ResolverService.Resolver.MonitorPass | src/nix/module/builtin/service/resolver.cxx:218-286 | one pass: the nodes, then the services as that leaves them |
| ResolverService.OneMorePinged | src/nix/module/builtin/service/resolver.cxx:229-247 | pinging one more node after a set of others gives the state of the larger set, so the order does not matter |
| ResolverService.OneMoreServicePinged | src/nix/module/builtin/service/resolver.cxx:257-286 | the same for one more node of a service |
| ResolverService.PassKeepsIff | src/nix/module/builtin/service/resolver.cxx:229-247 | after any run, a pass keeps a bound node if and only if it answers or has not yet missed max_failures pings in a row |
| ResolverService.CountsAreTrailing | src/nix/module/builtin/service/resolver.cxx:235-240 | over every run the failure count of a node is the number of unanswered pings at the end of its history |
| ResolverService.RunRefines | src/nix/module/builtin/service/resolver.cxx:97-307 | over every run the maps are what the history says, and every node listed under a service is a key of the node map |
| ResolverService.ResolveServiceIsReference | src/nix/module/builtin/service/resolver.cxx:164-188 | lists, in ascending order, exactly the non-empty current addresses of nodes whose last relevant event is a successful bind_service; fails exactly when there is no such node |
| ResolverService.ResolveIsReference | src/nix/module/builtin/service/resolver.cxx:116-131 | answers the address bound last since the last unbinding |
| ResolverService.BindServiceIffKnown | src/nix/module/builtin/service/resolver.cxx:147-148 | succeeds if and only if the node was bound, or merely asked for, since it was last unbound |
| ResolverService.BindThenResolve | src/nix/module/builtin/service/resolver.cxx:97-131 | bind succeeds if and only if name and address are not empty, and resolve then answers the address |
| ResolverService.UnbindThenGone | src/nix/module/builtin/service/resolver.cxx:133-204 | unbind always succeeds and the node is unknown after it; unbind_service succeeds for non-empty names and the node does not serve after it |
| ResolverService.EnteredIff | src/nix/module/builtin/service/resolver.cxx:143-204 | over every run the service map's keys are the services asked for, bound or unbound, and none is taken out |
| ResolverService.AskedForIsBindable | src/nix/module/builtin/service/resolver.cxx:116-162 | a node that was only asked for can be bound to a service, which then resolves to no address |
| ResolverService.MonitorUnbindsIff | src/nix/module/builtin/service/resolver.cxx:229-247 | the monitor unbinds a node exactly at the ping completing max_failures unanswered ones in a row |
| ResolverService.OftenAnsweringStays | src/nix/module/builtin/service/resolver.cxx:229-247 | over any run: a node known at some point, never unbound by a request after it and answering one of every max_failures consecutive pings, is known at the end |
| CacheService.Cache.StoreValue | src/nix/module/builtin/service/cache.cxx:78-110 | stores under a non-empty key with the given or the default age limit, and counts |
| CacheService.Cache.RetrieveValue | src/nix/module/builtin/service/cache.cxx:112-155 | hit, expired hit (which drops the entry) or miss, and counts |
| CacheService.Cache.RemoveKey | src/nix/module/builtin/service/cache.cxx:157-169 | removes the key, and counts |
| CacheService.Cache.CleanerPass | src/nix/module/builtin/service/cache.cxx:216-224 | drops exactly the expired entries and reports how many |
| CacheService.HeldIff | src/nix/module/builtin/service/cache.cxx:78-223 | over every run, with any clock: the cache holds exactly the last store of each key that no remove has followed and that no cleaner pass or retrieve saw expired, with its time, age limit and content |
| CacheService.RetrieveIsAnswerIff | src/nix/module/builtin/service/cache.cxx:112-155 | with any clock: retrieve differs from the answer of the history (the last store not followed by a remove and younger than its age limit) if and only if the history has a value whose expiry was seen earlier |
| CacheService.ExpiryStays | src/nix/module/builtin/service/cache.cxx:23-28 | with a clock that does not go back a store once seen expired stays expired |
| CacheService.RetrieveIsAnswer | src/nix/module/builtin/service/cache.cxx:112-155 | so with such a clock every retrieve answers as the history |
| CacheService.RetrieveInNumbers | src/nix/module/builtin/service/cache.cxx:23-28 | with such a clock retrieve gives a value if and only if the last store stored it less than its max_age, or 300 seconds, ago; and null otherwise |
| CacheService.OtherReplies | src/nix/module/builtin/service/cache.cxx:87-108 | store fails exactly for an empty key; remove always succeeds |
| CacheService.CleanerIsTransparentIff | src/nix/module/builtin/service/cache.cxx:210-223 | with any clock: dropping all cleaner passes changes an answer if and only if only a cleaner pass saw the expiry of a value the history still has |
| CacheService.CleanerIsTransparent | src/nix/module/builtin/service/cache.cxx:210-223 | with a clock that does not go back dropping all cleaner passes changes no answer |
| CacheService.ClockSetBack | src/nix/module/builtin/service/cache.cxx:23-28 | an input, with the clock set back, for which both fail |
| CacheService.CountersAccount | src/nix/module/builtin/service/cache.cxx:190-194 | over every run, with any clock, the six counters sum to the number of store, retrieve and remove calls |
| CacheService.WritesAndRemovals | src/nix/module/builtin/service/cache.cxx:87-168 | which requests the write, failed-write and removal counters count |
| CacheService.ExpiredAndMissed | src/nix/module/builtin/service/cache.cxx:126-146 | with any clock: the expired hits are the retrieves that first saw an expiry, the misses those of keys without a store or with an expiry seen before |
| CacheService.HitsAreServed | src/nix/module/builtin/service/cache.cxx:122-153 | with any clock the hits are the retrieves of a value the history has and whose expiry was not seen |
| CacheService.HitsAreAnswered | src/nix/module/builtin/service/cache.cxx:122-153 | with a clock that does not go back they are all the retrieves the history answers |
| CacheService.ReplyCarriesContent | src/nix/module/builtin/service/cache.cxx:149-151 | a reply holds the content at the key read as a path |

## Left out

- ParametersClass.Parameters.DoDeserialize: the interpreter's recursion limit is the parameter `depth`, counted for nested collections only. The round trip holds for any depth that covers the collection; `ReaderDepth.NeverEndsIff` says what a larger depth changes on arbitrary bytes.
- ParametersClass.Serialize: a collection nested in another is a value, so aliasing, cycles and the writer's recursion limit are not modelled; of a failed write only the error is stated, since the partial buffer is discarded.
- ParametersClass.Parameters.SetItem: type checks of Python values (heterogeneous lists, unsupported types) are absorbed by the value datatype; only the empty sequence remains an error.
- Utf8.Decode: Python strings with lone surrogates are not modelled.
- Floats are their 64-bit patterns; packing and unpacking of the number itself is taken as exact.
- MessageClass.Message.Set: the pointer is the path walked so far; a path without any token is excluded for set and remove, where the source steps before the first key.
- MessageClass.Message.Get: the conversions between JSON types are a parameter, and JSON text is not modelled; jsoncpp's implementation is not part of this model.
- HitCounters.RegisteredHitCounters.ValidateEveryN: only the every-N check; validateAfterN and validateNTimes are not modelled.
- ConfigurationsModel.TypedMap.BuildFrom: one configuration type at a time; the file name pass, log formats and the to-file map, which file errors change, are left out.
- ResolverService.Resolver.PingNodes: no request is handled between the pings of one pass; the lemmas over runs cover such requests.
- ResolverService.Resolver.PingServices: the same.
- ResolverService.Resolver.MonitorPass: no request is handled during a pass; requests between single pings are covered by the lemmas over runs. Which nodes answer is a parameter, and the sleep between passes is left out.
- BoundedQueue.Queue.PopFront: a pop that would block is the outcome MustWait and leaves the state alone; wake-ups are not modelled, nor are time-outs, which no caller passes.
- JobQueueService.JobQueue.SubmitJob: the job carries the id the constructor gave it; whether the hand-over to a waiting worker succeeds is a parameter; job ids from the random generator are assumed new only where a lemma says so.
- JobQueueService.JobQueue.AcceptResult: creation time and origin of jobs are not modelled.
- CacheService.Cache.CleanerPass: the intended effect of a pass; the source erases from the map it is iterating over.
- CacheService.Cache.RetrieveValue: the two critical sections are one step; a reply for a key without any path token is not modelled.
- Threads, locks, agents, sockets, options, routing, authentication, logging output, date formatting, object pools and the status reports are not modelled.
