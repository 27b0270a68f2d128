/** The value model of a YAMI Parameters object: an ordered table of named slots, some of them empty,
    with an index from names to slots. */
module SlotTable {
  import opened ByteCodec

  /** A Python float, as its IEEE 754 bit pattern. */
  type Float64 = n: nat | n < 0x1_0000_0000_0000_0000

  /** The fourteen accepted value types. Python integers are unbounded. */
  datatype Value =
    | Bool(b: bool) | Int(i: int) | Long(l: int) | Float(f: Float64) | Str(s: string) | Blob(bs: bytes)
    | Bools(bools: seq<bool>) | Ints(ints: seq<int>) | Longs(longs: seq<int>) | Floats(floats: seq<Float64>)
    | Strs(strs: seq<string>) | Blobs(blobs: seq<bytes>)
    | Nested(params: Collection) | NestedList(list: seq<Collection>)

  datatype Entry = Entry(name: string, value: Value)

  datatype Slot = Hole | Used(entry: Entry)

  datatype Collection = Collection(slots: seq<Slot>, index: map<string, nat>)

  const EMPTY := Collection([], map[])

  /** The sequences __validate_value refuses: no element to take a type from. */
  predicate IsEmptyArray(v: Value) {
    match v
    case Bools(xs) => xs == []
    case Ints(xs) => xs == []
    case Longs(xs) => xs == []
    case Floats(xs) => xs == []
    case Strs(xs) => xs == []
    case Blobs(xs) => xs == []
    case NestedList(xs) => xs == []
    case _ => false
  }

  /** They are the seven empty lists. */
  lemma EmptyArrays(v: Value)
    ensures IsEmptyArray(v) <==> v == Bools([]) || v == Ints([]) || v == Longs([]) || v == Floats([])
                                 || v == Strs([]) || v == Blobs([]) || v == NestedList([])
  {
  }

  predicate IsUsed(slots: seq<Slot>, i: nat, name: string) {
    i < |slots| && slots[i].Used? && slots[i].entry.name == name
  }

  /** The index is exactly the one-to-one map from names to non-empty slots. */
  ghost predicate Consistent(c: Collection) {
    && (forall name :: name in c.index ==> IsUsed(c.slots, c.index[name], name))
    && (forall i, name :: IsUsed(c.slots, i, name) ==> name in c.index && c.index[name] == i)
  }

  /** The map a collection stands for. */
  function Contents(c: Collection): (m: map<string, Value>)
    requires Consistent(c)
    ensures m.Keys == c.index.Keys
  {
    map name | name in c.index :: c.slots[c.index[name]].entry.value
  }

  /** self.__entries.index(None), or the length if there is no empty slot. */
  function FirstHole(slots: seq<Slot>): (i: nat)
    ensures i <= |slots|
    ensures i < |slots| ==> slots[i].Hole?
    ensures forall j | 0 <= j < i :: slots[j].Used?
  {
    if slots == [] || slots[0].Hole? then 0 else 1 + FirstHole(slots[1..])
  }

  function Place(slots: seq<Slot>, i: nat, e: Entry): (r: seq<Slot>)
    requires i <= |slots|
  {
    if i < |slots| then slots[i := Used(e)] else slots + [Used(e)]
  }

  function SetItem(c: Collection, e: Entry): Collection
    requires Consistent(c)
  {
    if e.name in c.index then
      c.(slots := Place(c.slots, c.index[e.name], e))
    else
      var i := FirstHole(c.slots);
      Collection(Place(c.slots, i, e), c.index[e.name := i])
  }

  function DelItem(c: Collection, name: string): Collection
    requires Consistent(c) && name in c.index
  {
    Collection(c.slots[c.index[name] := Hole], c.index - {name})
  }

  /** Setting an item keeps the index exact and is a map update. */
  lemma SetItemRefines(c: Collection, e: Entry)
    requires Consistent(c)
    ensures Consistent(SetItem(c, e))
    ensures Contents(SetItem(c, e)) == Contents(c)[e.name := e.value]
  {
    var c' := SetItem(c, e);
    var i := if e.name in c.index then c.index[e.name] else FirstHole(c.slots);
    forall j: nat, name
      ensures IsUsed(c'.slots, j, name) <==> if j == i then name == e.name else IsUsed(c.slots, j, name) {}
    forall name | name in c.index && name != e.name ensures c.index[name] != i {
      assert IsUsed(c.slots, c.index[name], name);
    }
  }

  lemma DelItemRefines(c: Collection, name: string)
    requires Consistent(c) && name in c.index
    ensures Consistent(DelItem(c, name))
    ensures Contents(DelItem(c, name)) == Contents(c) - {name}
  {
    var c' := DelItem(c, name);
    var i := c.index[name];
    assert IsUsed(c.slots, i, name);
    forall j: nat, other ensures IsUsed(c'.slots, j, other) <==> j != i && IsUsed(c.slots, j, other) {}
    forall other | other in c.index && other != name ensures c.index[other] != i {
      assert IsUsed(c.slots, c.index[other], other);
    }
  }

  /** Deleting leaves a hole where the entry was and every other slot as it is. */
  lemma DelItemLeavesHole(c: Collection, name: string)
    requires Consistent(c) && name in c.index
    ensures |DelItem(c, name).slots| == |c.slots|
    ensures forall i | 0 <= i < |c.slots| ::
              DelItem(c, name).slots[i]
              == if c.slots[i].Used? && c.slots[i].entry.name == name then Hole else c.slots[i]
  {
    forall i | 0 <= i < |c.slots| && c.slots[i].Used? && c.slots[i].entry.name == name ensures i == c.index[name] {
      assert IsUsed(c.slots, i, name);
    }
    assert IsUsed(c.slots, c.index[name], name);
  }

  // ----- iteration -----

  /** What the items() iterator visits: the entries of the used slots, in slot order. */
  function Items(slots: seq<Slot>): (r: seq<Entry>)
    ensures |r| <= |slots|
    ensures |r| == |slots| <==> forall i | 0 <= i < |slots| :: slots[i].Used?
  {
    if slots == [] then []
    else if slots[0].Used? then [slots[0].entry] + Items(slots[1..])
    else Items(slots[1..])
  }

  function Names(items: seq<Entry>): (r: set<string>) {
    set i | 0 <= i < |items| :: items[i].name
  }

  predicate DistinctNames(items: seq<Entry>) {
    forall i, j | 0 <= i < j < |items| :: items[i].name != items[j].name
  }

  ghost predicate DistinctSlots(slots: seq<Slot>) {
    forall i, j, name :: IsUsed(slots, i, name) && IsUsed(slots, j, name) ==> i == j
  }

  lemma {:induction false} ItemsOfSlots(slots: seq<Slot>)
    requires DistinctSlots(slots)
    ensures DistinctNames(Items(slots))
    ensures forall name :: name in Names(Items(slots)) <==> exists i :: IsUsed(slots, i, name)
  {
    if slots != [] {
      var rest := slots[1..];
      assert forall i: nat, name :: IsUsed(rest, i, name) <==> IsUsed(slots, i + 1, name);
      ItemsOfSlots(rest);
      var items := Items(slots);
      if slots[0].Used? {
        var name0 := slots[0].entry.name;
        assert IsUsed(slots, 0, name0);
        assert items[1..] == Items(rest);
        assert Names(items) == {name0} + Names(Items(rest)) by {
          forall name | name in Names(Items(rest)) ensures name in Names(items) {
            var i :| 0 <= i < |Items(rest)| && Items(rest)[i].name == name;
            assert items[i + 1].name == name;
          }
          assert items[0].name == name0;
        }
        forall i | 0 < i < |items| ensures items[i].name != name0 {
          assert items[i] == Items(rest)[i - 1];
          assert items[i].name in Names(Items(rest));
        }
      }
      forall name ensures name in Names(items) <==> exists i :: IsUsed(slots, i, name) {
        forall i: nat | i > 0 && IsUsed(slots, i, name) ensures IsUsed(rest, i - 1, name) {}
        forall i: nat | IsUsed(rest, i, name) ensures IsUsed(slots, i + 1, name) {}
      }
    }
  }

  lemma {:induction false} DistinctNamesCount(items: seq<Entry>)
    requires DistinctNames(items)
    ensures |Names(items)| == |items|
  {
    if items != [] {
      var n := |items| - 1;
      DistinctNamesCount(items[..n]);
      assert Names(items) == Names(items[..n]) + {items[n].name};
    }
  }

  /** The iterator yields exactly len(p) entries, so the count serialize() writes first is the number of
      entries that follow it. */
  lemma CountIsItems(c: Collection)
    requires Consistent(c)
    ensures |Items(c.slots)| == |c.index|
    ensures DistinctNames(Items(c.slots))
  {
    ItemsOfSlots(c.slots);
    DistinctNamesCount(Items(c.slots));
    assert Names(Items(c.slots)) == c.index.Keys;
  }

  // ----- runs -----

  datatype Op = Set(entry: Entry) | Delete(name: string)

  /** One call on a collection. A call that raises (TypeError, KeyError) changes nothing. */
  function Step(c: Collection, op: Op): Collection
    requires Consistent(c)
  {
    match op
    case Set(e) => if IsEmptyArray(e.value) then c else SetItem(c, e)
    case Delete(name) => if name in c.index then DelItem(c, name) else c
  }

  /** The plain map after the same calls. */
  function Live(ops: seq<Op>): map<string, Value> {
    if ops == [] then map[]
    else
      var m := Live(ops[..|ops| - 1]);
      match ops[|ops| - 1]
      case Set(e) => if IsEmptyArray(e.value) then m else m[e.name := e.value]
      case Delete(name) => m - {name}
  }

  /** The largest number of entries ever live at once. */
  function Peak(ops: seq<Op>): nat {
    if ops == [] then 0
    else
      var p := Peak(ops[..|ops| - 1]);
      if |Live(ops)| > p then |Live(ops)| else p
  }

  function Run(ops: seq<Op>): (c: Collection)
    ensures Consistent(c)
  {
    if ops == [] then EMPTY
    else
      var c := Run(ops[..|ops| - 1]);
      assert Consistent(Step(c, ops[|ops| - 1])) by { StepRefines(c, ops[|ops| - 1]); }
      Step(c, ops[|ops| - 1])
  }

  /** A call that raises changes nothing. */
  lemma RefusedChangesNothing(c: Collection, op: Op)
    requires Consistent(c)
    requires (op.Set? && IsEmptyArray(op.entry.value)) || (op.Delete? && op.name !in c.index)
    ensures Step(c, op) == c
  {
  }

  lemma StepRefines(c: Collection, op: Op)
    requires Consistent(c)
    ensures Consistent(Step(c, op))
    ensures op.Set? && !IsEmptyArray(op.entry.value) ==>
              Contents(Step(c, op)) == Contents(c)[op.entry.name := op.entry.value]
    ensures op.Delete? ==> Contents(Step(c, op)) == Contents(c) - {op.name}
  {
    match op
    case Set(e) => SetItemRefines(c, e);
    case Delete(name) => if name in c.index { DelItemRefines(c, name); }
  }

  /** Over every run the table is the map, and its length is the largest number of entries ever live at once. */
  lemma {:induction false} RunRefines(ops: seq<Op>)
    ensures Contents(Run(ops)) == Live(ops)
    ensures |Run(ops).slots| == Peak(ops)
  {
    if ops != [] {
      var before := ops[..|ops| - 1];
      var op := ops[|ops| - 1];
      RunRefines(before);
      StepRefines(Run(before), op);
      LiveCount(Run(before));
      LiveCount(Run(ops));
    }
  }

  lemma LiveCount(c: Collection)
    requires Consistent(c)
    ensures |Contents(c)| == |c.index| <= |c.slots|
    ensures FirstHole(c.slots) == |c.slots| <==> |c.index| == |c.slots|
  {
    CountIsItems(c);
    assert |Contents(c).Keys| == |c.index.Keys|;
  }

  // ----- merging -----

  /** Inserting entries one by one. */
  function InsertAll(c: Collection, items: seq<Entry>): (r: Collection)
    requires Consistent(c)
    ensures Consistent(r)
    decreases |items|
  {
    if items == [] then c
    else
      var n := |items| - 1;
      var c' := InsertAll(c, items[..n]);
      assert Consistent(SetItem(c', items[n])) by { SetItemRefines(c', items[n]); }
      SetItem(c', items[n])
  }

  /** The empty slots, lowest first. */
  function Holes(slots: seq<Slot>): (r: seq<nat>)
    ensures forall k | 0 <= k < |r| :: r[k] < |slots| && slots[r[k]].Hole?
    ensures forall j, k | 0 <= j < k < |r| :: r[j] < r[k]
    ensures forall i | 0 <= i < |slots| && slots[i].Hole? :: i in r
  {
    if slots == [] then []
    else
      var n := |slots| - 1;
      Holes(slots[..n]) + if slots[n].Hole? then [n] else []
  }

  /** Where the k-th new name of a merge goes: the lowest holes first, then past the end. */
  function Target(slots: seq<Slot>, k: nat): nat {
    if k < |Holes(slots)| then Holes(slots)[k] else |slots| + (k - |Holes(slots)|)
  }

  /** The names of the entries that p does not have, each once, in the order of their first entries. */
  function Added(p: Collection, items: seq<Entry>): (r: seq<string>)
    ensures forall name :: name in r <==> name in Names(items) && name !in p.index
    ensures forall j, k | 0 <= j < k < |r| :: r[j] != r[k]
  {
    if items == [] then []
    else
      var n := |items| - 1;
      var before := Added(p, items[..n]);
      assert Names(items) == Names(items[..n]) + {items[n].name};
      if items[n].name in p.index || items[n].name in before then before else before + [items[n].name]
  }

  /** The last value given to each name. */
  function ItemMap(items: seq<Entry>): (m: map<string, Value>)
    ensures m.Keys == Names(items)
  {
    if items == [] then map[]
    else
      var n := |items| - 1;
      assert Names(items) == Names(items[..n]) + {items[n].name};
      ItemMap(items[..n])[items[n].name := items[n].value]
  }

  /** The slots p's own names keep, and their values after the merge. */
  ghost predicate KeepsOld(p: Collection, m: map<string, Value>, r: Collection)
    requires Consistent(p)
  {
    forall name :: name in p.index ==>
      var i := p.index[name];
      i < |r.slots| && r.slots[i] == Used(Entry(name, if name in m then m[name] else Contents(p)[name]))
  }

  /** The slots of the new names; the holes left over stay empty. */
  ghost predicate FillsNew(p: Collection, added: seq<string>, m: map<string, Value>, r: Collection) {
    && |r.slots| == |p.slots| + (if |added| > |Holes(p.slots)| then |added| - |Holes(p.slots)| else 0)
    && (forall k: nat :: k < |added| ==>
          Target(p.slots, k) < |r.slots| && HasValue(r.slots[Target(p.slots, k)], added[k], m))
    && (forall k: nat :: |added| <= k < |Holes(p.slots)| ==> r.slots[Holes(p.slots)[k]].Hole?)
  }

  predicate HasValue(slot: Slot, name: string, m: map<string, Value>) {
    name in m && slot == Used(Entry(name, m[name]))
  }

  /** Every slot of a merged table: old names keep their slot, new names fill the lowest holes in order and
      then extend the end; a name that comes up again keeps its slot and takes the last value. */
  lemma {:induction false} MergeLayout(p: Collection, items: seq<Entry>)
    requires Consistent(p)
    ensures Contents(InsertAll(p, items)) == Contents(p) + ItemMap(items)
    ensures KeepsOld(p, ItemMap(items), InsertAll(p, items))
    ensures FillsNew(p, Added(p, items), ItemMap(items), InsertAll(p, items))
    decreases |items|
  {
    hide KeepsOld, FillsNew, Added, ItemMap, SetItem, Consistent, Contents;
    if items == [] {
      MergeNothing(p);
    } else {
      var n := |items| - 1;
      MergeLayout(p, items[..n]);
      MergeItem(p, items);
      MergeContents(p, ItemMap(items[..n]), InsertAll(p, items[..n]), items[n]);
      MergeStep(p, Added(p, items[..n]), ItemMap(items[..n]), InsertAll(p, items[..n]), items[n]);
    }
  }

  lemma MergeNothing(p: Collection)
    requires Consistent(p)
    ensures Added(p, []) == [] && ItemMap([]) == map[] && Contents(p) + map[] == Contents(p)
    ensures KeepsOld(p, map[], p) && FillsNew(p, [], map[], p)
  {
    forall name | name in p.index ensures IsUsed(p.slots, p.index[name], name) {}
  }

  lemma MergeItem(p: Collection, items: seq<Entry>)
    requires items != []
    ensures var before, e := items[..|items| - 1], items[|items| - 1];
            && ItemMap(items) == ItemMap(before)[e.name := e.value]
            && Added(p, items) == WithName(p, Added(p, before), e.name)
            && (forall name :: name in Added(p, before) <==> name in ItemMap(before) && name !in p.index)
  {
  }

  function WithName(p: Collection, added: seq<string>, name: string): seq<string> {
    if name in p.index || name in added then added else added + [name]
  }

  lemma LastIsNew(items: seq<Entry>)
    requires items != [] && DistinctNames(items)
    ensures items[|items| - 1].name !in Names(items[..|items| - 1])
  {
  }

  lemma UpdateOfUnion(a: map<string, Value>, b: map<string, Value>, e: Entry)
    ensures (a + b)[e.name := e.value] == a + b[e.name := e.value]
    ensures (a + b).Keys == a.Keys + b.Keys
  {
  }

  lemma MergeContents(p: Collection, m: map<string, Value>, c: Collection, e: Entry)
    requires Consistent(p) && Consistent(c) && Contents(c) == Contents(p) + m
    ensures Consistent(SetItem(c, e))
    ensures Contents(SetItem(c, e)) == Contents(p) + m[e.name := e.value]
    ensures c.index.Keys == p.index.Keys + m.Keys
  {
    SetItemRefines(c, e);
    UpdateOfUnion(Contents(p), m, e);
  }

  lemma MergeStep(p: Collection, added: seq<string>, m: map<string, Value>, c: Collection, e: Entry)
    requires Consistent(p) && Consistent(c) && Contents(c) == Contents(p) + m
    requires forall name :: name in added <==> name in m && name !in p.index
    requires forall j, k | 0 <= j < k < |added| :: added[j] != added[k]
    requires KeepsOld(p, m, c) && FillsNew(p, added, m, c)
    ensures KeepsOld(p, m[e.name := e.value], SetItem(c, e))
    ensures FillsNew(p, WithName(p, added, e.name), m[e.name := e.value], SetItem(c, e))
  {
    hide KeepsOld, FillsNew, Consistent, SetItem, Contents;
    MergeContents(p, m, c, e);
    if e.name in p.index {
      MergeOld(p, added, m, c, e);
    } else if e.name in added {
      MergeAgain(p, added, m, c, e);
    } else {
      MergeNew(p, added, m, c, e);
    }
  }

  lemma MergeOld(p: Collection, added: seq<string>, m: map<string, Value>, c: Collection, e: Entry)
    requires Consistent(p) && Consistent(c) && e.name in p.index && e.name !in added
    requires KeepsOld(p, m, c) && FillsNew(p, added, m, c)
    ensures KeepsOld(p, m[e.name := e.value], SetItem(c, e))
    ensures FillsNew(p, added, m[e.name := e.value], SetItem(c, e))
  {
    hide Contents, Holes;
    var i := p.index[e.name];
    assert IsUsed(p.slots, i, e.name);
    assert IsUsed(c.slots, i, e.name);
    forall name | name in p.index && name != e.name ensures p.index[name] != i {
      assert IsUsed(p.slots, p.index[name], name);
    }
    forall k: nat | k < |added| ensures Target(p.slots, k) != i {}
  }

  /** A name that an earlier entry added. */
  lemma MergeAgain(p: Collection, added: seq<string>, m: map<string, Value>, c: Collection, e: Entry)
    requires Consistent(p) && Consistent(c) && e.name !in p.index && e.name in added
    requires forall j, k | 0 <= j < k < |added| :: added[j] != added[k]
    requires KeepsOld(p, m, c) && FillsNew(p, added, m, c)
    ensures KeepsOld(p, m[e.name := e.value], SetItem(c, e))
    ensures FillsNew(p, added, m[e.name := e.value], SetItem(c, e))
  {
    hide Contents, Holes;
    var k: nat :| k < |added| && added[k] == e.name;
    var i := Target(p.slots, k);
    assert IsUsed(c.slots, i, e.name);
    forall name | name in p.index ensures p.index[name] != i {
      assert IsUsed(p.slots, p.index[name], name);
    }
    forall j: nat | j < |added| && j != k ensures Target(p.slots, j) != i && added[j] != e.name {
      TargetInjective(p.slots, if j < k then j else k, if j < k then k else j);
    }
    forall j: nat | |added| <= j < |Holes(p.slots)| ensures Holes(p.slots)[j] != i {
      TargetInjective(p.slots, k, j);
    }
  }

  lemma MergeNew(p: Collection, added: seq<string>, m: map<string, Value>, c: Collection, e: Entry)
    requires Consistent(p) && Consistent(c) && e.name !in p.index && e.name !in c.index && e.name !in added
    requires KeepsOld(p, m, c) && FillsNew(p, added, m, c)
    ensures KeepsOld(p, m[e.name := e.value], SetItem(c, e))
    ensures FillsNew(p, added + [e.name], m[e.name := e.value], SetItem(c, e))
  {
    hide Contents, Holes;
    var i := Target(p.slots, |added|);
    NextHole(p, added, m, c);
    forall name | name in p.index ensures p.index[name] != i {
      assert IsUsed(p.slots, p.index[name], name);
    }
    PlaceFills(p, added, m, c, e, SetItem(c, e));
  }

  lemma TargetInjective(slots: seq<Slot>, j: nat, k: nat)
    requires j < k
    ensures Target(slots, j) != Target(slots, k)
  {
  }

  lemma PlaceFills(p: Collection, added: seq<string>, m: map<string, Value>, c: Collection, e: Entry, c': Collection)
    requires FillsNew(p, added, m, c) && Target(p.slots, |added|) <= |c.slots| && e.name !in added
    requires c'.slots == Place(c.slots, Target(p.slots, |added|), e)
    ensures FillsNew(p, added + [e.name], m[e.name := e.value], c')
  {
    var all, m' := added + [e.name], m[e.name := e.value];
    forall k: nat | k < |all|
      ensures Target(p.slots, k) < |c'.slots| && HasValue(c'.slots[Target(p.slots, k)], all[k], m')
    {
      if k < |added| { TargetInjective(p.slots, k, |added|); }
    }
    forall k: nat | |added| < k < |Holes(p.slots)| ensures c'.slots[Holes(p.slots)[k]].Hole? {
      TargetInjective(p.slots, |added|, k);
    }
  }

  /** The lowest hole of the table so far is where the next new name belongs. */
  lemma NextHole(p: Collection, added: seq<string>, m: map<string, Value>, c: Collection)
    requires Consistent(p) && KeepsOld(p, m, c) && FillsNew(p, added, m, c)
    ensures FirstHole(c.slots) == Target(p.slots, |added|)
  {
    var t := Target(p.slots, |added|);
    var h := Holes(p.slots);
    forall j: nat | j < t && j < |c.slots| ensures c.slots[j].Used? {
      if j < |p.slots| && p.slots[j].Hole? {
        var k: nat :| k < |h| && h[k] == j;
        assert k < |added|;
        assert Target(p.slots, k) == j;
      } else if j < |p.slots| {
        assert IsUsed(p.slots, j, p.slots[j].entry.name);
      } else {
        var k := |h| + (j - |p.slots|);
        assert Target(p.slots, k) == j;
      }
    }
  }
}
