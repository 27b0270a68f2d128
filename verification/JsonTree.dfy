/** JSON values as jsoncpp holds them, and the path operations of Message on values. */
module JsonTree {
  import opened Outcomes

  datatype Json =
    | Null | Bool(b: bool) | Int(i: int) | Real(r: real) | Str(s: string)
    | Array(elems: seq<Json>)
    | Object(members: map<string, Json>)

  /** LogicError: jsoncpp's member access on a value that is neither object nor null. */
  datatype Throw = LogicError | NotAnArray

  type Path = seq<string>

  predicate IsContainer(j: Json) { j.Object? || j.Null? }

  function Members(j: Json): map<string, Json> {
    if j.Object? then j.members else map[]
  }

  const EMPTY_OBJECT := Object(map[])

  /** Value::empty() */
  predicate IsEmpty(j: Json) {
    j.Null? || (j.Array? && j.elems == []) || (j.Object? && j.members == map[])
  }

  // ----- reading -----

  function Lookup(j: Json, path: Path): Option<Json> {
    if path == [] then Some(j)
    else if j.Object? && path[0] in j.members then Lookup(j.members[path[0]], path[1..])
    else None
  }

  /** Message::find: an array at the root has no paths at all. */
  function Find(root: Json, path: Path): Option<Json> {
    if root.Array? then None else Lookup(root, path)
  }

  // ----- writing -----

  /** The tree after set(): missing objects on the way are created. */
  function Put(j: Json, path: Path, v: Json): Result<Json, Throw>
    requires path != []
    decreases path
  {
    if !IsContainer(j) then Err(LogicError)
    else if |path| == 1 then Ok(Object(Members(j)[path[0] := v]))
    else
      var child :- Put(Child(j, path[0]), path[1..], v);
      Ok(Object(Members(j)[path[0] := child]))
  }

  /** The member, or the empty object that takes its place. */
  function Child(j: Json, key: string): Json {
    if key in Members(j) then Members(j)[key] else EMPTY_OBJECT
  }

  function AppendAt(j: Json, path: Path, v: Json): Result<Json, Throw>
    decreases path
  {
    if path == [] then
      if IsEmpty(j) then Ok(Array([v]))
      else if j.Array? then Ok(Array(j.elems + [v]))
      else Err(NotAnArray)
    else if !IsContainer(j) then Err(LogicError)
    else
      var child :- AppendAt(Child(j, path[0]), path[1..], v);
      Ok(Object(Members(j)[path[0] := child]))
  }

  /** The tree after remove(), which also creates the missing objects on the way. */
  function RemoveAt(j: Json, path: Path): Result<Json, Throw>
    requires path != []
    decreases path
  {
    if !IsContainer(j) then Err(LogicError)
    else if |path| == 1 then Ok(if j.Null? then Null else Object(j.members - {path[0]}))
    else
      var child :- RemoveAt(Child(j, path[0]), path[1..]);
      Ok(Object(Members(j)[path[0] := child]))
  }

  /** set_meta() */
  function PutMember(j: Json, key: string, v: Json): Result<Json, Throw> {
    if IsContainer(j) then Ok(Object(Members(j)[key := v])) else Err(LogicError)
  }

  // ----- walking a pointer -----

  /** The tree with the node at the pointer replaced. */
  function Replace(j: Json, path: Path, node: Json): Json
    requires Lookup(j, path).Some?
  {
    if path == [] then node
    else Object(j.members[path[0] := Replace(j.members[path[0]], path[1..], node)])
  }

  lemma {:induction false} LookupConcat(j: Json, p: Path, q: Path)
    ensures Lookup(j, p + q) == if Lookup(j, p).Some? then Lookup(Lookup(j, p).value, q) else None
  {
    if p == [] {
      assert p + q == q;
    } else {
      assert (p + q)[1..] == p[1..] + q;
      if j.Object? && p[0] in j.members { LookupConcat(j.members[p[0]], p[1..], q); }
    }
  }

  lemma {:induction false} ReplaceNode(j: Json, p: Path, a: Json, b: Json)
    requires Lookup(j, p).Some?
    ensures Lookup(Replace(j, p, a), p) == Some(a)
    ensures Replace(Replace(j, p, a), p, b) == Replace(j, p, b)
    ensures Replace(j, p, Lookup(j, p).value) == j
  {
    if p != [] {
      var child := j.members[p[0]];
      ReplaceNode(child, p[1..], a, b);
      assert j.members[p[0] := child] == j.members;
      var a', b' := Replace(child, p[1..], a), Replace(child, p[1..], b);
      assert j.members[p[0] := a'][p[0] := b'] == j.members[p[0] := b'];
    }
  }

  function Within(j: Json, p: Path, r: Result<Json, Throw>): Result<Json, Throw>
    requires Lookup(j, p).Some?
  {
    if r.Err? then r else Ok(Replace(j, p, r.value))
  }

  /** Along existing members an operation acts on the node the pointer has reached. */
  lemma {:induction false} PutBelow(j: Json, p: Path, q: Path, v: Json)
    requires Lookup(j, p).Some? && q != []
    ensures Put(j, p + q, v) == Within(j, p, Put(Lookup(j, p).value, q, v))
  {
    if p == [] {
      assert p + q == q;
    } else {
      assert (p + q)[1..] == p[1..] + q && (p + q)[0] == p[0];
      PutBelow(j.members[p[0]], p[1..], q, v);
    }
  }

  lemma {:induction false} AppendBelow(j: Json, p: Path, q: Path, v: Json)
    requires Lookup(j, p).Some?
    ensures AppendAt(j, p + q, v) == Within(j, p, AppendAt(Lookup(j, p).value, q, v))
  {
    if p == [] {
      assert p + q == q;
    } else {
      assert (p + q)[1..] == p[1..] + q && (p + q)[0] == p[0];
      AppendBelow(j.members[p[0]], p[1..], q, v);
    }
  }

  lemma {:induction false} RemoveBelow(j: Json, p: Path, q: Path)
    requires Lookup(j, p).Some? && q != []
    ensures RemoveAt(j, p + q) == Within(j, p, RemoveAt(Lookup(j, p).value, q))
  {
    if p == [] {
      assert p + q == q;
    } else {
      assert (p + q)[1..] == p[1..] + q && (p + q)[0] == p[0];
      RemoveBelow(j.members[p[0]], p[1..], q);
    }
  }

  // ----- set -----

  predicate Related(a: Path, b: Path) { a <= b || b <= a }

  /** get after set: the value itself, and inside it. */
  lemma {:induction false} PutThenLookup(j: Json, path: Path, v: Json, inside: Path)
    requires path != [] && Put(j, path, v).Ok?
    ensures Find(Put(j, path, v).value, path + inside) == Lookup(v, inside)
    decreases path
  {
    var j' := Put(j, path, v).value;
    assert (path + inside)[0] == path[0] && (path + inside)[1..] == path[1..] + inside;
    if |path| == 1 {
      assert path[1..] + inside == inside;
    } else {
      var child := Child(j, path[0]);
      PutThenLookup(child, path[1..], v, inside);
    }
  }

  /** The frame: every path that is neither a prefix nor an extension of the one set is untouched. */
  lemma {:induction false} PutFrame(j: Json, path: Path, v: Json, other: Path)
    requires path != [] && Put(j, path, v).Ok? && !Related(path, other)
    ensures Find(Put(j, path, v).value, other) == Find(j, other)
    decreases path
  {
    UnrelatedTails(path, other);
    if other[0] == path[0] {
      PutFrame(Child(j, path[0]), path[1..], v, other[1..]);
    }
  }

  lemma UnrelatedTails(a: Path, b: Path)
    requires !Related(a, b)
    ensures a != [] && b != []
    ensures a[0] == b[0] ==> |a| > 1 && |b| > 1 && !Related(a[1..], b[1..])
  {
    assert [] <= a && [] <= b;
    assert a != [] ==> a == [a[0]] + a[1..];
    assert b != [] ==> b == [b[0]] + b[1..];
  }

  /** set() succeeds exactly when everything that exists on the way down is an object or null; otherwise member
      access throws. */
  lemma {:induction false} PutSucceedsIff(j: Json, path: Path, v: Json)
    requires path != []
    ensures Put(j, path, v).Ok? <==> Traversable(j, path, |path|)
    ensures Put(j, path, v).Err? ==> Put(j, path, v).error == LogicError
    decreases path
  {
    if IsContainer(j) && |path| > 1 {
      PutSucceedsIff(Child(j, path[0]), path[1..], v);
      TraversableStep(j, path, |path|);
    } else if |path| == 1 {
      assert path[..0] == [];
    } else {
      assert path[..0] == [];
    }
  }

  /** The first n nodes on the path, as far as they exist, accept member access. */
  ghost predicate Traversable(j: Json, path: Path, n: nat)
    requires n <= |path|
  {
    forall i | 0 <= i < n :: PassableAt(j, path[..i])
  }

  predicate PassableAt(j: Json, path: Path) {
    match Lookup(j, path)
    case None => true
    case Some(node) => node.Object? || node.Null?
  }

  lemma TraversableStep(j: Json, path: Path, n: nat)
    requires 1 <= n <= |path| && IsContainer(j)
    ensures Traversable(j, path, n) <==> Traversable(Child(j, path[0]), path[1..], n - 1)
  {
    forall i | 0 <= i < n - 1
      ensures PassableAt(j, path[..i + 1]) <==> PassableAt(Child(j, path[0]), path[1..][..i])
    {
      assert path[..i + 1][1..] == path[1..][..i] && path[..i + 1][0] == path[0];
    }
    assert path[..0] == [];
    if Traversable(Child(j, path[0]), path[1..], n - 1) {
      forall i | 0 <= i < n ensures PassableAt(j, path[..i]) {
        if i > 0 { assert PassableAt(Child(j, path[0]), path[1..][..i - 1]); }
      }
    }
  }

  /** Setting a path twice keeps the last value only. */
  lemma {:induction false} PutOverwrites(j: Json, path: Path, v: Json, w: Json)
    requires path != [] && Put(j, path, v).Ok?
    ensures Put(Put(j, path, v).value, path, w) == Put(j, path, w)
    decreases path
  {
    hide Put, Child;
    var child := Child(j, path[0]);
    Containers(j, path, v);
    PutStep(j, path, v);
    PutStep(j, path, w);
    PutStep(Put(j, path, v).value, path, w);
    if |path| > 1 {
      PutOverwrites(child, path[1..], v, w);
    }
    var below := Below(child, path[1..], w);
    if below.Ok? { UpdateTwice(Members(j), path[0], Below(child, path[1..], v).value, below.value); }
  }

  /** Setting unrelated paths commutes, so a document does not depend on the order of its updates. */
  lemma {:induction false} PutsCommute(j: Json, a: Path, v: Json, b: Path, w: Json)
    requires !Related(a, b) && a != [] && b != [] && Put(j, a, v).Ok? && Put(j, b, w).Ok?
    ensures Put(Put(j, a, v).value, b, w).Ok?
    ensures Put(Put(j, a, v).value, b, w) == Put(Put(j, b, w).value, a, v)
    decreases a
  {
    hide Put, Child, Related;
    UnrelatedTails(a, b);
    Containers(j, a, v);
    PutStep(j, a, v);
    PutStep(j, b, w);
    PutStep(Put(j, a, v).value, b, w);
    PutStep(Put(j, b, w).value, a, v);
    if a[0] == b[0] {
      var child := Child(j, a[0]);
      PutsCommute(child, a[1..], v, b[1..], w);
      var ca, cb := Put(child, a[1..], v).value, Put(child, b[1..], w).value;
      UpdateTwice(Members(j), a[0], ca, Put(ca, b[1..], w).value);
      UpdateTwice(Members(j), a[0], cb, Put(ca, b[1..], w).value);
    } else {
      CommuteMembers(Members(j), a[0], Below(Child(j, a[0]), a[1..], v).value,
                     b[0], Below(Child(j, b[0]), b[1..], w).value);
    }
  }

  lemma Containers(j: Json, path: Path, v: Json)
    requires path != [] && Put(j, path, v).Ok?
    ensures IsContainer(j)
  {
  }

  lemma UpdateTwice(m: map<string, Json>, k: string, x: Json, y: Json)
    ensures m[k := x][k := y] == m[k := y]
  {
  }

  lemma CommuteMembers(m: map<string, Json>, k: string, x: Json, l: string, y: Json)
    requires k != l
    ensures m[k := x][l := y] == m[l := y][k := x]
  {
  }

  /** What Put does below the first key. */
  function Below(child: Json, rest: Path, v: Json): Result<Json, Throw> {
    if rest == [] then Ok(v) else Put(child, rest, v)
  }

  lemma PutStep(j: Json, path: Path, v: Json)
    requires path != [] && IsContainer(j)
    ensures var below := Below(Child(j, path[0]), path[1..], v);
            var r := Put(j, path, v);
            && r.Ok? == below.Ok?
            && (r.Err? ==> r == Err(LogicError))
            && (r.Ok? ==> r == Ok(Object(Members(j)[path[0] := below.value])))
            && (r.Ok? ==> Child(r.value, path[0]) == below.value)
            && (r.Ok? ==> forall k | k != path[0] :: Child(r.value, k) == Child(j, k))
  {
    PutError(j, path, v);
  }

  lemma {:induction false} PutError(j: Json, path: Path, v: Json)
    requires path != []
    ensures Put(j, path, v).Err? ==> Put(j, path, v) == Err(LogicError)
    decreases path
  {
    if |path| > 1 { PutError(Child(j, path[0]), path[1..], v); }
  }

  // ----- append -----

  function AppendAll(j: Json, path: Path, vs: seq<Json>): Result<Json, Throw> {
    if vs == [] then Ok(j)
    else
      var before :- AppendAll(j, path, vs[..|vs| - 1]);
      AppendAt(before, path, vs[|vs| - 1])
  }

  /** The elements an append at the path starts from. */
  function OldElems(j: Json, path: Path): seq<Json> {
    match Lookup(j, path)
    case Some(Array(elems)) => elems
    case _ => []
  }

  lemma {:induction false} AppendThenLookup(j: Json, path: Path, v: Json)
    requires AppendAt(j, path, v).Ok?
    ensures Lookup(AppendAt(j, path, v).value, path) == Some(Array(OldElems(j, path) + [v]))
    decreases path
  {
    if path == [] {
      assert [] + [v] == [v];
    } else {
      var child := Child(j, path[0]);
      AppendThenLookup(child, path[1..], v);
      if path[0] !in Members(j) { EmptyHasNoElems(path[1..]); }
      assert OldElems(j, path) == OldElems(child, path[1..]);
    }
  }

  lemma EmptyHasNoElems(path: Path)
    ensures OldElems(EMPTY_OBJECT, path) == []
  {
  }

  lemma {:induction false} AppendFrame(j: Json, path: Path, v: Json, other: Path)
    requires AppendAt(j, path, v).Ok? && !Related(path, other)
    ensures Find(AppendAt(j, path, v).value, other) == Find(j, other)
    decreases path
  {
    UnrelatedTails(path, other);
    if other[0] == path[0] {
      var child := Child(j, path[0]);
      AppendFrame(child, path[1..], v, other[1..]);
      assert other[1..] != [] by { assert [] <= path[1..]; }
      LookupNotFind(AppendAt(child, path[1..], v).value, other[1..]);
      LookupNotFind(child, other[1..]);
    }
  }

  /** Below the root, find() and the plain lookup agree. */
  lemma LookupNotFind(j: Json, path: Path)
    requires path != []
    ensures Find(j, path) == Lookup(j, path)
  {
  }

  /** Any number of appends leaves the old elements followed by the new ones, and unrelated paths alone. */
  lemma {:induction false} AppendAccumulates(j: Json, path: Path, vs: seq<Json>, other: Path)
    requires vs != [] && path != [] && AppendAll(j, path, vs).Ok?
    ensures Find(AppendAll(j, path, vs).value, path) == Some(Array(OldElems(j, path) + vs))
    ensures !Related(path, other) ==> Find(AppendAll(j, path, vs).value, other) == Find(j, other)
  {
    var n := |vs| - 1;
    var before := AppendAll(j, path, vs[..n]).value;
    var after := AppendAll(j, path, vs).value;
    AppendThenLookup(before, path, vs[n]);
    LookupNotFind(after, path);
    if !Related(path, other) { AppendFrame(before, path, vs[n], other); }
    if n > 0 {
      AppendAccumulates(j, path, vs[..n], other);
      LookupNotFind(before, path);
      assert OldElems(j, path) + vs[..n] + [vs[n]] == OldElems(j, path) + vs;
    } else {
      assert vs == [vs[0]];
    }
  }

  /** Once an append at a path has succeeded, so does every later one. */
  lemma {:induction false} AppendAgain(j: Json, path: Path, v: Json, w: Json)
    requires AppendAt(j, path, v).Ok?
    ensures AppendAt(AppendAt(j, path, v).value, path, w).Ok?
    decreases path
  {
    if path != [] { AppendAgain(Child(j, path[0]), path[1..], v, w); }
  }

  lemma {:induction false} AppendsSucceedTogether(j: Json, path: Path, vs: seq<Json>)
    requires vs != [] && AppendAt(j, path, vs[0]).Ok?
    ensures AppendAll(j, path, vs).Ok?
  {
    var n := |vs| - 1;
    if n == 0 {
      assert vs[..0] == [];
    } else {
      AppendsSucceedTogether(j, path, vs[..n]);
      var before := AppendAll(j, path, vs[..n - 1]);
      assert vs[..n][..n - 1] == vs[..n - 1];
      AppendAgain(before.value, path, vs[n - 1], vs[n]);
    }
  }

  /** append() succeeds exactly when the way down is passable and the target is missing, null, an empty object or an
      array; otherwise the way down or the target is to blame. */
  lemma {:induction false} AppendSucceedsIff(j: Json, path: Path, v: Json)
    ensures AppendAt(j, path, v).Ok? <==> Traversable(j, path, |path|) && Appendable(Lookup(j, path))
    ensures AppendAt(j, path, v).Err? ==>
              AppendAt(j, path, v).error == if Traversable(j, path, |path|) then NotAnArray else LogicError
    decreases path
  {
    if path != [] && IsContainer(j) {
      AppendSucceedsIff(Child(j, path[0]), path[1..], v);
      TraversableStep(j, path, |path|);
    } else if path != [] {
      assert path[..0] == [];
      assert !PassableAt(j, path[..0]);
    }
  }

  predicate Appendable(target: Option<Json>) {
    target == None || target == Some(Null) || target == Some(Object(map[])) || target.value.Array?
  }

  // ----- remove -----

  lemma {:induction false} RemoveThenLookup(j: Json, path: Path)
    requires path != [] && RemoveAt(j, path).Ok?
    ensures Find(RemoveAt(j, path).value, path) == None
    decreases path
  {
    if |path| > 1 {
      RemoveThenLookup(Child(j, path[0]), path[1..]);
      LookupNotFind(RemoveAt(Child(j, path[0]), path[1..]).value, path[1..]);
    }
  }

  lemma {:induction false} RemoveFrame(j: Json, path: Path, other: Path)
    requires path != [] && RemoveAt(j, path).Ok? && !Related(path, other)
    ensures Find(RemoveAt(j, path).value, other) == Find(j, other)
    decreases path
  {
    UnrelatedTails(path, other);
    if other[0] == path[0] {
      var child := Child(j, path[0]);
      RemoveFrame(child, path[1..], other[1..]);
      assert other[1..] != [] by { assert [] <= path[1..]; }
      LookupNotFind(RemoveAt(child, path[1..]).value, other[1..]);
      LookupNotFind(child, other[1..]);
    }
  }

  /** remove() succeeds exactly when everything that exists on the way down is an object or null. */
  lemma {:induction false} RemoveSucceedsIff(j: Json, path: Path)
    requires path != []
    ensures RemoveAt(j, path).Ok? <==> Traversable(j, path, |path|)
    ensures RemoveAt(j, path).Err? ==> RemoveAt(j, path).error == LogicError
    decreases path
  {
    assert path[..0] == [];
    if IsContainer(j) && |path| > 1 {
      RemoveSucceedsIff(Child(j, path[0]), path[1..]);
      TraversableStep(j, path, |path|);
    }
  }

  /** A path is found exactly when the root is no array and every key on it is a member of an object. */
  lemma {:induction false} FoundIff(j: Json, path: Path)
    ensures Lookup(j, path).Some? <==> forall i | 0 <= i < |path| :: HasMember(j, path[..i], path[i])
    ensures Find(j, path) == if j.Array? then None else Lookup(j, path)
  {
    if path != [] {
      assert path[..0] == [];
      if j.Object? && path[0] in j.members {
        var child := j.members[path[0]];
        FoundIff(child, path[1..]);
        forall i | 0 < i < |path|
          ensures HasMember(j, path[..i], path[i]) <==> HasMember(child, path[1..][..i - 1], path[i])
        {
          assert path[..i][1..] == path[1..][..i - 1] && path[..i][0] == path[0];
        }
        assert HasMember(j, path[..0], path[0]);
        assert forall i | 0 <= i < |path| - 1 :: path[1..][i] == path[i + 1];
        if forall i | 0 <= i < |path| :: HasMember(j, path[..i], path[i]) {
          forall i | 0 <= i < |path| - 1 ensures HasMember(child, path[1..][..i], path[1..][i]) {
            assert HasMember(j, path[..i + 1], path[i + 1]);
          }
        }
        if forall i | 0 <= i < |path| - 1 :: HasMember(child, path[1..][..i], path[1..][i]) {
          forall i | 0 < i < |path| ensures HasMember(j, path[..i], path[i]) {
            assert HasMember(child, path[1..][..i - 1], path[1..][i - 1]);
          }
        }
      } else {
        assert !HasMember(j, path[..0], path[0]);
      }
    }
  }

  predicate HasMember(j: Json, path: Path, key: string) {
    match Lookup(j, path)
    case None => false
    case Some(node) => node.Object? && key in node.members
  }

  /** Removing a path that is not there leaves the document alone exactly when its parent exists: otherwise
      the missing parents are created. */
  lemma {:induction false} RemoveIsNoOpIff(j: Json, path: Path)
    requires path != [] && RemoveAt(j, path).Ok?
    ensures RemoveAt(j, path).value == j <==> Lookup(j, path).None? && Lookup(j, path[..|path| - 1]).Some?
    decreases path
  {
    if |path| == 1 {
      assert path[..0] == [];
      if j.Object? { assert j.members - {path[0]} == j.members <==> path[0] !in j.members; }
    } else {
      var key, child := path[0], Child(j, path[0]);
      var parent := path[..|path| - 1];
      assert parent[0] == key && parent[1..] == path[1..][..|path[1..]| - 1];
      RemoveIsNoOpIff(child, path[1..]);
      if key in Members(j) {
        var child' := RemoveAt(child, path[1..]).value;
        assert j.members[key := child'] == j.members <==> child' == child;
      }
    }
  }

  /** The smallest case: removing "a.b" from an empty document leaves {"a": {}}. */
  lemma RemoveCreates()
    ensures RemoveAt(EMPTY_OBJECT, ["a", "b"]) == Ok(Object(map["a" := EMPTY_OBJECT]))
  {
    assert ["a", "b"][1..] == ["b"];
    assert RemoveAt(EMPTY_OBJECT, ["b"]) == Ok(EMPTY_OBJECT) by {
      assert EMPTY_OBJECT.members - {"b"} == map[];
    }
  }
}
