/** The Message class: a JSON document addressed by dotted paths, updated in place through a walking pointer. */
module MessageClass {
  import opened Outcomes
  import Tokens
  import opened JsonTree

  /** The keys of a dotted path. */
  function Keys(k: string): Path {
    Tokens.Split(k, ".")
  }

  class Message {
    var root: Json

    constructor ()
      ensures root == EMPTY_OBJECT
    {
      root := EMPTY_OBJECT;
    }

    /** set(): `ptr` is the node at keys[..i]. An update that throws changes nothing. */
    method Set(k: string, value: Json) returns (r: Result<(), Throw>)
      requires |k| < Tokens.NPOS && Keys(k) != []
      modifies this
      ensures old(Put(root, Keys(k), value)).Ok? ==> r == Ok(()) && root == old(Put(root, Keys(k), value)).value
      ensures old(Put(root, Keys(k), value)).Err? ==>
                r == Err(old(Put(root, Keys(k), value)).error) && root == old(root)
    {
      hide Tokens.Split, Put, Lookup, Replace;
      var keys := Tokens.SplitInto(k, [], ".");
      var n := |keys| - 1;
      ghost var goal := Put(root, keys, value);
      LookupRoot(root);
      var i := 0;
      while i < n
        invariant 0 <= i <= n
        invariant Lookup(root, keys[..i]).Some?
        invariant Put(root, keys, value) == goal
        invariant root == old(root) || Lookup(root, keys[..i]) == Some(EMPTY_OBJECT)
      {
        var node := Lookup(root, keys[..i]).value;
        StepInto(root, keys, i, value);
        if !IsContainer(node) { return Err(LogicError); }
        if keys[i] !in Members(node) {
          root := Replace(root, keys[..i], Object(Members(node)[keys[i] := EMPTY_OBJECT]));
        } else if !node.Object? {
          assert false;
        }
        i := i + 1;
      }
      var node := Lookup(root, keys[..n]).value;
      LastKey(root, keys, value);
      if !IsContainer(node) { return Err(LogicError); }
      node := if node.Null? then Null else Object(node.members - {keys[n]});
      root := Replace(root, keys[..n], Object(Members(node)[keys[n] := value]));
      return Ok(());
    }

    /** append(): walks, and creates, every key including the last. */
    method Append(k: string, value: Json) returns (r: Result<(), Throw>)
      requires |k| < Tokens.NPOS
      modifies this
      ensures old(AppendAt(root, Keys(k), value)).Ok? ==>
                r == Ok(()) && root == old(AppendAt(root, Keys(k), value)).value
      ensures old(AppendAt(root, Keys(k), value)).Err? ==>
                r == Err(old(AppendAt(root, Keys(k), value)).error) && root == old(root)
    {
      hide Tokens.Split, AppendAt, Lookup, Replace;
      var keys := Tokens.SplitInto(k, [], ".");
      ghost var goal := AppendAt(root, keys, value);
      LookupRoot(root);
      var i := 0;
      while i < |keys|
        invariant 0 <= i <= |keys|
        invariant Lookup(root, keys[..i]).Some?
        invariant AppendAt(root, keys, value) == goal
        invariant root == old(root) || Lookup(root, keys[..i]) == Some(EMPTY_OBJECT)
      {
        var node := Lookup(root, keys[..i]).value;
        AppendStepInto(root, keys, i, value);
        if !IsContainer(node) { return Err(LogicError); }
        if keys[i] !in Members(node) {
          root := Replace(root, keys[..i], Object(Members(node)[keys[i] := EMPTY_OBJECT]));
        } else if !node.Object? {
          assert false;
        }
        i := i + 1;
      }
      assert keys[..i] == keys;
      var node := Lookup(root, keys).value;
      AppendHere(root, keys, value);
      if IsEmpty(node) { node := Array([]); }
      if !node.Array? { return Err(NotAnArray); }
      root := Replace(root, keys, Array(node.elems + [value]));
      return Ok(());
    }

    /** remove(): like set(), it creates missing parents. */
    method Remove(k: string) returns (r: Result<(), Throw>)
      requires |k| < Tokens.NPOS && Keys(k) != []
      modifies this
      ensures old(RemoveAt(root, Keys(k))).Ok? ==> r == Ok(()) && root == old(RemoveAt(root, Keys(k))).value
      ensures old(RemoveAt(root, Keys(k))).Err? ==> r == Err(old(RemoveAt(root, Keys(k))).error) && root == old(root)
    {
      hide Tokens.Split, RemoveAt, Lookup, Replace;
      var keys := Tokens.SplitInto(k, [], ".");
      var n := |keys| - 1;
      ghost var goal := RemoveAt(root, keys);
      LookupRoot(root);
      var i := 0;
      while i < n
        invariant 0 <= i <= n
        invariant Lookup(root, keys[..i]).Some?
        invariant RemoveAt(root, keys) == goal
        invariant root == old(root) || Lookup(root, keys[..i]) == Some(EMPTY_OBJECT)
      {
        var node := Lookup(root, keys[..i]).value;
        RemoveStepInto(root, keys, i);
        if !IsContainer(node) { return Err(LogicError); }
        if keys[i] !in Members(node) {
          root := Replace(root, keys[..i], Object(Members(node)[keys[i] := EMPTY_OBJECT]));
        }
        i := i + 1;
      }
      var node := Lookup(root, keys[..n]).value;
      RemoveLast(root, keys);
      if !IsContainer(node) { return Err(LogicError); }
      root := Replace(root, keys[..n], if node.Null? then Null else Object(node.members - {keys[n]}));
      return Ok(());
    }

    /** find() */
    method FindValue(k: string) returns (r: Option<Json>)
      requires |k| < Tokens.NPOS
      ensures r == Find(root, Keys(k))
    {
      var keys := Tokens.SplitInto(k, [], ".");
      if root.Array? { return None; }
      var ptr := root;
      var i := 0;
      while i < |keys|
        invariant 0 <= i <= |keys|
        invariant Lookup(ptr, keys[i..]) == Lookup(root, keys)
      {
        if !ptr.Object? || keys[i] !in ptr.members { return None; }
        assert keys[i..][1..] == keys[i + 1..];
        ptr := ptr.members[keys[i]];
        i := i + 1;
      }
      return Some(ptr);
    }

    method Exists(k: string) returns (found: bool)
      requires |k| < Tokens.NPOS
      ensures found <==> Find(root, Keys(k)).Some?
    {
      var dummy := FindValue(k);
      return dummy.Some?;
    }

    /** set_meta(): the key is not split. */
    method SetMeta(k: string, value: Json) returns (r: Result<(), Throw>)
      modifies this
      ensures r == if old(root).Object? || old(root).Null? then Ok(()) else Err(LogicError)
      ensures r.Ok? ==> Ok(root) == PutMember(old(root), "@" + k, value)
      ensures r.Err? ==> root == old(root)
    {
      if !IsContainer(root) { return Err(LogicError); }
      root := Object(Members(root)["@" + k := value]);
      return Ok(());
    }

    /** get(): the value at the path converted to the type of the default, or the default. `convert` is jsoncpp's
        conversion to that type, None where the value has no such conversion. */
    method Get<T>(k: string, convert: Json -> Option<T>, defaultValue: T) returns (r: T)
      requires |k| < Tokens.NPOS
      ensures Find(root, Keys(k)).Some? && convert(Find(root, Keys(k)).value).Some? ==>
                r == convert(Find(root, Keys(k)).value).value
      ensures Find(root, Keys(k)).None? || convert(Find(root, Keys(k)).value).None? ==> r == defaultValue
    {
      var dest := FindValue(k);
      if dest.Some? {
        var value := convert(dest.value);
        if value.Some? { return value.value; }
      }
      return defaultValue;
    }

    /** get_meta(): unlike in set_meta(), the key is split. */
    method GetMeta<T>(k: string, convert: Json -> Option<T>, defaultValue: T) returns (r: T)
      requires |k| + 1 < Tokens.NPOS
      ensures var found := Find(root, Keys("@" + k));
              && (found.Some? && convert(found.value).Some? ==> r == convert(found.value).value)
              && (found.None? || convert(found.value).None? ==> r == defaultValue)
    {
      r := Get("@" + k, convert, defaultValue);
    }
  }

  /** What get() finds after a successful set(): the value set, to be converted as usual, and at an unrelated path what
      was there before. */
  lemma GetAfterSet(root: Json, k: string, v: Json, other: string)
    requires Keys(k) != [] && Put(root, Keys(k), v).Ok?
    ensures Find(Put(root, Keys(k), v).value, Keys(k)) == Some(v)
    ensures !Related(Keys(k), Keys(other)) ==> Find(Put(root, Keys(k), v).value, Keys(other)) == Find(root, Keys(other))
  {
    hide Put, Find, Related, Tokens.Split;
    PutThenLookup(root, Keys(k), v, []);
    LookupRoot(v);
    assert Keys(k) + [] == Keys(k);
    if !Related(Keys(k), Keys(other)) { PutFrame(root, Keys(k), v, Keys(other)); }
  }

  // ----- one step of the pointer -----

  lemma LookupRoot(j: Json)
    ensures Lookup(j, []) == Some(j)
  {
  }

  /** The tree with an empty object created at a missing key. */
  function Created(j: Json, path: Path, key: string): Json
    requires Lookup(j, path).Some? && IsContainer(Lookup(j, path).value)
  {
    Replace(j, path, Object(Members(Lookup(j, path).value)[key := EMPTY_OBJECT]))
  }

  lemma PointerStep(j: Json, keys: Path, i: nat)
    requires i < |keys| && Lookup(j, keys[..i]).Some? && IsContainer(Lookup(j, keys[..i]).value)
    ensures var node := Lookup(j, keys[..i]).value;
            if keys[i] in Members(node) then Lookup(j, keys[..i + 1]) == Some(Members(node)[keys[i]])
            else Lookup(Created(j, keys[..i], keys[i]), keys[..i + 1]) == Some(EMPTY_OBJECT)
  {
    var node := Lookup(j, keys[..i]).value;
    assert keys[..i + 1] == keys[..i] + [keys[i]];
    LookupConcat(j, keys[..i], [keys[i]]);
    assert [keys[i]][1..] == [];
    if keys[i] !in Members(node) {
      var node' := Object(Members(node)[keys[i] := EMPTY_OBJECT]);
      ReplaceNode(j, keys[..i], node', node');
      LookupConcat(Replace(j, keys[..i], node'), keys[..i], [keys[i]]);
    }
  }

  lemma StepInto(j: Json, keys: Path, i: nat, v: Json)
    requires i + 1 < |keys| && Lookup(j, keys[..i]).Some?
    ensures var node := Lookup(j, keys[..i]).value;
            && (!IsContainer(node) ==> Put(j, keys, v) == Err(LogicError) && node != EMPTY_OBJECT)
            && (IsContainer(node) && keys[i] in Members(node) ==>
                  Lookup(j, keys[..i + 1]).Some? && node != EMPTY_OBJECT)
            && (IsContainer(node) && keys[i] !in Members(node) ==>
                  && Put(Created(j, keys[..i], keys[i]), keys, v) == Put(j, keys, v)
                  && Lookup(Created(j, keys[..i], keys[i]), keys[..i + 1]) == Some(EMPTY_OBJECT))
  {
    var node := Lookup(j, keys[..i]).value;
    assert keys == keys[..i] + keys[i..];
    PutBelow(j, keys[..i], keys[i..], v);
    if IsContainer(node) {
      PointerStep(j, keys, i);
      if keys[i] !in Members(node) {
        var node' := Object(Members(node)[keys[i] := EMPTY_OBJECT]);
        ReplaceNode(j, keys[..i], node', node');
        PutBelow(Replace(j, keys[..i], node'), keys[..i], keys[i..], v);
        PutCreated(node, keys[i..], v);
        if Put(node, keys[i..], v).Ok? {
          ReplaceNode(j, keys[..i], node', Put(node, keys[i..], v).value);
        }
      }
    }
  }

  lemma PutCreated(node: Json, rest: Path, v: Json)
    requires |rest| > 1 && IsContainer(node) && rest[0] !in Members(node)
    ensures Put(Object(Members(node)[rest[0] := EMPTY_OBJECT]), rest, v) == Put(node, rest, v)
  {
    var below := Put(EMPTY_OBJECT, rest[1..], v);
    if below.Ok? { UpdateTwice(Members(node), rest[0], EMPTY_OBJECT, below.value); }
  }

  lemma LastKey(j: Json, keys: Path, v: Json)
    requires keys != [] && Lookup(j, keys[..|keys| - 1]).Some?
    ensures var node := Lookup(j, keys[..|keys| - 1]).value;
            var key := keys[|keys| - 1];
            Put(j, keys, v) == if !IsContainer(node) then Err(LogicError)
                               else Ok(Replace(j, keys[..|keys| - 1], Object(Members(node)[key := v])))
    ensures var node := Lookup(j, keys[..|keys| - 1]).value;
            node.Object? ==> forall key :: (node.members - {key})[key := v] == node.members[key := v]
  {
    var n := |keys| - 1;
    assert keys == keys[..n] + [keys[n]];
    PutBelow(j, keys[..n], [keys[n]], v);
  }

  lemma AppendStepInto(j: Json, keys: Path, i: nat, v: Json)
    requires i < |keys| && Lookup(j, keys[..i]).Some?
    ensures var node := Lookup(j, keys[..i]).value;
            && (!IsContainer(node) ==> AppendAt(j, keys, v) == Err(LogicError) && node != EMPTY_OBJECT)
            && (IsContainer(node) && keys[i] in Members(node) ==>
                  Lookup(j, keys[..i + 1]).Some? && node != EMPTY_OBJECT)
            && (IsContainer(node) && keys[i] !in Members(node) ==>
                  && AppendAt(Created(j, keys[..i], keys[i]), keys, v) == AppendAt(j, keys, v)
                  && Lookup(Created(j, keys[..i], keys[i]), keys[..i + 1]) == Some(EMPTY_OBJECT))
  {
    var node := Lookup(j, keys[..i]).value;
    assert keys == keys[..i] + keys[i..];
    AppendBelow(j, keys[..i], keys[i..], v);
    if IsContainer(node) {
      PointerStep(j, keys, i);
      if keys[i] !in Members(node) {
        var node' := Object(Members(node)[keys[i] := EMPTY_OBJECT]);
        ReplaceNode(j, keys[..i], node', node');
        AppendBelow(Replace(j, keys[..i], node'), keys[..i], keys[i..], v);
        var below := AppendAt(EMPTY_OBJECT, keys[i..][1..], v);
        if below.Ok? {
          UpdateTwice(Members(node), keys[i], EMPTY_OBJECT, below.value);
          ReplaceNode(j, keys[..i], node', AppendAt(node, keys[i..], v).value);
        }
      }
    }
  }

  lemma AppendHere(j: Json, keys: Path, v: Json)
    requires Lookup(j, keys).Some?
    ensures var node := Lookup(j, keys).value;
            var elems := if IsEmpty(node) then [] else if node.Array? then node.elems else [];
            AppendAt(j, keys, v) == if IsEmpty(node) || node.Array? then Ok(Replace(j, keys, Array(elems + [v])))
                                    else Err(NotAnArray)
  {
    assert keys == keys + [];
    AppendBelow(j, keys, [], v);
    assert [] + [v] == [v];
  }

  lemma RemoveStepInto(j: Json, keys: Path, i: nat)
    requires i + 1 < |keys| && Lookup(j, keys[..i]).Some?
    ensures var node := Lookup(j, keys[..i]).value;
            && (!IsContainer(node) ==> RemoveAt(j, keys) == Err(LogicError) && node != EMPTY_OBJECT)
            && (IsContainer(node) && keys[i] in Members(node) ==>
                  Lookup(j, keys[..i + 1]).Some? && node != EMPTY_OBJECT)
            && (IsContainer(node) && keys[i] !in Members(node) ==>
                  && RemoveAt(Created(j, keys[..i], keys[i]), keys) == RemoveAt(j, keys)
                  && Lookup(Created(j, keys[..i], keys[i]), keys[..i + 1]) == Some(EMPTY_OBJECT))
  {
    var node := Lookup(j, keys[..i]).value;
    assert keys == keys[..i] + keys[i..];
    RemoveBelow(j, keys[..i], keys[i..]);
    if IsContainer(node) {
      PointerStep(j, keys, i);
      if keys[i] !in Members(node) {
        var node' := Object(Members(node)[keys[i] := EMPTY_OBJECT]);
        ReplaceNode(j, keys[..i], node', node');
        RemoveBelow(Replace(j, keys[..i], node'), keys[..i], keys[i..]);
        var below := RemoveAt(EMPTY_OBJECT, keys[i..][1..]);
        if below.Ok? {
          UpdateTwice(Members(node), keys[i], EMPTY_OBJECT, below.value);
          ReplaceNode(j, keys[..i], node', RemoveAt(node, keys[i..]).value);
        }
      }
    }
  }

  lemma RemoveLast(j: Json, keys: Path)
    requires keys != [] && Lookup(j, keys[..|keys| - 1]).Some?
    ensures var node := Lookup(j, keys[..|keys| - 1]).value;
            var key := keys[|keys| - 1];
            RemoveAt(j, keys) == if !IsContainer(node) then Err(LogicError)
                                 else Ok(Replace(j, keys[..|keys| - 1],
                                                 if node.Null? then Null else Object(node.members - {key})))
  {
    var n := |keys| - 1;
    assert keys == keys[..n] + [keys[n]];
    RemoveBelow(j, keys[..n], [keys[n]]);
  }

  // ----- meta keys -----

  /** What get_meta reads after set_meta: the value, exactly when the name has no dot. A dotted name is written
      as one member but looked up as a path, so get_meta goes on returning whatever it returned before. */
  lemma MetaRoundTrip(root: Json, k: string, v: Json)
    requires IsContainer(root)
    ensures Find(PutMember(root, "@" + k, v).value, Keys("@" + k))
         == if '.' !in k then Some(v) else Find(root, Keys("@" + k))
  {
    var key := "@" + k;
    var keys := Keys(key);
    if '.' !in k {
      assert Tokens.Join([key], '.') == key;
      Tokens.SplitOfJoin([key], '.');
      assert keys == [key];
      LookupRoot(v);
      assert Lookup(PutMember(root, key, v).value, keys) == Lookup(v, keys[1..]);
    } else {
      FirstKey(key);
      assert keys[0] != key by {
        var i :| 0 <= i < |k| && k[i] == '.';
        assert key[i + 1] == '.';
      }
    }
  }

  /** set_meta leaves every path alone that does not begin with its key. */
  lemma MetaFrame(root: Json, k: string, v: Json, other: Path)
    requires IsContainer(root) && other != [] && other[0] != "@" + k
    ensures Find(PutMember(root, "@" + k, v).value, other) == Find(root, other)
  {
  }

  lemma FirstKey(key: string)
    requires key != [] && key[0] != '.'
    ensures Keys(key) != [] && '.' !in Keys(key)[0]
  {
    var runs := Tokens.Runs(key, ".");
    Tokens.RunsAreRuns(key, ".");
    var k :| 0 <= k < |runs| && runs[k].lo <= 0 < runs[k].hi;
    assert Tokens.IsRun(key, ".", runs[0]);
  }
}
