/** Configurations, the plain list of settings per level, and TypedConfigurations, the compressed map per
    type that is built from it. */
module ConfigurationsModel {
  import opened Outcomes

  /** Level and ConfigurationType by their enumeration values. */
  type Level = nat
  type ConfigurationType = nat

  const GLOBAL: Level := 1
  const MIN_VALID: Level := 2
  const MAX_VALID: Level := 128

  /** The levels forEachLevel visits: Trace, Debug, Fatal, Error, Warning, Verbose, Info. */
  predicate IsValidLevel(l: Level) { l in {2, 4, 8, 16, 32, 64, 128} }

  datatype Configuration = Configuration(level: Level, configurationType: ConfigurationType, value: string)

  // ----- the plain list -----

  /** The position the registry's predicate finds, or the length. */
  function Find(list: seq<Configuration>, l: Level, t: ConfigurationType): (i: nat)
    ensures i <= |list|
    ensures i < |list| ==> list[i].level == l && list[i].configurationType == t
    ensures forall j | 0 <= j < i :: !(list[j].level == l && list[j].configurationType == t)
  {
    if list == [] || (list[0].level == l && list[0].configurationType == t) then 0
    else 1 + Find(list[1..], l, t)
  }

  /** The registered value of a (level, type) pair. */
  function Value(list: seq<Configuration>, l: Level, t: ConfigurationType): Option<string> {
    var i := Find(list, l, t);
    if i < |list| then Some(list[i].value) else None
  }

  /** Each (level, type) is registered once. */
  ghost predicate Distinct(list: seq<Configuration>) {
    forall i, j | 0 <= i < j < |list| ::
      list[i].level != list[j].level || list[i].configurationType != list[j].configurationType
  }

  function SetOne(list: seq<Configuration>, l: Level, t: ConfigurationType, v: string): seq<Configuration> {
    var i := Find(list, l, t);
    if i < |list| then list[i := list[i].(value := v)] else list + [Configuration(l, t, v)]
  }

  /** unsafeSetGlobally, from a level on. */
  function SetFrom(list: seq<Configuration>, l: Level, t: ConfigurationType, v: string): seq<Configuration>
    decreases 2 * MAX_VALID - l
  {
    if l == 0 || l > MAX_VALID then list else SetFrom(SetOne(list, l, t, v), 2 * l, t, v)
  }

  /** unsafeSet() */
  function UnsafeSet(list: seq<Configuration>, l: Level, t: ConfigurationType, v: string): seq<Configuration> {
    if l == GLOBAL then SetFrom(SetOne(list, l, t, v), MIN_VALID, t, v) else SetOne(list, l, t, v)
  }

  /** set(): unsafeSet, and once more for all levels when the level is Global. */
  function Set(list: seq<Configuration>, l: Level, t: ConfigurationType, v: string): seq<Configuration> {
    if l == GLOBAL then SetFrom(UnsafeSet(list, l, t, v), MIN_VALID, t, v) else UnsafeSet(list, l, t, v)
  }

  lemma FindUnique(list: seq<Configuration>, i: nat)
    requires Distinct(list) && i < |list|
    ensures Find(list, list[i].level, list[i].configurationType) == i
  {
    var j := Find(list, list[i].level, list[i].configurationType);
    assert j <= i;
  }

  lemma ValueOfEntry(list: seq<Configuration>, l: Level, t: ConfigurationType, i: nat, v: string)
    requires Distinct(list) && i < |list| && list[i] == Configuration(l, t, v)
    ensures Value(list, l, t) == Some(v)
  {
    FindUnique(list, i);
  }

  lemma SetOneValue(list: seq<Configuration>, l: Level, t: ConfigurationType, v: string,
                    l': Level, t': ConfigurationType)
    requires Distinct(list)
    ensures Distinct(SetOne(list, l, t, v))
    ensures Value(SetOne(list, l, t, v), l', t') == if l' == l && t' == t then Some(v) else Value(list, l', t')
  {
    var list' := SetOne(list, l, t, v);
    var i, j := Find(list, l, t), Find(list, l', t');
    assert Distinct(list') by {
      forall a, b | 0 <= a < b < |list'|
        ensures list'[a].level != list'[b].level || list'[a].configurationType != list'[b].configurationType
      {
        if b < |list| {
          assert list[a].level != list[b].level || list[a].configurationType != list[b].configurationType;
        }
      }
    }
    if l' == l && t' == t {
      ValueOfEntry(list', l, t, i, v);
    } else if j < |list| {
      assert list'[j] == list[j];
      ValueOfEntry(list', l', t', j, list[j].value);
    } else {
      var j' := Find(list', l', t');
      assert j' < |list'| ==> j' < |list| || l' == l;
    }
  }

  /** The levels 2 * ... from l up to MAX_VALID. */
  predicate Reaches(l: Level, l': Level)
    decreases 2 * MAX_VALID - l
  {
    l > 0 && l <= MAX_VALID && (l' == l || Reaches(2 * l, l'))
  }

  lemma ReachesValid(l': Level)
    ensures Reaches(MIN_VALID, l') <==> IsValidLevel(l')
  {
    assert Reaches(256, l') <==> false;
    assert Reaches(128, l') <==> l' == 128;
    assert Reaches(64, l') <==> l' in {64, 128};
    assert Reaches(32, l') <==> l' in {32, 64, 128};
    assert Reaches(16, l') <==> l' in {16, 32, 64, 128};
    assert Reaches(8, l') <==> l' in {8, 16, 32, 64, 128};
    assert Reaches(4, l') <==> l' in {4, 8, 16, 32, 64, 128};
  }

  lemma {:induction false} SetFromValue(list: seq<Configuration>, l: Level, t: ConfigurationType, v: string,
                                        l': Level, t': ConfigurationType)
    requires Distinct(list)
    ensures Distinct(SetFrom(list, l, t, v))
    ensures Value(SetFrom(list, l, t, v), l', t') == if t' == t && Reaches(l, l') then Some(v) else Value(list, l', t')
    decreases 2 * MAX_VALID - l
  {
    if l > 0 && l <= MAX_VALID {
      SetOneValue(list, l, t, v, l', t');
      SetFromValue(SetOne(list, l, t, v), 2 * l, t, v, l', t');
    }
  }

  predicate Affects(l: Level, l': Level) { l' == l || (l == GLOBAL && IsValidLevel(l')) }

  /** set() changes the value of its level, or of Global and every valid level, and of no other pair. */
  lemma SetValueOf(list: seq<Configuration>, l: Level, t: ConfigurationType, v: string,
                   l': Level, t': ConfigurationType)
    requires Distinct(list)
    ensures Distinct(Set(list, l, t, v))
    ensures Value(Set(list, l, t, v), l', t') == if t' == t && Affects(l, l') then Some(v) else Value(list, l', t')
  {
    hide Find, Value, SetOne, SetFrom, Reaches, Distinct;
    SetOneValue(list, l, t, v, l', t');
    if l == GLOBAL {
      ReachesValid(l');
      SetFromValue(SetOne(list, l, t, v), MIN_VALID, t, v, l', t');
      SetFromValue(UnsafeSet(list, l, t, v), MIN_VALID, t, v, l', t');
    }
  }

  // ----- runs of set() -----

  function Run(calls: seq<Configuration>): seq<Configuration> {
    if calls == [] then []
    else
      var c := calls[|calls| - 1];
      Set(Run(calls[..|calls| - 1]), c.level, c.configurationType, c.value)
  }

  /** The value most recently set for the level, or for Global when it is a valid level. */
  function Latest(calls: seq<Configuration>, l: Level, t: ConfigurationType): Option<string> {
    if calls == [] then None
    else
      var c := calls[|calls| - 1];
      if c.configurationType == t && Affects(c.level, l) then Some(c.value)
      else Latest(calls[..|calls| - 1], l, t)
  }

  /** Over every run, each pair is registered once and holds the value most recently set for it. */
  lemma {:induction false} RunIsLatest(calls: seq<Configuration>, l: Level, t: ConfigurationType)
    ensures Distinct(Run(calls))
    ensures Value(Run(calls), l, t) == Latest(calls, l, t)
  {
    if calls != [] {
      var c := calls[|calls| - 1];
      RunIsLatest(calls[..|calls| - 1], l, t);
      SetValueOf(Run(calls[..|calls| - 1]), c.level, c.configurationType, c.value, l, t);
    }
  }

  class Configurations {
    var list: seq<Configuration>

    constructor ()
      ensures list == []
    {
      list := [];
    }

    method UnsafeSetOne(level: Level, configurationType: ConfigurationType, value: string)
      modifies this
      ensures list == SetOne(old(list), level, configurationType, value)
    {
      var i := Find(list, level, configurationType);
      if i == |list| {
        list := list + [Configuration(level, configurationType, value)];
      } else {
        list := list[i := list[i].(value := value)];
      }
    }

    /** unsafeSetGlobally(): forEachLevel shifts the level left until it passes Info. */
    method UnsafeSetGlobally(configurationType: ConfigurationType, value: string)
      modifies this
      ensures list == SetFrom(old(list), MIN_VALID, configurationType, value)
    {
      var lIndex := MIN_VALID;
      while lIndex <= MAX_VALID
        invariant lIndex > 0
        invariant SetFrom(list, lIndex, configurationType, value)
               == SetFrom(old(list), MIN_VALID, configurationType, value)
        decreases 2 * MAX_VALID - lIndex
      {
        UnsafeSetOne(lIndex, configurationType, value);
        lIndex := 2 * lIndex;
      }
    }

    method UnsafeSetLevel(level: Level, configurationType: ConfigurationType, value: string)
      modifies this
      ensures list == UnsafeSet(old(list), level, configurationType, value)
    {
      UnsafeSetOne(level, configurationType, value);
      if level == GLOBAL {
        UnsafeSetGlobally(configurationType, value);
      }
    }

    /** set() */
    method SetLevel(level: Level, configurationType: ConfigurationType, value: string)
      modifies this
      ensures list == Set(old(list), level, configurationType, value)
    {
      UnsafeSetLevel(level, configurationType, value);
      if level == GLOBAL {
        UnsafeSetGlobally(configurationType, value);
      }
    }
  }

  // ----- the compressed map -----

  /** setValue(): the first value goes to Global whatever its level; a value Global already has is left out. */
  function SetValue<T(==)>(m: map<Level, T>, l: Level, v: T): map<Level, T> {
    if m == map[] then map[GLOBAL := v]
    else if GLOBAL in m && m[GLOBAL] == v then m
    else m[l := v]
  }

  /** unsafeGetConfigByVal(): None where the code reports an error and returns a default value. */
  function Typed<T>(m: map<Level, T>, l: Level): Option<T> {
    if l in m then Some(m[l]) else if GLOBAL in m then Some(m[GLOBAL]) else None
  }

  /** The settings of one type, in registration order. */
  function OfType(list: seq<Configuration>, t: ConfigurationType): seq<Configuration> {
    if list == [] then []
    else OfType(list[..|list| - 1], t) + if list[|list| - 1].configurationType == t then [list[|list| - 1]] else []
  }

  function Build<T(==)>(es: seq<Configuration>, parse: string -> T): map<Level, T> {
    if es == [] then map[]
    else SetValue(Build(es[..|es| - 1], parse), es[|es| - 1].level, parse(es[|es| - 1].value))
  }

  class TypedMap<T(==)> {
    var values: map<Level, T>

    constructor ()
      ensures values == map[]
    {
      values := map[];
    }

    method SetTyped(level: Level, value: T)
      modifies this
      ensures values == SetValue(old(values), level, value)
    {
      if values == map[] {
        values := map[GLOBAL := value];
        return;
      }
      if GLOBAL in values && values[GLOBAL] == value { return; }
      values := values[level := value];
    }

    method GetConfigByVal(level: Level) returns (r: Option<T>)
      ensures r == Typed(values, level)
    {
      if level !in values {
        return if GLOBAL in values then Some(values[GLOBAL]) else None;
      }
      return Some(values[level]);
    }

    /** The part of build() that fills the map of one configuration type. */
    method BuildFrom(list: seq<Configuration>, t: ConfigurationType, parse: string -> T)
      requires values == map[]
      modifies this
      ensures values == Build(OfType(list, t), parse)
    {
      var i := 0;
      while i < |list|
        invariant 0 <= i <= |list|
        invariant values == Build(OfType(list[..i], t), parse)
      {
        var conf := list[i];
        assert list[..i + 1][..i] == list[..i];
        if conf.configurationType == t {
          ghost var es := OfType(list[..i], t);
          assert (es + [conf])[..|es|] == es;
          SetTyped(conf.level, parse(conf.value));
        } else {
          assert OfType(list[..i], t) + [] == OfType(list[..i], t);
        }
        i := i + 1;
      }
      assert list[..i] == list;
    }
  }

  // ----- agreement of the two -----

  ghost predicate DistinctLevels(es: seq<Configuration>) {
    forall i, j | 0 <= i < j < |es| :: es[i].level != es[j].level
  }

  /** The value the list gives a level. */
  function ValueAt(es: seq<Configuration>, l: Level): Option<string> {
    if es == [] then None
    else if es[|es| - 1].level == l then Some(es[|es| - 1].value)
    else ValueAt(es[..|es| - 1], l)
  }

  /** What a lookup should give: the level's own value, or Global's. */
  function Plain<T>(es: seq<Configuration>, l: Level, parse: string -> T): Option<T> {
    match ValueAt(es, l)
    case Some(v) => Some(parse(v))
    case None =>
      match ValueAt(es, GLOBAL)
      case Some(v) => Some(parse(v))
      case None => None
  }

  ghost predicate Agrees<T>(es: seq<Configuration>, parse: string -> T) {
    forall l :: Typed(Build(es, parse), l) == Plain(es, l, parse)
  }

  /** The setting registered first has Global's value. */
  predicate FirstIsGlobal<T(==)>(es: seq<Configuration>, parse: string -> T) {
    es == []
    || (ValueAt(es, GLOBAL).Some? && parse(ValueAt(es, GLOBAL).value) == parse(es[0].value))
  }

  lemma {:induction false} ValueAtIn(es: seq<Configuration>, l: Level)
    ensures ValueAt(es, l).Some? <==> exists i :: 0 <= i < |es| && es[i].level == l
  {
    if es != [] {
      var before := es[..|es| - 1];
      ValueAtIn(before, l);
      assert forall i | 0 <= i < |before| :: before[i] == es[i];
      if ValueAt(before, l).Some? { var i :| 0 <= i < |before| && before[i].level == l; assert es[i].level == l; }
      if es[|es| - 1].level != l && exists i :: 0 <= i < |es| && es[i].level == l {
        var i :| 0 <= i < |es| && es[i].level == l;
        assert before[i].level == l;
      }
    }
  }

  /** What the compressed map looks like after a prefix that starts with value v0: Global holds v0 until a
      Global setting replaces it, and the first setting's own level is never entered. */
  lemma {:induction false} BuildShape<T>(es: seq<Configuration>, parse: string -> T)
    requires es != [] && DistinctLevels(es)
    ensures GLOBAL in Build(es, parse)
    ensures Build(es, parse)[GLOBAL]
         == match ValueAt(es, GLOBAL) case Some(g) => parse(g) case None => parse(es[0].value)
    ensures es[0].level != GLOBAL ==> es[0].level !in Build(es, parse)
  {
    var n := |es| - 1;
    if n > 0 {
      BuildShape(es[..n], parse);
      assert es[..n][0] == es[0];
      LastLevelIsNew(es);
    } else {
      assert es[..n] == [];
    }
  }

  lemma LastLevelIsNew(es: seq<Configuration>)
    requires es != [] && DistinctLevels(es)
    ensures ValueAt(es[..|es| - 1], es[|es| - 1].level).None?
    ensures |es| > 1 ==> es[|es| - 1].level != es[0].level
  {
    ValueAtIn(es[..|es| - 1], es[|es| - 1].level);
  }

  /** While Global's value is the one that came first, each level reads back its own value. */
  lemma {:induction false} LevelsKept<T>(es: seq<Configuration>, parse: string -> T, l: Level)
    requires es != [] && DistinctLevels(es)
    requires ValueAt(es, GLOBAL).Some? ==> parse(ValueAt(es, GLOBAL).value) == parse(es[0].value)
    ensures Build(es, parse) != map[] && GLOBAL in Build(es, parse)
    ensures Build(es, parse)[GLOBAL] == parse(es[0].value)
    ensures l != GLOBAL ==>
              match ValueAt(es, l)
              case Some(v) => Typed(Build(es, parse), l) == Some(parse(v))
              case None => l !in Build(es, parse)
  {
    var n := |es| - 1;
    BuildShape(es, parse);
    if n > 0 {
      assert es[..n][0] == es[0];
      LastLevelIsNew(es);
      LevelsKept(es[..n], parse, l);
    } else {
      assert es[..n] == [];
    }
  }

  /** What the compression leaves out: while Global's value is the one that came first, a level has an entry of its own
      exactly when its value is a different one. */
  lemma {:induction false} StoredIffDifferent<T>(es: seq<Configuration>, parse: string -> T, l: Level)
    requires es != [] && DistinctLevels(es) && l != GLOBAL
    requires ValueAt(es, GLOBAL).Some? ==> parse(ValueAt(es, GLOBAL).value) == parse(es[0].value)
    ensures l in Build(es, parse) <==> ValueAt(es, l).Some? && parse(ValueAt(es, l).value) != parse(es[0].value)
  {
    var n := |es| - 1;
    if n > 0 {
      assert es[..n][0] == es[0];
      LastLevelIsNew(es);
      LevelsKept(es[..n], parse, l);
      StoredIffDifferent(es[..n], parse, l);
    } else {
      assert es[..n] == [];
    }
  }

  /** The compressed map agrees with the list at every level exactly when the setting registered first has the
      value of Global. */
  lemma AgreesIffFirstIsGlobal<T>(es: seq<Configuration>, parse: string -> T)
    requires DistinctLevels(es)
    ensures Agrees(es, parse) <==> FirstIsGlobal(es, parse)
  {
    if es != [] {
      BuildShape(es, parse);
      if FirstIsGlobal(es, parse) {
        forall l ensures Typed(Build(es, parse), l) == Plain(es, l, parse) {
          LevelsKept(es, parse, l);
        }
      } else if ValueAt(es, GLOBAL).None? {
        assert Typed(Build(es, parse), GLOBAL) != Plain(es, GLOBAL, parse);
      } else {
        FirstValue(es);
        assert Typed(Build(es, parse), es[0].level) != Plain(es, es[0].level, parse);
      }
    }
  }

  lemma {:induction false} FirstValue(es: seq<Configuration>)
    requires es != [] && DistinctLevels(es)
    ensures ValueAt(es, es[0].level) == Some(es[0].value)
  {
    var n := |es| - 1;
    if n > 0 {
      FirstValue(es[..n]);
      assert es[..n][0] == es[0];
    }
  }

  // ----- from runs to lookups -----

  lemma {:induction false} OfTypeMembers(list: seq<Configuration>, t: ConfigurationType)
    ensures forall i | 0 <= i < |OfType(list, t)| ::
              OfType(list, t)[i] in list && OfType(list, t)[i].configurationType == t
  {
    if list != [] { OfTypeMembers(list[..|list| - 1], t); }
  }

  lemma {:induction false} OfTypeDistinct(list: seq<Configuration>, t: ConfigurationType)
    requires Distinct(list)
    ensures DistinctLevels(OfType(list, t))
  {
    if list != [] {
      var n := |list| - 1;
      var before := OfType(list[..n], t);
      OfTypeDistinct(list[..n], t);
      OfTypeMembers(list[..n], t);
      forall i | 0 <= i < |before| ensures list[n].configurationType == t ==> before[i].level != list[n].level {
        var k :| 0 <= k < n && list[..n][k] == before[i];
        assert list[k].configurationType == t;
      }
    }
  }

  lemma {:induction false} OfTypeValues(list: seq<Configuration>, t: ConfigurationType, l: Level)
    requires Distinct(list)
    ensures DistinctLevels(OfType(list, t))
    ensures ValueAt(OfType(list, t), l) == Value(list, l, t)
  {
    OfTypeDistinct(list, t);
    if list != [] {
      var before := OfType(list[..|list| - 1], t);
      var last := list[|list| - 1];
      OfTypeValues(list[..|list| - 1], t, l);
      ValueOfLast(list, l, t);
      assert (before + [last])[..|before|] == before && before + [] == before;
    }
  }

  lemma ValueOfLast(list: seq<Configuration>, l: Level, t: ConfigurationType)
    requires list != [] && Distinct(list)
    ensures var last := list[|list| - 1];
            Value(list, l, t) == if last.level == l && last.configurationType == t then Some(last.value)
                                 else Value(list[..|list| - 1], l, t)
  {
    var n := |list| - 1;
    var before := list[..n];
    if list[n].level == l && list[n].configurationType == t {
      ValueOfEntry(list, l, t, n, list[n].value);
    } else {
      var i := Find(before, l, t);
      if i < n {
        ValueOfEntry(list, l, t, i, before[i].value);
      } else {
        assert forall k | 0 <= k < n :: before[k] == list[k];
      }
    }
  }

  /** The first call for a type fixes the level that is registered first for it. */
  function FirstCall(calls: seq<Configuration>, t: ConfigurationType): Option<Level> {
    if calls == [] then None
    else
      match FirstCall(calls[..|calls| - 1], t)
      case Some(l) => Some(l)
      case None => if calls[|calls| - 1].configurationType == t then Some(calls[|calls| - 1].level) else None
  }

  function LastLevel(es: seq<Configuration>): Option<Level> {
    if es == [] then None else Some(es[|es| - 1].level)
  }

  function FirstLevel(es: seq<Configuration>): Option<Level> {
    if es == [] then None else Some(es[0].level)
  }

  lemma FirstAfterSetOne(list: seq<Configuration>, l: Level, t: ConfigurationType, v: string, t': ConfigurationType)
    ensures FirstLevel(OfType(SetOne(list, l, t, v), t'))
         == if FirstLevel(OfType(list, t')).Some? || t' != t then FirstLevel(OfType(list, t')) else Some(l)
    ensures LastLevel(OfType(SetOne(list, l, t, v), t'))
         == if t' == t && Value(list, l, t).None? then Some(l) else LastLevel(OfType(list, t'))
  {
    var i := Find(list, l, t);
    if i < |list| {
      UpdateKeepsLevels(list, i, v, t');
      MemberOfType(list, i);
    } else {
      var list' := list + [Configuration(l, t, v)];
      assert list'[..|list|] == list;
    }
  }

  lemma {:induction false} UpdateKeepsLevels(list: seq<Configuration>, i: nat, v: string, t: ConfigurationType)
    requires i < |list|
    ensures |OfType(list[i := list[i].(value := v)], t)| == |OfType(list, t)|
    ensures FirstLevel(OfType(list[i := list[i].(value := v)], t)) == FirstLevel(OfType(list, t))
    ensures LastLevel(OfType(list[i := list[i].(value := v)], t)) == LastLevel(OfType(list, t))
  {
    var n := |list| - 1;
    var list' := list[i := list[i].(value := v)];
    if i < n {
      assert list'[..n] == list[..n][i := list[i].(value := v)];
      UpdateKeepsLevels(list[..n], i, v, t);
    } else {
      assert list'[..n] == list[..n];
    }
  }

  lemma {:induction false} MemberOfType(list: seq<Configuration>, i: nat)
    requires i < |list|
    ensures OfType(list, list[i].configurationType) != []
  {
    var n := |list| - 1;
    if i < n {
      assert list[..n][i] == list[i];
      MemberOfType(list[..n], i);
    }
  }

  lemma {:induction false} FirstAfterSetFrom(list: seq<Configuration>, l: Level, t: ConfigurationType, v: string,
                                             t': ConfigurationType)
    requires t' != t || FirstLevel(OfType(list, t')).Some?
    ensures FirstLevel(OfType(SetFrom(list, l, t, v), t')) == FirstLevel(OfType(list, t'))
    decreases 2 * MAX_VALID - l
  {
    if l > 0 && l <= MAX_VALID {
      FirstAfterSetOne(list, l, t, v, t');
      FirstAfterSetFrom(SetOne(list, l, t, v), 2 * l, t, v, t');
    }
  }

  lemma {:induction false} FirstOfRun(calls: seq<Configuration>, t: ConfigurationType)
    ensures FirstLevel(OfType(Run(calls), t)) == FirstCall(calls, t)
  {
    hide OfType, SetOne, SetFrom;
    if calls == [] {
      assert OfType([], t) == [] by { NothingOfType(t); }
    } else {
      var c := calls[|calls| - 1];
      var list := Run(calls[..|calls| - 1]);
      FirstOfRun(calls[..|calls| - 1], t);
      FirstAfterSetOne(list, c.level, c.configurationType, c.value, t);
      if c.level == GLOBAL {
        FirstAfterSetFrom(SetOne(list, c.level, c.configurationType, c.value), MIN_VALID, c.configurationType, c.value,
                          t);
        FirstAfterSetFrom(UnsafeSet(list, c.level, c.configurationType, c.value), MIN_VALID, c.configurationType,
                          c.value, t);
      }
    }
  }

  lemma NothingOfType(t: ConfigurationType)
    ensures OfType([], t) == []
  {
  }

  /** After any run whose first call for a type is at Global, the typed lookup of every level gives the value
      most recently set for that level or for Global. */
  lemma LookupIsLatest<T>(calls: seq<Configuration>, t: ConfigurationType, parse: string -> T, l: Level)
    requires FirstCall(calls, t) == Some(GLOBAL)
    requires l == GLOBAL || IsValidLevel(l)
    ensures Latest(calls, l, t).Some?
    ensures Typed(Build(OfType(Run(calls), t), parse), l) == Some(parse(Latest(calls, l, t).value))
  {
    hide Run, Build, OfType, Typed;
    var list := Run(calls);
    var es := OfType(list, t);
    RunIsLatest(calls, l, t);
    RunIsLatest(calls, GLOBAL, t);
    OfTypeValues(list, t, l);
    OfTypeValues(list, t, GLOBAL);
    FirstOfRun(calls, t);
    FirstValue(es);
    AgreesIffFirstIsGlobal(es, parse);
    assert Agrees(es, parse);
    assert Typed(Build(es, parse), l) == Plain(es, l, parse);
    if l != GLOBAL { GlobalCovers(calls, t, l); }
  }

  lemma {:induction false} GlobalCovers(calls: seq<Configuration>, t: ConfigurationType, l: Level)
    requires Latest(calls, GLOBAL, t).Some? && IsValidLevel(l)
    ensures Latest(calls, l, t).Some?
  {
    var n := |calls| - 1;
    if !(calls[n].configurationType == t && Affects(calls[n].level, l)) {
      GlobalCovers(calls[..n], t, l);
    }
  }

  // ----- PerformanceTracking and MillisecondsWidth -----

  /** build() stores every level's value of these two types under Global. */
  function BuildGlobal<T(==)>(es: seq<Configuration>, parse: string -> T): map<Level, T> {
    if es == [] then map[]
    else SetValue(BuildGlobal(es[..|es| - 1], parse), GLOBAL, parse(es[|es| - 1].value))
  }

  /** So the setting registered last decides, whatever its level. */
  lemma {:induction false} LastDecides<T>(es: seq<Configuration>, parse: string -> T)
    ensures BuildGlobal(es, parse) == if es == [] then map[] else map[GLOBAL := parse(es[|es| - 1].value)]
  {
    if es != [] {
      LastDecides(es[..|es| - 1], parse);
    }
  }

  /** The documented rule, that these types are ignored unless set for Global, holds exactly when the setting
      registered last has the value of Global. */
  lemma GlobalDecidesIff<T>(es: seq<Configuration>, parse: string -> T)
    requires ValueAt(es, GLOBAL).Some?
    ensures Typed(BuildGlobal(es, parse), GLOBAL) == Some(parse(ValueAt(es, GLOBAL).value))
       <==> parse(es[|es| - 1].value) == parse(ValueAt(es, GLOBAL).value)
  {
    LastDecides(es, parse);
  }

  // The level whose setting is registered last is Info, the last one forEachLevel visits.

  function LastVisited(l: Level): Level
    requires l > 0
    decreases 2 * MAX_VALID - l
  {
    if 2 * l > MAX_VALID then l else LastVisited(2 * l)
  }

  lemma {:induction false} LastAfterNewLevels(list: seq<Configuration>, l: Level, t: ConfigurationType, v: string)
    requires Distinct(list) && 0 < l <= MAX_VALID
    requires forall l' :: Reaches(l, l') ==> Value(list, l', t).None?
    ensures LastLevel(OfType(SetFrom(list, l, t, v), t)) == Some(LastVisited(l))
    decreases 2 * MAX_VALID - l
  {
    var list' := SetOne(list, l, t, v);
    assert Reaches(l, l);
    FirstAfterSetOne(list, l, t, v, t);
    SetOneValue(list, l, t, v, l, t);
    if 2 * l <= MAX_VALID {
      forall l' | Reaches(2 * l, l') ensures Value(list', l', t).None? {
        ReachesUp(2 * l, l');
        SetOneValue(list, l, t, v, l', t);
      }
      LastAfterNewLevels(list', 2 * l, t, v);
    }
  }

  lemma {:induction false} ReachesUp(l: Level, l': Level)
    requires Reaches(l, l')
    ensures l' >= l
    decreases 2 * MAX_VALID - l
  {
    if l' != l { ReachesUp(2 * l, l'); }
  }

  lemma {:induction false} LastAfterKnownLevels(list: seq<Configuration>, l: Level, t: ConfigurationType, v: string,
                                                t': ConfigurationType)
    requires Distinct(list)
    requires t' != t || forall l' :: Reaches(l, l') ==> Value(list, l', t).Some?
    ensures LastLevel(OfType(SetFrom(list, l, t, v), t')) == LastLevel(OfType(list, t'))
    decreases 2 * MAX_VALID - l
  {
    if 0 < l && l <= MAX_VALID {
      var list' := SetOne(list, l, t, v);
      assert Reaches(l, l);
      FirstAfterSetOne(list, l, t, v, t');
      SetOneValue(list, l, t, v, l, t);
      if t' == t {
        forall l' | Reaches(2 * l, l') ensures Value(list', l', t).Some? {
          SetOneValue(list, l, t, v, l', t);
        }
      }
      LastAfterKnownLevels(list', 2 * l, t, v, t');
    }
  }

  ghost predicate KnownLevelsOnly(calls: seq<Configuration>, t: ConfigurationType) {
    forall i | 0 <= i < |calls| && calls[i].configurationType == t ::
      calls[i].level == GLOBAL || IsValidLevel(calls[i].level)
  }

  lemma {:induction false} NoCallNoValue(calls: seq<Configuration>, t: ConfigurationType, l: Level)
    requires FirstCall(calls, t).None?
    ensures Latest(calls, l, t).None?
  {
    if calls != [] { NoCallNoValue(calls[..|calls| - 1], t, l); }
  }

  lemma {:induction false} FirstCallIsSet(calls: seq<Configuration>, t: ConfigurationType)
    requires FirstCall(calls, t) == Some(GLOBAL)
    ensures Latest(calls, GLOBAL, t).Some?
  {
    var n := |calls| - 1;
    if FirstCall(calls[..n], t).Some? { FirstCallIsSet(calls[..n], t); }
  }

  /** The first Global call registers all levels, Info last. */
  lemma LastAfterFirstGlobal(list: seq<Configuration>, t: ConfigurationType, v: string)
    requires Distinct(list) && forall l :: Value(list, l, t).None?
    ensures LastLevel(OfType(Set(list, GLOBAL, t, v), t)) == Some(MAX_VALID)
  {
    var one := SetOne(list, GLOBAL, t, v);
    forall l | Reaches(MIN_VALID, l) ensures Value(one, l, t).None? {
      ReachesUp(MIN_VALID, l);
      SetOneValue(list, GLOBAL, t, v, l, t);
    }
    SetOneValue(list, GLOBAL, t, v, GLOBAL, t);
    LastAfterNewLevels(one, MIN_VALID, t, v);
    LastVisitedIsInfo();
    var all := SetFrom(one, MIN_VALID, t, v);
    SetFromValue(one, MIN_VALID, t, v, GLOBAL, t);
    forall l | Reaches(MIN_VALID, l) ensures Value(all, l, t).Some? {
      SetFromValue(one, MIN_VALID, t, v, l, t);
    }
    LastAfterKnownLevels(all, MIN_VALID, t, v, t);
  }

  lemma LastVisitedIsInfo()
    ensures LastVisited(MIN_VALID) == MAX_VALID
  {
    assert LastVisited(64) == 128;
    assert LastVisited(32) == 128;
    assert LastVisited(16) == 128;
    assert LastVisited(8) == 128;
  }

  /** A later call finds its levels registered, and registers nothing. */
  lemma LastAfterKnownCall(list: seq<Configuration>, c: Configuration, t: ConfigurationType)
    requires Distinct(list)
    requires c.configurationType == t ==>
               && Value(list, c.level, t).Some?
               && (c.level == GLOBAL ==> forall l :: IsValidLevel(l) ==> Value(list, l, t).Some?)
    ensures LastLevel(OfType(Set(list, c.level, c.configurationType, c.value), t)) == LastLevel(OfType(list, t))
  {
    var one := SetOne(list, c.level, c.configurationType, c.value);
    FirstAfterSetOne(list, c.level, c.configurationType, c.value, t);
    SetOneValue(list, c.level, c.configurationType, c.value, c.level, t);
    if c.level == GLOBAL {
      if c.configurationType == t {
        forall l | Reaches(MIN_VALID, l) ensures Value(one, l, t).Some? {
          ReachesValid(l);
          SetOneValue(list, c.level, t, c.value, l, t);
        }
      }
      LastAfterKnownLevels(one, MIN_VALID, c.configurationType, c.value, t);
      var all := SetFrom(one, MIN_VALID, c.configurationType, c.value);
      SetFromValue(one, MIN_VALID, c.configurationType, c.value, c.level, t);
      if c.configurationType == t {
        forall l | Reaches(MIN_VALID, l) ensures Value(all, l, t).Some? {
          SetFromValue(one, MIN_VALID, t, c.value, l, t);
        }
      }
      LastAfterKnownLevels(all, MIN_VALID, c.configurationType, c.value, t);
    }
  }

  /** The level registered last by a call of its own. After a first call at Global that is a level outside the seven,
      such as Level::Unknown, since Global registers the seven. */
  function LastAdded(calls: seq<Configuration>, t: ConfigurationType): Option<Level> {
    if calls == [] then None
    else
      var before, c := calls[..|calls| - 1], calls[|calls| - 1];
      if c.configurationType == t && c.level != GLOBAL && Latest(before, c.level, t).None? then Some(c.level)
      else LastAdded(before, t)
  }

  /** The level whose setting build() comes to last. */
  function DecidingLevel(calls: seq<Configuration>, t: ConfigurationType): Level {
    match LastAdded(calls, t)
    case Some(l) => l
    case None => MAX_VALID
  }

  lemma {:induction false} NoCallAddsNothing(calls: seq<Configuration>, t: ConfigurationType)
    requires FirstCall(calls, t).None?
    ensures LastAdded(calls, t).None?
  {
    if calls != [] { NoCallAddsNothing(calls[..|calls| - 1], t); }
  }

  lemma {:induction false} AddedIsSet(calls: seq<Configuration>, t: ConfigurationType)
    requires LastAdded(calls, t).Some?
    ensures Latest(calls, LastAdded(calls, t).value, t).Some?
  {
    var n := |calls| - 1;
    if LastAdded(calls[..n], t).Some? { AddedIsSet(calls[..n], t); }
  }

  lemma {:induction false} KnownLevelsAddNothing(calls: seq<Configuration>, t: ConfigurationType)
    requires FirstCall(calls, t) == Some(GLOBAL) && KnownLevelsOnly(calls, t)
    ensures LastAdded(calls, t).None?
  {
    var n := |calls| - 1;
    var before := calls[..n];
    assert KnownLevelsOnly(before, t) by { assert forall i | 0 <= i < n :: before[i] == calls[i]; }
    if FirstCall(before, t).None? {
      NoCallAddsNothing(before, t);
    } else {
      KnownLevelsAddNothing(before, t);
      FirstCallIsSet(before, t);
      if IsValidLevel(calls[n].level) { GlobalCovers(before, t, calls[n].level); }
    }
  }

  /** A call at a level that is not registered yet registers it last. */
  lemma LastAfterNewCall(list: seq<Configuration>, c: Configuration, t: ConfigurationType)
    requires c.configurationType == t && c.level != GLOBAL && Value(list, c.level, t).None?
    ensures LastLevel(OfType(Set(list, c.level, t, c.value), t)) == Some(c.level)
  {
    FirstAfterSetOne(list, c.level, t, c.value, t);
  }

  /** After any run whose first call for a type is at Global, the setting registered last is that of Info, unless some
      call registered a further level after it. */
  lemma {:induction false} LastOfRun(calls: seq<Configuration>, t: ConfigurationType)
    requires FirstCall(calls, t) == Some(GLOBAL)
    ensures LastLevel(OfType(Run(calls), t)) == Some(DecidingLevel(calls, t))
  {
    hide OfType, SetOne, SetFrom, Value, Distinct, Set;
    var n := |calls| - 1;
    var c := calls[n];
    var list := Run(calls[..n]);
    RunIsLatest(calls[..n], GLOBAL, t);
    RunIsLatest(calls[..n], c.level, t);
    if FirstCall(calls[..n], t).None? {
      forall l ensures Value(list, l, t).None? {
        RunIsLatest(calls[..n], l, t);
        NoCallNoValue(calls[..n], t, l);
      }
      NoCallAddsNothing(calls[..n], t);
      LastAfterFirstGlobal(list, t, c.value);
    } else {
      LastOfRun(calls[..n], t);
      FirstCallIsSet(calls[..n], t);
      if c.configurationType == t && c.level != GLOBAL && Latest(calls[..n], c.level, t).None? {
        LastAfterNewCall(list, c, t);
      } else {
        forall l | l == GLOBAL || IsValidLevel(l) ensures Value(list, l, t).Some? {
          RunIsLatest(calls[..n], l, t);
          if l != GLOBAL { GlobalCovers(calls[..n], t, l); }
        }
        LastAfterKnownCall(list, c, t);
      }
    }
  }

  /** After any run whose first call for such a type is at Global, the stored value is the one most recently set for
      the deciding level, which is Info when only Global and the seven levels are used: a later set() for Info
      overrides the global setting, and one for any other of the seven is ignored. */
  lemma PerformanceFollowsInfo<T>(calls: seq<Configuration>, t: ConfigurationType, parse: string -> T)
    requires FirstCall(calls, t) == Some(GLOBAL)
    ensures var latest := Latest(calls, DecidingLevel(calls, t), t);
            latest.Some? && Typed(BuildGlobal(OfType(Run(calls), t), parse), GLOBAL) == Some(parse(latest.value))
    ensures KnownLevelsOnly(calls, t) ==> DecidingLevel(calls, t) == MAX_VALID
  {
    hide Run, OfType, BuildGlobal, Latest, LastAdded;
    var es := OfType(Run(calls), t);
    var level := DecidingLevel(calls, t);
    FirstCallIsSet(calls, t);
    GlobalCovers(calls, t, MAX_VALID);
    if LastAdded(calls, t).Some? { AddedIsSet(calls, t); }
    LastOfRun(calls, t);
    RunIsLatest(calls, level, t);
    OfTypeValues(Run(calls), t, level);
    LastDecides(es, parse);
    if KnownLevelsOnly(calls, t) { KnownLevelsAddNothing(calls, t); }
  }
}
