/** nix::util::string::split. */
module Tokens {
  /** std::string::npos */
  const NPOS := 0xFFFF_FFFF_FFFF_FFFF

  // ----- std::string searches -----

  ghost predicate FirstFrom(s: string, from: nat, pos: nat, p: char -> bool) {
    if pos == NPOS then forall i | from <= i < |s| :: !p(s[i])
    else from <= pos < |s| && p(s[pos]) && forall i | from <= i < pos :: !p(s[i])
  }

  method FindFirstOf(s: string, delimiters: string, from: nat) returns (pos: nat)
    requires |s| < NPOS
    ensures FirstFrom(s, from, pos, c => c in delimiters)
  {
    pos := from;
    while pos < |s|
      invariant from <= pos
      invariant forall i | from <= i < pos && i < |s| :: s[i] !in delimiters
    {
      if s[pos] in delimiters { return; }
      pos := pos + 1;
    }
    pos := NPOS;
  }

  method FindFirstNotOf(s: string, delimiters: string, from: nat) returns (pos: nat)
    requires |s| < NPOS
    ensures FirstFrom(s, from, pos, c => c !in delimiters)
  {
    pos := from;
    while pos < |s|
      invariant from <= pos
      invariant forall i | from <= i < pos && i < |s| :: s[i] in delimiters
    {
      if s[pos] !in delimiters { return; }
      pos := pos + 1;
    }
    pos := NPOS;
  }

  /** s.substr(pos, count): the count is cut at the end of s. */
  function Substr(s: string, pos: nat, count: nat): string
    requires pos <= |s|
  {
    if pos + count <= |s| then s[pos..pos + count] else s[pos..]
  }

  // ----- what a token is -----

  datatype Span = Span(lo: nat, hi: nat)

  /** A maximal, non-empty, delimiter-free run of s. */
  ghost predicate IsRun(s: string, delimiters: string, span: Span) {
    && span.lo < span.hi <= |s|
    && (forall i | span.lo <= i < span.hi :: s[i] !in delimiters)
    && (span.lo > 0 ==> s[span.lo - 1] in delimiters)
    && (span.hi < |s| ==> s[span.hi] in delimiters)
  }

  /** The runs of s that end no later than `upto`, all of them, in order. */
  ghost predicate AreRuns(s: string, delimiters: string, spans: seq<Span>, upto: nat) {
    && (forall k | 0 <= k < |spans| :: IsRun(s, delimiters, spans[k]) && spans[k].hi <= upto)
    && (forall j, k | 0 <= j < k < |spans| :: spans[j].hi < spans[k].lo)
    && (forall i | 0 <= i < upto && i < |s| && s[i] !in delimiters ::
          exists k :: 0 <= k < |spans| && spans[k].lo <= i < spans[k].hi)
  }

  function Text(s: string, span: Span): string {
    if span.lo <= span.hi <= |s| then s[span.lo..span.hi] else []
  }

  function Texts(s: string, spans: seq<Span>): (r: seq<string>)
    ensures |r| == |spans|
  {
    seq(|spans|, k requires 0 <= k < |spans| => Text(s, spans[k]))
  }

  lemma TextsAppend(s: string, spans: seq<Span>, span: Span)
    ensures Texts(s, spans + [span]) == Texts(s, spans) + [Text(s, span)]
  {
  }

  /** The runs of s, found from the right end. */
  function Runs(s: string, delimiters: string): (spans: seq<Span>) {
    if s == [] then []
    else
      var n := |s| - 1;
      var spans := Runs(s[..n], delimiters);
      if s[n] in delimiters then spans
      else if n > 0 && s[n - 1] !in delimiters && spans != [] then
        spans[..|spans| - 1] + [Span(spans[|spans| - 1].lo, n + 1)]
      else spans + [Span(n, n + 1)]
  }

  lemma {:induction false} RunsAreRuns(s: string, delimiters: string)
    ensures AreRuns(s, delimiters, Runs(s, delimiters), |s|)
  {
    hide AreRuns;
    if s == [] {
      StartRuns([], delimiters);
    } else {
      var n := |s| - 1;
      var spans := Runs(s[..n], delimiters);
      RunsAreRuns(s[..n], delimiters);
      if s[n] in delimiters {
        LongerString(s[..n], delimiters, spans, n, s);
        SkipDelimiters(s, delimiters, spans, n, n + 1);
      } else if n > 0 && s[n - 1] !in delimiters {
        ExtendLastRun(s, delimiters, spans, n);
      } else {
        OpenRun(s, delimiters, spans, n);
      }
    }
  }

  lemma OpenRun(s: string, delimiters: string, spans: seq<Span>, n: nat)
    requires n == |s| - 1 && s[n] !in delimiters && (n > 0 ==> s[n - 1] in delimiters)
    requires AreRuns(s[..n], delimiters, spans, n)
    ensures AreRuns(s, delimiters, spans + [Span(n, n + 1)], n + 1)
  {
    forall k | 0 <= k < |spans| ensures spans[k].hi < n {
      assert IsRun(s[..n], delimiters, spans[k]);
      assert s[..n][spans[k].hi - 1] !in delimiters;
    }
    LongerString(s[..n], delimiters, spans, n, s);
    AddRun(s, delimiters, spans, n, Span(n, n + 1));
  }

  lemma ExtendLastRun(s: string, delimiters: string, spans: seq<Span>, n: nat)
    requires 0 < n == |s| - 1 && s[n] !in delimiters && s[n - 1] !in delimiters
    requires AreRuns(s[..n], delimiters, spans, n)
    ensures spans != []
    ensures AreRuns(s, delimiters, spans[..|spans| - 1] + [Span(spans[|spans| - 1].lo, n + 1)], n + 1)
  {
    var before := s[..n];
    assert before[n - 1] !in delimiters;
    var m := |spans| - 1;
    var lo := spans[m].lo;
    assert IsRun(before, delimiters, spans[m]);
    var span := Span(lo, n + 1);
    assert IsRun(s, delimiters, span) by {
      forall i | lo <= i < n + 1 ensures s[i] !in delimiters {
        if i < n { assert s[i] == before[i]; }
      }
    }
    AllButLast(before, delimiters, spans, n);
    BeforeLast(before, delimiters, spans, m);
    LongerString(before, delimiters, spans[..m], lo, s);
    AddRun(s, delimiters, spans[..m], lo, span);
  }

  lemma BeforeLast(s: string, delimiters: string, spans: seq<Span>, m: nat)
    requires m < |spans| && AreRuns(s, delimiters, spans, |s|)
    ensures forall k | 0 <= k < m :: spans[k].hi < spans[m].lo < |s|
  {
    assert IsRun(s, delimiters, spans[m]);
  }

  /** Runs of a prefix are runs of the longer string, unless one of them would grow. */
  lemma LongerString(before: string, delimiters: string, spans: seq<Span>, upto: nat, s: string)
    requires |before| < |s| && s[..|before|] == before && upto <= |before|
    requires s[|before|] in delimiters || forall k | 0 <= k < |spans| :: spans[k].hi < |before|
    requires AreRuns(before, delimiters, spans, upto)
    ensures AreRuns(s, delimiters, spans, upto)
  {
    forall i | 0 <= i < |before| ensures s[i] == before[i] {
      assert s[i] == s[..|before|][i];
    }
    forall k | 0 <= k < |spans| ensures IsRun(s, delimiters, spans[k]) {
      assert IsRun(before, delimiters, spans[k]);
    }
  }

  /** Two enumerations of the runs are the same: the tokens are determined by the string. */
  lemma {:induction false} RunsUnique(s: string, delimiters: string, a: seq<Span>, b: seq<Span>, upto: nat)
    requires AreRuns(s, delimiters, a, upto) && AreRuns(s, delimiters, b, upto)
    ensures a == b
    decreases |a| + |b|
  {
    if a == [] && b == [] {
    } else if a == [] || (|b| > 0 && a[|a| - 1].hi < b[|b| - 1].hi) {
      LastRunsAgree(s, delimiters, b, a, upto);
    } else {
      LastRunsAgree(s, delimiters, a, b, upto);
      var lo := a[|a| - 1].lo;
      AllButLast(s, delimiters, a, upto);
      AllButLast(s, delimiters, b, upto);
      RunsUnique(s, delimiters, a[..|a| - 1], b[..|b| - 1], lo);
    }
  }

  lemma LastRunsAgree(s: string, delimiters: string, a: seq<Span>, b: seq<Span>, upto: nat)
    requires AreRuns(s, delimiters, a, upto) && AreRuns(s, delimiters, b, upto)
    requires a != [] && (b == [] || b[|b| - 1].hi <= a[|a| - 1].hi)
    ensures b != [] && b[|b| - 1] == a[|a| - 1]
  {
    var last := a[|a| - 1];
    assert IsRun(s, delimiters, last);
    assert s[last.hi - 1] !in delimiters;
    var k :| 0 <= k < |b| && b[k].lo <= last.hi - 1 < b[k].hi;
    assert IsRun(s, delimiters, b[k]);
    SameRun(s, delimiters, last, b[k], last.hi - 1);
  }

  /** Runs that share an index are the same run. */
  lemma SameRun(s: string, delimiters: string, a: Span, b: Span, i: nat)
    requires IsRun(s, delimiters, a) && IsRun(s, delimiters, b)
    requires a.lo <= i < a.hi && b.lo <= i < b.hi
    ensures a == b
  {
  }

  lemma AllButLast(s: string, delimiters: string, spans: seq<Span>, upto: nat)
    requires spans != [] && AreRuns(s, delimiters, spans, upto)
    ensures AreRuns(s, delimiters, spans[..|spans| - 1], spans[|spans| - 1].lo)
  {
    var n := |spans| - 1;
    forall i | 0 <= i < spans[n].lo && s[i] !in delimiters
      ensures exists k :: 0 <= k < n && spans[..n][k].lo <= i < spans[..n][k].hi
    {
      var k :| 0 <= k < |spans| && spans[k].lo <= i < spans[k].hi;
      assert spans[..n][k] == spans[k];
    }
  }

  /** The tokens of a string: the texts of its maximal delimiter-free runs, in order. */
  function Split(s: string, delimiters: string): seq<string> {
    Texts(s, Runs(s, delimiters))
  }

  /** split(): appends the tokens of str. */
  method SplitInto(str: string, tokens: seq<string>, delimiters: string) returns (r: seq<string>)
    requires |str| < NPOS
    ensures r == tokens + Split(str, delimiters)
  {
    hide AreRuns, FirstFrom, Texts, Runs;
    r := tokens;
    StartRuns(str, delimiters);
    ghost var spans: seq<Span> := [];
    var lastPos: nat := FindFirstNotOf(str, delimiters, 0);
    var pos: nat := FindFirstOf(str, delimiters, lastPos);
    ghost var upto := if lastPos == NPOS then |str| else lastPos;
    SkipTo(str, delimiters, spans, 0, 0, lastPos);
    BeginToken(str, delimiters, 0, lastPos, pos);
    while pos != NPOS || lastPos != NPOS
      invariant r == tokens + Texts(str, spans)
      invariant upto <= |str| && AreRuns(str, delimiters, spans, upto)
      invariant if lastPos == NPOS then pos == NPOS && upto == |str|
                else AtToken(str, delimiters, lastPos, pos) && upto == lastPos
      decreases |str| - upto, if lastPos == NPOS then 0 else 1
    {
      ghost var span := TokenSpan(str, lastPos, pos);
      AddToken(str, delimiters, spans, lastPos, pos);
      r := r + [Substr(str, lastPos, pos - lastPos)];
      spans := spans + [span];
      ghost var from := pos;
      lastPos := FindFirstNotOf(str, delimiters, pos);
      upto := if lastPos == NPOS then |str| else lastPos;
      SkipTo(str, delimiters, spans, span.hi, from, lastPos);
      pos := FindFirstOf(str, delimiters, lastPos);
      BeginToken(str, delimiters, from, lastPos, pos);
    }
    RunsAreRuns(str, delimiters);
    RunsUnique(str, delimiters, spans, Runs(str, delimiters), |str|);
  }

  /** lastPos starts a token and pos is the next delimiter. */
  ghost predicate AtToken(s: string, delimiters: string, lastPos: nat, pos: nat) {
    && lastPos < |s| && s[lastPos] !in delimiters
    && (lastPos > 0 ==> s[lastPos - 1] in delimiters)
    && FirstFrom(s, lastPos, pos, c => c in delimiters)
  }

  ghost function TokenSpan(s: string, lastPos: nat, pos: nat): Span {
    Span(lastPos, if pos == NPOS then |s| else pos)
  }

  lemma StartRuns(s: string, delimiters: string)
    ensures AreRuns(s, delimiters, [], 0) && Texts(s, []) == []
  {
  }

  /** The delimiters skipped by find_first_not_of add no runs. */
  lemma SkipTo(s: string, delimiters: string, spans: seq<Span>, from: nat, pos: nat, next: nat)
    requires |s| < NPOS && from <= |s| && AreRuns(s, delimiters, spans, from)
    requires from == if pos == NPOS then |s| else pos
    requires FirstFrom(s, pos, next, c => c !in delimiters)
    ensures next == NPOS ==> AreRuns(s, delimiters, spans, |s|)
    ensures next != NPOS ==> from <= next < |s| && AreRuns(s, delimiters, spans, next)
  {
    SkipDelimiters(s, delimiters, spans, from, if next == NPOS then |s| else next);
  }

  lemma BeginToken(s: string, delimiters: string, from: nat, next: nat, pos: nat)
    requires |s| < NPOS
    requires FirstFrom(s, from, next, c => c !in delimiters) && FirstFrom(s, next, pos, c => c in delimiters)
    requires 0 < from < |s| ==> s[from] in delimiters
    ensures next == NPOS ==> pos == NPOS
    ensures next != NPOS ==> AtToken(s, delimiters, next, pos)
  {
  }

  lemma AddToken(s: string, delimiters: string, spans: seq<Span>, lastPos: nat, pos: nat)
    requires |s| < NPOS && AreRuns(s, delimiters, spans, lastPos) && AtToken(s, delimiters, lastPos, pos)
    ensures lastPos < TokenSpan(s, lastPos, pos).hi <= |s| && lastPos <= pos
    ensures pos < |s| ==> s[pos] in delimiters
    ensures AreRuns(s, delimiters, spans + [TokenSpan(s, lastPos, pos)], TokenSpan(s, lastPos, pos).hi)
    ensures Texts(s, spans + [TokenSpan(s, lastPos, pos)]) == Texts(s, spans) + [Substr(s, lastPos, pos - lastPos)]
  {
    AddRun(s, delimiters, spans, lastPos, TokenSpan(s, lastPos, pos));
    TextsAppend(s, spans, TokenSpan(s, lastPos, pos));
    assert Text(s, TokenSpan(s, lastPos, pos)) == Substr(s, lastPos, pos - lastPos);
  }

  lemma AddRun(s: string, delimiters: string, spans: seq<Span>, upto: nat, span: Span)
    requires AreRuns(s, delimiters, spans, upto) && IsRun(s, delimiters, span) && span.lo == upto
    ensures AreRuns(s, delimiters, spans + [span], span.hi)
  {
    var all := spans + [span];
    forall k | 0 <= k < |spans| ensures spans[k].hi < span.lo {
      assert IsRun(s, delimiters, spans[k]);
    }
    forall i | 0 <= i < span.hi && s[i] !in delimiters
      ensures exists k :: 0 <= k < |all| && all[k].lo <= i < all[k].hi
    {
      if i < upto {
        var k :| 0 <= k < |spans| && spans[k].lo <= i < spans[k].hi;
        assert all[k] == spans[k];
      } else {
        assert all[|spans|] == span;
      }
    }
  }

  lemma SkipDelimiters(s: string, delimiters: string, spans: seq<Span>, from: nat, upto: nat)
    requires AreRuns(s, delimiters, spans, from) && from <= upto <= |s|
    requires forall i | from <= i < upto :: s[i] in delimiters
    ensures AreRuns(s, delimiters, spans, upto)
  {
  }

  // ----- joining -----

  /** Keys joined by a separator. */
  function Join(keys: seq<string>, sep: char): string {
    if keys == [] then []
    else if |keys| == 1 then keys[0]
    else Join(keys[..|keys| - 1], sep) + [sep] + keys[|keys| - 1]
  }

  ghost predicate IsKey(key: string, sep: char) {
    key != [] && sep !in key
  }

  function KeySpans(keys: seq<string>, sep: char): seq<Span> {
    if keys == [] then []
    else
      var n := |keys| - 1;
      KeySpans(keys[..n], sep) + [Span(|Join(keys, sep)| - |keys[n]|, |Join(keys, sep)|)]
  }

  /** Splitting inverts joining for every list of non-empty keys without the separator. */
  lemma SplitOfJoin(keys: seq<string>, sep: char)
    requires forall k | 0 <= k < |keys| :: IsKey(keys[k], sep)
    ensures Split(Join(keys, sep), [sep]) == keys
  {
    var s := Join(keys, sep);
    KeySpansAreRuns(keys, sep);
    RunsAreRuns(s, [sep]);
    RunsUnique(s, [sep], KeySpans(keys, sep), Runs(s, [sep]), |s|);
  }

  /** Every path has a normal spelling, its keys joined by single separators, that splits into the same keys. */
  lemma SplitIsNormal(s: string, sep: char)
    ensures Split(Join(Split(s, [sep]), sep), [sep]) == Split(s, [sep])
    ensures forall k | 0 <= k < |Split(s, [sep])| :: IsKey(Split(s, [sep])[k], sep)
  {
    var spans := Runs(s, [sep]);
    RunsAreRuns(s, [sep]);
    forall k | 0 <= k < |spans| ensures IsKey(Text(s, spans[k]), sep) {
      assert IsRun(s, [sep], spans[k]);
    }
    SplitOfJoin(Split(s, [sep]), sep);
  }

  lemma {:induction false} KeySpansAreRuns(keys: seq<string>, sep: char)
    requires forall k | 0 <= k < |keys| :: IsKey(keys[k], sep)
    ensures AreRuns(Join(keys, sep), [sep], KeySpans(keys, sep), |Join(keys, sep)|)
    ensures Texts(Join(keys, sep), KeySpans(keys, sep)) == keys
  {
    hide AreRuns, IsKey, Texts;
    if keys == [] {
      StartRuns([], [sep]);
    } else {
      var n := |keys| - 1;
      KeySpansAreRuns(keys[..n], sep);
      AppendKey(Join(keys[..n], sep), sep, KeySpans(keys[..n], sep), keys[n], Join(keys, sep));
      assert keys == keys[..n] + [keys[n]];
    }
  }

  /** One more key at the end of a joined string. */
  lemma AppendKey(before: string, sep: char, spans: seq<Span>, key: string, s: string)
    requires AreRuns(before, [sep], spans, |before|) && IsKey(key, sep)
    requires s == before + [sep] + key || (before == [] && s == key)
    ensures s[|s| - |key|..] == key
    ensures var all := spans + [Span(|s| - |key|, |s|)];
            AreRuns(s, [sep], all, |s|) && Texts(s, all) == Texts(before, spans) + [key]
  {
    hide AreRuns, Texts, IsRun, Text, IsKey;
    var lo := |s| - |key|;
    KeyIsRun(s, sep, key);
    if |s| == |key| {
      NoSpans(sep, spans);
      StartRuns(s, [sep]);
      StartRuns(before, [sep]);
    } else {
      KeepRuns(before, sep, spans, key, s);
    }
    AddRun(s, [sep], spans, lo, Span(lo, |s|));
    TextsAppend(s, spans, Span(lo, |s|));
  }

  lemma KeyIsRun(s: string, sep: char, key: string)
    requires IsKey(key, sep) && |key| <= |s| && s[|s| - |key|..] == key
    requires |key| < |s| ==> s[|s| - |key| - 1] == sep
    ensures IsRun(s, [sep], Span(|s| - |key|, |s|)) && Text(s, Span(|s| - |key|, |s|)) == key
  {
    var lo := |s| - |key|;
    forall i | lo <= i < |s| ensures s[i] !in [sep] {
      assert s[i] == key[i - lo];
    }
    assert s[lo..|s|] == s[lo..];
  }

  lemma KeepRuns(before: string, sep: char, spans: seq<Span>, key: string, s: string)
    requires AreRuns(before, [sep], spans, |before|) && s == before + [sep] + key
    ensures AreRuns(s, [sep], spans, |before| + 1) && Texts(s, spans) == Texts(before, spans)
  {
    assert s[..|before|] == before && s[|before|] == sep;
    LongerString(before, [sep], spans, |before|, s);
    SkipDelimiters(s, [sep], spans, |before|, |before| + 1);
    SameTexts(before, [sep], spans, s);
  }

  lemma NoSpans(sep: char, spans: seq<Span>)
    requires AreRuns([], [sep], spans, 0)
    ensures spans == []
  {
    assert spans != [] ==> IsRun([], [sep], spans[0]);
  }

  lemma SameTexts(before: string, delimiters: string, spans: seq<Span>, s: string)
    requires |before| < |s| && s[..|before|] == before && AreRuns(before, delimiters, spans, |before|)
    ensures Texts(s, spans) == Texts(before, spans)
  {
    forall k | 0 <= k < |spans| ensures Text(s, spans[k]) == Text(before, spans[k]) {
      assert IsRun(before, delimiters, spans[k]);
      SameSlice(before, s, spans[k].lo, spans[k].hi);
    }
  }

  lemma SameSlice(before: string, s: string, lo: nat, hi: nat)
    requires lo <= hi <= |before| <= |s| && s[..|before|] == before
    ensures s[lo..hi] == before[lo..hi]
  {
    assert s[..|before|][lo..hi] == s[lo..hi];
  }
}
