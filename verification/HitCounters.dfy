/** HitCounter and RegisteredHitCounters::validateEveryN: log every n-th call of a call site. */
module HitCounters {
  import opened Remainders

  /** base::consts::kMaxLogPerCounter */
  const MAX: nat := 100000

  datatype Site = Site(filename: string, lineNumber: nat)

  /** The count after validateHitCounts(n). */
  function Next(count: nat, n: nat): nat {
    (if count >= MAX then (if n >= 1 then MAX % n else 0) else count) + 1
  }

  predicate Hit(count: nat, n: nat) {
    n >= 1 && count != 0 && count % n == 0
  }

  // ----- the classes -----

  class HitCounter {
    const site: Site
    var hitCounts: nat

    constructor (site: Site)
      ensures this.site == site && hitCounts == 0
    {
      this.site := site;
      hitCounts := 0;
    }

    method ValidateHitCounts(n: nat)
      modifies this
      ensures hitCounts == Next(old(hitCounts), n)
    {
      if hitCounts >= MAX {
        hitCounts := if n >= 1 then MAX % n else 0;
      }
      hitCounts := hitCounts + 1;
    }
  }

  class RegisteredHitCounters {
    var list: seq<HitCounter>

    /** Each call site is registered at most once. */
    ghost predicate Valid()
      reads this
    {
      forall i, j | 0 <= i < j < |list| :: list[i].site != list[j].site
    }

    ghost predicate Registered(site: Site, count: nat)
      reads this, list
    {
      exists i :: 0 <= i < |list| && list[i].site == site && list[i].hitCounts == count
    }

    /** The stored count of a site; 0 before its first call. */
    ghost function Count(site: Site): nat
      reads this, list
    {
      if c: nat :| Registered(site, c) then c else 0
    }

    constructor ()
      ensures Valid() && list == []
    {
      list := [];
    }

    /** get(): the first counter the predicate accepts. */
    method Get(site: Site) returns (i: nat)
      ensures i <= |list| && (i < |list| ==> list[i].site == site)
      ensures forall j | 0 <= j < i :: list[j].site != site
    {
      i := 0;
      while i < |list| && list[i].site != site
        invariant i <= |list|
        invariant forall j | 0 <= j < i :: list[j].site != site
      {
        i := i + 1;
      }
    }

    method ValidateEveryN(site: Site, n: nat) returns (result: bool)
      requires Valid()
      modifies this, list
      ensures Valid()
      ensures forall s :: Count(s) == if s == site then Next(old(Count(site)), n) else old(Count(s))
      ensures result == Hit(Next(old(Count(site)), n), n)
    {
      var i := Get(site);
      ghost var known := list;
      if i == |list| {
        var counter := new HitCounter(site);
        list := list + [counter];
        assert old(Count(site)) == 0;
      } else {
        assert old(Count(site)) == list[i].hitCounts by { CountAt(i); }
      }
      assert Valid();
      ghost var before := list[i].hitCounts;
      list[i].ValidateHitCounts(n);
      CountAt(i);
      forall s | s != site ensures Count(s) == old(Count(s)) {
        forall c: nat ensures Registered(s, c) <==> old(Registered(s, c)) {
          if j :| 0 <= j < |known| && known[j].site == s && old(known[j].hitCounts) == c {
            assert list[j] == known[j] && list[j].hitCounts == c;
          }
          if j :| 0 <= j < |list| && list[j].site == s && list[j].hitCounts == c {
            assert j < |known| && known[j] == list[j] && old(known[j].hitCounts) == c;
          }
        }
      }
      result := n >= 1 && list[i].hitCounts != 0 && list[i].hitCounts % n == 0;
    }

    lemma CountAt(i: nat)
      requires Valid() && i < |list|
      ensures Count(list[i].site) == list[i].hitCounts
    {
      assert Registered(list[i].site, list[i].hitCounts);
    }
  }

  // ----- runs -----

  datatype Call = Call(site: Site, n: nat)

  /** The stored count of a site after the calls. */
  function CountAfter(calls: seq<Call>, site: Site): nat {
    if calls == [] then 0
    else
      var last := calls[|calls| - 1];
      var count := CountAfter(calls[..|calls| - 1], site);
      if last.site == site then Next(count, last.n) else count
  }

  /** How many of the calls are this site's. */
  function CallsOf(calls: seq<Call>, site: Site): nat {
    if calls == [] then 0
    else CallsOf(calls[..|calls| - 1], site) + if calls[|calls| - 1].site == site then 1 else 0
  }

  /** The count after k calls of one site alone. */
  function Alone(k: nat, n: nat): nat {
    if k == 0 then 0 else Next(Alone(k - 1, n), n)
  }

  ghost predicate FixedN(calls: seq<Call>, site: Site, n: nat) {
    forall i | 0 <= i < |calls| && calls[i].site == site :: calls[i].n == n
  }

  /** Calls of other sites, with whatever n, do not matter. */
  lemma {:induction false} SitesAreIndependent(calls: seq<Call>, site: Site, n: nat)
    requires FixedN(calls, site, n)
    ensures CountAfter(calls, site) == Alone(CallsOf(calls, site), n)
  {
    if calls != [] {
      SitesAreIndependent(calls[..|calls| - 1], site, n);
    }
  }

  /** For 1 <= n <= 100000 the stored count stays congruent to the number of calls and never passes 100000. */
  lemma {:induction false} CountIsCongruent(k: nat, n: nat)
    requires 1 <= n <= MAX
    ensures Alone(k, n) % n == k % n
    ensures Alone(k, n) <= MAX
    ensures k > 0 ==> Alone(k, n) > 0
  {
    if k > 0 {
      CountIsCongruent(k - 1, n);
      var c := Alone(k - 1, n);
      var c' := if c >= MAX then MAX % n else c;
      ModOfMod(MAX, n);
      assert c' % n == (k - 1) % n;
      SuccMod(c', k - 1, n);
    }
  }

  lemma ModOfMod(a: nat, n: nat)
    requires n >= 1
    ensures a % n % n == a % n && a % n <= n - 1
  {
    var r := a % n;
    assert 0 <= r < n;
    assert r / n == 0;
  }

  lemma SuccMod(a: nat, b: nat, n: nat)
    requires n >= 1 && a % n == b % n
    ensures (a + 1) % n == (b + 1) % n
  {
    StepMod(a, n);
    StepMod(b, n);
  }

  lemma StepMod(a: nat, n: nat)
    requires n >= 1
    ensures (a + 1) % n == if a % n == n - 1 then 0 else a % n + 1
  {
    var q, r := a / n, a % n;
    assert a == n * q + r;
    if r == n - 1 {
      Distribute(n, -1, q);
      RemainderUnique(a + 1, n, q + 1, 0);
    } else {
      RemainderUnique(a + 1, n, q, r + 1);
    }
  }

  /** The k-th call of a site is a hit exactly when n divides k, whatever the other sites do. */
  lemma EveryNth(calls: seq<Call>, site: Site, n: nat)
    requires 1 <= n <= MAX && FixedN(calls, site, n) && calls != [] && calls[|calls| - 1].site == site
    ensures Hit(CountAfter(calls, site), n) <==> CallsOf(calls, site) % n == 0
    ensures CountAfter(calls, site) <= MAX
  {
    SitesAreIndependent(calls, site, n);
    CountIsCongruent(CallsOf(calls, site), n);
  }

  /** Whatever mixture of n, from 0 to 100000, a site is called with, its count never exceeds 100000. */
  lemma {:induction false} CountBounded(calls: seq<Call>, site: Site)
    requires forall i | 0 <= i < |calls| && calls[i].site == site :: calls[i].n <= MAX
    ensures CountAfter(calls, site) <= 100000
  {
    if calls != [] {
      CountBounded(calls[..|calls| - 1], site);
      var last := calls[|calls| - 1];
      if last.site == site && last.n >= 1 { ModOfMod(MAX, last.n); }
    }
  }

  /** With n zero the count goes round from 1 to 100000 and no call is a hit. */
  lemma {:induction false} ZeroGoesRound(k: nat)
    ensures Alone(k, 0) == if k == 0 then 0 else (k - 1) % 100000 + 1
    ensures !Hit(Alone(k, 0), 0)
  {
    if k > 1 {
      ZeroGoesRound(k - 1);
      ZeroStep(k - 2, Alone(k - 1, 0));
    }
  }

  lemma ZeroStep(k: nat, count: nat)
    requires count == k % 100000 + 1
    ensures Next(count, 0) == (k + 1) % 100000 + 1
  {
    StepMod(k, 100000);
  }

  ghost predicate HitsEveryNth(n: nat) {
    forall k: nat :: k >= 1 ==> (Hit(Alone(k, n), n) <==> n >= 1 && k % n == 0)
  }

  /** Above the limit the count sticks at 100001. */
  lemma {:induction false} CountSticks(k: nat, n: nat)
    requires n > MAX
    ensures Alone(k, n) == if k <= MAX + 1 then k else MAX + 1
  {
    if k > 0 {
      CountSticks(k - 1, n);
      assert MAX % n == MAX;
    }
  }

  /** The promise "every n-th call" is kept exactly for n up to 100000. */
  lemma HitsEveryNthIff(n: nat)
    ensures HitsEveryNth(n) <==> n <= MAX
  {
    hide Alone;
    if n == 0 {
    } else if n <= MAX {
      forall k: nat | k >= 1 ensures Hit(Alone(k, n), n) <==> k % n == 0 {
        CountIsCongruent(k, n);
      }
    } else {
      PromiseBroken(n);
    }
  }

  /** 100001 is hit by every call after the 100001st; a larger n is never hit. */
  lemma PromiseBroken(n: nat)
    requires n > MAX
    ensures !HitsEveryNth(n)
  {
    hide Alone;
    var k := if n == MAX + 1 then n + 1 else n;
    CountSticks(k, n);
    if n == MAX + 1 {
      RemainderUnique(k, n, 1, 1);
      RemainderUnique(n, n, 1, 0);
    } else {
      RemainderUnique(MAX + 1, n, 0, MAX + 1);
      RemainderUnique(k, n, 1, 0);
    }
    assert Hit(Alone(k, n), n) != (k % n == 0);
  }
}
