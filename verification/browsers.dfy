/** Which browser each page load of phase two runs in. `safe_get` closes a
    browser whose load failed and opens a new one, and hands the browser it
    ended with back to its caller. `scrape_profile` loads the profile page and
    then each alternate location, every load starting from the browser the
    previous one returned, but does not hand the last one on, so
    `scrape_all_profiles` keeps the browser it passed in. Browsers are numbered in the order they
    are started; the model tracks the open ones. Reconnections are taken to
    succeed and profiles not to raise, so that only the browser threading
    varies.
 */
module Browsers {
  import Session

  /** The open browsers, and the number the next browser started gets. */
  datatype Pool = Pool(open: set<nat>, next: nat)

  /** Every open browser was started before the next number. */
  predicate Valid(p: Pool) {
    forall x :: x in p.open ==> x < p.next
  }

  /** Starting a browser: it gets the next number and is open. */
  function Launch(p: Pool): (r: (nat, Pool))
    ensures r.0 == p.next && r.1.open == p.open + {p.next} && r.1.next == p.next + 1
  {
    (p.next, Pool(p.open + {p.next}, p.next + 1))
  }

  /** `driver.quit()`; quitting a closed browser changes nothing. */
  function Quit(p: Pool, d: nat): (q: Pool)
    ensures q.open == p.open - {d} && q.next == p.next
  {
    Pool(p.open - {d}, p.next)
  }

  /** The result of `safe_get`: the pool afterwards, the browser it returns,
      whether the page loaded, and the attempts made. */
  datatype Get = Get(pool: Pool, driver: nat, loaded: bool, attempts: nat)

  /** `safe_get` from attempt `i` on browser `d`: the attempt loads when `d`
      is open and the site serves the page (`serves(i)`); a load in a closed
      browser raises. A failed attempt closes `d` and starts a new browser. */
  function SafeGetFrom(p: Pool, d: nat, serves: nat -> bool, i: nat): (g: Get)
    requires i < Session.MaxLoadAttempts
    ensures i < g.attempts <= Session.MaxLoadAttempts
    decreases Session.MaxLoadAttempts - i
  {
    if d in p.open && serves(i) then Get(p, d, true, i + 1)
    else
      var l := Launch(Quit(p, d));
      if i + 1 == Session.MaxLoadAttempts then Get(l.1, l.0, false, i + 1)
      else SafeGetFrom(l.1, l.0, serves, i + 1)
  }

  /** The loads of one profile: the pool at the end, the browser the last
      load returned, and the attempts each load took. */
  datatype Loads = Loads(pool: Pool, driver: nat, attempts: seq<nat>)

  /** Loads `j..m-1` of one profile, each `safe_get` starting from the browser
      the previous one returned: load 0 is the profile page, load `t >= 1`
      the `t`-th alternate location. `serves(t)` is the site's behaviour for
      load `t`. */
  function LoadsFrom(p: Pool, d: nat, serves: nat -> (nat -> bool), j: nat, m: nat): (v: Loads)
    ensures |v.attempts| == if j < m then m - j else 0
    decreases m - j
  {
    if j >= m then Loads(p, d, [])
    else
      var g := SafeGetFrom(p, d, serves(j), 0);
      var rest := LoadsFrom(g.pool, g.driver, serves, j + 1, m);
      Loads(rest.pool, rest.driver, [g.attempts] + rest.attempts)
  }

  /** `scrape_profile` for the profile at `k`: its page and its `alts(k)`
      alternate locations. */
  function Visit(p: Pool, d: nat, serves: nat -> nat -> (nat -> bool), alts: nat -> nat, k: nat): (v: Loads)
    ensures |v.attempts| == 1 + alts(k)
  {
    LoadsFrom(p, d, serves(k), 0, 1 + alts(k))
  }

  /** A run of phase two: the pool at the end, the browser the loop holds,
      and, per profile, the attempts each of its loads took. */
  datatype Run = Run(pool: Pool, driver: nat, attempts: seq<seq<nat>>)

  /** Profiles `k..n-1` as the source threads the browser: each profile
      starts from the loop's browser, and the browser its last load returns
      is dropped. `serves(k)(t)` is the site's behaviour for load `t` of
      profile `k`. */
  function ProfilesAsWritten(p: Pool, d: nat, serves: nat -> nat -> (nat -> bool), alts: nat -> nat, k: nat, n: nat): (r: Run)
    ensures |r.attempts| == if k < n then n - k else 0
    ensures forall j :: 0 <= j < |r.attempts| ==> |r.attempts[j]| == 1 + alts(k + j)
    decreases n - k
  {
    if k >= n then Run(p, d, [])
    else
      var v := Visit(p, d, serves, alts, k);
      var rest := ProfilesAsWritten(v.pool, d, serves, alts, k + 1, n);
      Run(rest.pool, rest.driver, [v.attempts] + rest.attempts)
  }

  /** The same with the browser a profile's last load returns carried on to
      the next profile. */
  function ProfilesCorrected(p: Pool, d: nat, serves: nat -> nat -> (nat -> bool), alts: nat -> nat, k: nat, n: nat): (r: Run)
    ensures |r.attempts| == if k < n then n - k else 0
    ensures forall j :: 0 <= j < |r.attempts| ==> |r.attempts[j]| == 1 + alts(k + j)
    decreases n - k
  {
    if k >= n then Run(p, d, [])
    else
      var v := Visit(p, d, serves, alts, k);
      var rest := ProfilesCorrected(v.pool, v.driver, serves, alts, k + 1, n);
      Run(rest.pool, rest.driver, [v.attempts] + rest.attempts)
  }

  /** Phase two from its first browser to the final `driver.quit()`. */
  function PhaseAsWritten(serves: nat -> nat -> (nat -> bool), alts: nat -> nat, n: nat): Run {
    var l := Launch(Pool({}, 0));
    var r := ProfilesAsWritten(l.1, l.0, serves, alts, 0, n);
    Run(Quit(r.pool, r.driver), r.driver, r.attempts)
  }

  function PhaseCorrected(serves: nat -> nat -> (nat -> bool), alts: nat -> nat, n: nat): Run {
    var l := Launch(Pool({}, 0));
    var r := ProfilesCorrected(l.1, l.0, serves, alts, 0, n);
    Run(Quit(r.pool, r.driver), r.driver, r.attempts)
  }

  /** With one open browser, `safe_get` ends with exactly one open browser,
      the one it returns, and loads at the first attempt whenever the site
      serves it. */
  lemma {:induction false} SafeGetKeepsOne(p: Pool, d: nat, serves: nat -> bool, i: nat)
    requires i < Session.MaxLoadAttempts
    requires p.open == {d} && d < p.next
    ensures var g := SafeGetFrom(p, d, serves, i);
            g.pool.open == {g.driver} && g.driver < g.pool.next
    ensures serves(i) ==> SafeGetFrom(p, d, serves, i).attempts == i + 1
    decreases Session.MaxLoadAttempts - i
  {
    if !serves(i) {
      var l := Launch(Quit(p, d));
      assert l.1.open == {l.0};
      if i + 1 < Session.MaxLoadAttempts {
        SafeGetKeepsOne(l.1, l.0, serves, i + 1);
      }
    }
  }

  /** Every load of a profile that the site serves at the first attempt took
      only that attempt. */
  predicate ServedOnce(attempts: seq<nat>, serves: nat -> nat -> (nat -> bool), k: nat) {
    forall t :: 0 <= t < |attempts| && serves(k)(t)(0) ==> attempts[t] == 1
  }

  /** Within one profile each load starts from the browser the previous one
      returned, so with one open browser the profile ends with exactly one,
      the one its last load returned, and every load the site serves takes a
      single attempt. */
  lemma {:induction false} LoadsKeepOne(p: Pool, d: nat, serves: nat -> (nat -> bool), j: nat, m: nat)
    requires p.open == {d} && d < p.next
    ensures var v := LoadsFrom(p, d, serves, j, m);
            v.pool.open == {v.driver} && v.driver < v.pool.next
    ensures var v := LoadsFrom(p, d, serves, j, m);
            forall t :: 0 <= t < |v.attempts| && serves(j + t)(0) ==> v.attempts[t] == 1
    decreases m - j
  {
    if j < m {
      var g := SafeGetFrom(p, d, serves(j), 0);
      SafeGetKeepsOne(p, d, serves(j), 0);
      LoadsKeepOne(g.pool, g.driver, serves, j + 1, m);
      var rest := LoadsFrom(g.pool, g.driver, serves, j + 1, m);
      var v := LoadsFrom(p, d, serves, j, m);
      forall t | 0 <= t < |v.attempts| && serves(j + t)(0)
        ensures v.attempts[t] == 1
      {
        if t > 0 {
          assert v.attempts[t] == rest.attempts[t - 1];
          assert j + t == (j + 1) + (t - 1);
        }
      }
    }
  }

  /** The same for a whole profile. */
  lemma VisitKeepsOne(p: Pool, d: nat, serves: nat -> nat -> (nat -> bool), alts: nat -> nat, k: nat)
    requires p.open == {d} && d < p.next
    ensures var v := Visit(p, d, serves, alts, k);
            && v.pool.open == {v.driver} && v.driver < v.pool.next
            && ServedOnce(v.attempts, serves, k)
  {
    LoadsKeepOne(p, d, serves(k), 0, 1 + alts(k));
    var v := Visit(p, d, serves, alts, k);
    forall t | 0 <= t < |v.attempts| && serves(k)(t)(0)
      ensures v.attempts[t] == 1
    {
      assert serves(k)(0 + t)(0);
    }
  }

  /** Carrying the returned browser on, the loop always holds the one open
      browser, and every load the site serves takes a single attempt. */
  lemma {:induction false} CorrectedKeepsOne(p: Pool, d: nat, serves: nat -> nat -> (nat -> bool), alts: nat -> nat, k: nat, n: nat)
    requires p.open == {d} && d < p.next
    ensures ProfilesCorrected(p, d, serves, alts, k, n).pool.open == {ProfilesCorrected(p, d, serves, alts, k, n).driver}
    ensures ProfilesCorrected(p, d, serves, alts, k, n).driver < ProfilesCorrected(p, d, serves, alts, k, n).pool.next
    ensures AllServedOnce(ProfilesCorrected(p, d, serves, alts, k, n).attempts, serves, k)
    decreases n - k
  {
    if k < n {
      var v := Visit(p, d, serves, alts, k);
      VisitKeepsOne(p, d, serves, alts, k);
      CorrectedKeepsOne(v.pool, v.driver, serves, alts, k + 1, n);
      var rest := ProfilesCorrected(v.pool, v.driver, serves, alts, k + 1, n);
      var r := ProfilesCorrected(p, d, serves, alts, k, n);
      assert r.attempts == [v.attempts] + rest.attempts;
      ServedShift(r.attempts, v.attempts, rest.attempts, serves, k);
    }
  }

  /** Every profile from the `k`-th on loads each page the site serves at the
      first attempt. */
  predicate AllServedOnce(attempts: seq<seq<nat>>, serves: nat -> nat -> (nat -> bool), k: nat) {
    forall j :: 0 <= j < |attempts| ==> ServedOnce(attempts[j], serves, k + j)
  }

  lemma ServedShift(a: seq<seq<nat>>, x: seq<nat>, b: seq<seq<nat>>, serves: nat -> nat -> (nat -> bool), k: nat)
    requires a == [x] + b && ServedOnce(x, serves, k) && AllServedOnce(b, serves, k + 1)
    ensures AllServedOnce(a, serves, k)
  {
    forall j | 0 <= j < |a|
      ensures ServedOnce(a[j], serves, k + j)
    {
      if j > 0 {
        assert a[j] == b[j - 1] && k + j == k + 1 + (j - 1);
      }
    }
  }

  lemma CorrectedStep(a: seq<seq<nat>>, x: seq<nat>, b: seq<seq<nat>>, j: nat)
    requires a == [x] + b && 0 < j < |a|
    ensures a[j] == b[j - 1]
  {
  }

  /** The corrected phase leaves no browser open, and loads every served
      page at the first attempt. */
  lemma CorrectedPhase(serves: nat -> nat -> (nat -> bool), alts: nat -> nat, n: nat)
    ensures PhaseCorrected(serves, alts, n).pool.open == {}
    ensures var r := PhaseCorrected(serves, alts, n);
            |r.attempts| == n && forall j :: 0 <= j < n ==> ServedOnce(r.attempts[j], serves, j)
  {
    var p0 := Pool({0}, 1);
    assert Launch(Pool({}, 0)) == (0, p0) by {
      assert {} + {0} == {0};
    }
    CorrectedKeepsOne(p0, 0, serves, alts, 0, n);
    var r := ProfilesCorrected(p0, 0, serves, alts, 0, n);
    assert PhaseCorrected(serves, alts, n) == Run(Quit(r.pool, r.driver), r.driver, r.attempts);
    forall j | 0 <= j < n
      ensures ServedOnce(r.attempts[j], serves, j)
    {
      assert ServedOnce(r.attempts[j], serves, 0 + j);
    }
  }

  /** `safe_get` in a closed browser never loads at the first attempt and
      leaves the closed browser closed; it returns a browser it started, which
      stays open. */
  lemma SafeGetFromClosed(p: Pool, d: nat, serves: nat -> bool)
    requires Valid(p) && d !in p.open && d < p.next
    ensures var g := SafeGetFrom(p, d, serves, 0);
            && g.attempts >= 2
            && Valid(g.pool) && d !in g.pool.open && d < g.pool.next
            && p.open < g.pool.open
            && g.driver in g.pool.open && g.driver !in p.open && p.next <= g.pool.next
  {
    var l := Launch(Quit(p, d));
    assert l.1.open - {l.0} == p.open;
    SafeGetFreshOpen(l.1, l.0, serves, 1);
    var g := SafeGetFrom(p, d, serves, 0);
    assert g.driver in g.pool.open && g.driver !in p.open;
  }

  /** From an open browser `d`, `safe_get` keeps every other open browser
      open, and returns an open browser that is `d` or one it started. */
  lemma {:induction false} SafeGetFreshOpen(p: Pool, d: nat, serves: nat -> bool, i: nat)
    requires i < Session.MaxLoadAttempts
    requires Valid(p) && d in p.open
    ensures var g := SafeGetFrom(p, d, serves, i);
            && Valid(g.pool)
            && g.driver in g.pool.open
            && p.open - {d} <= g.pool.open
            && g.pool.next >= p.next
            && (g.driver == d || g.driver >= p.next)
            && (forall x :: x in g.pool.open && x !in p.open ==> x >= p.next)
    decreases Session.MaxLoadAttempts - i
  {
    if !serves(i) {
      var l := Launch(Quit(p, d));
      assert l.1.open - {l.0} == p.open - {d};
      if i + 1 < Session.MaxLoadAttempts {
        SafeGetFreshOpen(l.1, l.0, serves, i + 1);
      }
    }
  }

  /** `safe_get` only ever opens browsers it starts, so a browser closed
      before it stays closed. */
  lemma {:induction false} SafeGetKeepsClosed(p: Pool, d: nat, serves: nat -> bool, i: nat, x: nat)
    requires i < Session.MaxLoadAttempts
    requires x !in p.open && x < p.next
    ensures var g := SafeGetFrom(p, d, serves, i);
            x !in g.pool.open && p.next <= g.pool.next
    decreases Session.MaxLoadAttempts - i
  {
    if !(d in p.open && serves(i)) {
      var l := Launch(Quit(p, d));
      if i + 1 < Session.MaxLoadAttempts {
        SafeGetKeepsClosed(l.1, l.0, serves, i + 1, x);
      }
    }
  }

  /** The same for the loads of one profile. */
  lemma {:induction false} LoadsKeepClosed(p: Pool, d: nat, serves: nat -> (nat -> bool), j: nat, m: nat, x: nat)
    requires x !in p.open && x < p.next
    ensures var v := LoadsFrom(p, d, serves, j, m);
            x !in v.pool.open && p.next <= v.pool.next
    decreases m - j
  {
    if j < m {
      var g := SafeGetFrom(p, d, serves(j), 0);
      SafeGetKeepsClosed(p, d, serves(j), 0, x);
      LoadsKeepClosed(g.pool, g.driver, serves, j + 1, m, x);
    }
  }

  /** From an open browser `d`, the loads of one profile keep every other open
      browser open, and end in an open browser that is `d` or one they
      started. */
  lemma {:induction false} LoadsFreshOpen(p: Pool, d: nat, serves: nat -> (nat -> bool), j: nat, m: nat)
    requires Valid(p) && d in p.open
    ensures var v := LoadsFrom(p, d, serves, j, m);
            && Valid(v.pool)
            && v.driver in v.pool.open
            && p.open - {d} <= v.pool.open
            && v.pool.next >= p.next
            && (v.driver == d || v.driver >= p.next)
            && (forall x :: x in v.pool.open && x !in p.open ==> x >= p.next)
    decreases m - j
  {
    if j < m {
      var g := SafeGetFrom(p, d, serves(j), 0);
      SafeGetFreshOpen(p, d, serves(j), 0);
      LoadsFreshOpen(g.pool, g.driver, serves, j + 1, m);
      var v := LoadsFrom(p, d, serves, j, m);
      assert v == LoadsFrom(g.pool, g.driver, serves, j + 1, m).(attempts := v.attempts);
      forall x | x in p.open - {d}
        ensures x in v.pool.open
      {
        assert x < p.next && x in g.pool.open - {g.driver};
      }
    }
  }

  /** The loads of one profile that start in a closed browser waste the first
      attempt of the profile page, keep the closed browser closed, and leave
      one more browser open. */
  lemma LoadsFromClosed(p: Pool, d: nat, serves: nat -> (nat -> bool), m: nat)
    requires Valid(p) && d !in p.open && d < p.next && 0 < m
    ensures var v := LoadsFrom(p, d, serves, 0, m);
            && v.attempts[0] >= 2
            && Valid(v.pool) && d !in v.pool.open && d < v.pool.next
            && p.open < v.pool.open
  {
    var g := SafeGetFrom(p, d, serves(0), 0);
    SafeGetFromClosed(p, d, serves(0));
    LoadsFreshOpen(g.pool, g.driver, serves, 1, m);
    LoadsKeepClosed(g.pool, g.driver, serves, 1, m, d);
    var v := LoadsFrom(p, d, serves, 0, m);
    assert v.pool == LoadsFrom(g.pool, g.driver, serves, 1, m).pool;
    assert p.open <= g.pool.open - {g.driver};
    assert v.driver in v.pool.open && v.driver !in p.open;
  }

  /** As written, once the loop's browser is closed it stays closed: every
      later profile spends an attempt of its page on it and leaves one more
      browser open. */
  lemma {:induction false} AsWrittenStale(p: Pool, d: nat, serves: nat -> nat -> (nat -> bool), alts: nat -> nat, k: nat, n: nat)
    requires Valid(p) && d !in p.open && d < p.next
    ensures ProfilesAsWritten(p, d, serves, alts, k, n).driver == d
    ensures PagesWasted(ProfilesAsWritten(p, d, serves, alts, k, n).attempts)
    ensures |ProfilesAsWritten(p, d, serves, alts, k, n).pool.open| >= |p.open| + |ProfilesAsWritten(p, d, serves, alts, k, n).attempts|
    decreases n - k
  {
    if k < n {
      var v := Visit(p, d, serves, alts, k);
      LoadsFromClosed(p, d, serves(k), 1 + alts(k));
      AsWrittenStale(v.pool, d, serves, alts, k + 1, n);
      var rest := ProfilesAsWritten(v.pool, d, serves, alts, k + 1, n);
      var r := ProfilesAsWritten(p, d, serves, alts, k, n);
      assert |v.pool.open| >= |p.open| + 1 by {
        SubsetSize(p.open, v.pool.open);
      }
      assert r.attempts == [v.attempts] + rest.attempts;
      WastedShift(r.attempts, v.attempts, rest.attempts);
    }
  }

  /** Every profile's page took at least two attempts. */
  predicate PagesWasted(attempts: seq<seq<nat>>) {
    forall j :: 0 <= j < |attempts| ==> |attempts[j]| > 0 && attempts[j][0] >= 2
  }

  lemma WastedShift(a: seq<seq<nat>>, x: seq<nat>, b: seq<seq<nat>>)
    requires a == [x] + b && |x| > 0 && x[0] >= 2 && PagesWasted(b)
    ensures PagesWasted(a)
  {
    forall j | 0 <= j < |a|
      ensures |a[j]| > 0 && a[j][0] >= 2
    {
      if j > 0 {
        assert a[j] == b[j - 1];
      }
    }
  }

  /** As written, a profile whose loads close the loop's browser makes every
      later profile's page take at least two attempts. */
  lemma LaterProfilesStale(serves: nat -> nat -> (nat -> bool), alts: nat -> nat, n: nat)
    requires n >= 1
    requires 0 !in Visit(Pool({0}, 1), 0, serves, alts, 0).pool.open
    ensures forall j :: 1 <= j < n ==> PhaseAsWritten(serves, alts, n).attempts[j][0] >= 2
  {
    var p0 := Pool({0}, 1);
    assert Launch(Pool({}, 0)) == (0, p0) by {
      assert {} + {0} == {0};
    }
    var v := Visit(p0, 0, serves, alts, 0);
    LoadsFreshOpen(p0, 0, serves(0), 0, 1 + alts(0));
    AsWrittenStale(v.pool, 0, serves, alts, 1, n);
    var rest := ProfilesAsWritten(v.pool, 0, serves, alts, 1, n);
    var a := PhaseAsWritten(serves, alts, n).attempts;
    assert a == ProfilesAsWritten(p0, 0, serves, alts, 0, n).attempts;
    assert a == [v.attempts] + rest.attempts;
    forall j | 1 <= j < n
      ensures a[j][0] >= 2
    {
      CorrectedStep(a, v.attempts, rest.attempts, j);
    }
  }

  /** As written, a refused first load of the first profile's page costs
      every later profile a wasted attempt in the closed browser, even when
      the site serves every later page. */
  lemma AsWrittenAfterRefusal(serves: nat -> nat -> (nat -> bool), alts: nat -> nat, n: nat)
    requires n >= 1 && !serves(0)(0)(0)
    ensures forall j :: 1 <= j < n ==> PhaseAsWritten(serves, alts, n).attempts[j][0] >= 2
  {
    var p0 := Pool({0}, 1);
    var g := SafeGetFrom(p0, 0, serves(0)(0), 0);
    var l := Launch(Quit(p0, 0));
    assert l == (1, Pool({1}, 2)) by {
      assert {0} - {0} + {1} == {1};
    }
    SafeGetFreshOpen(l.1, l.0, serves(0)(0), 1);
    assert 0 !in g.pool.open;
    var m := 1 + alts(0);
    LoadsKeepClosed(g.pool, g.driver, serves(0), 1, m, 0);
    assert Visit(p0, 0, serves, alts, 0).pool == LoadsFrom(g.pool, g.driver, serves(0), 1, m).pool;
    LaterProfilesStale(serves, alts, n);
  }

  /** As written, the same happens when the first profile's page loads at the
      first attempt, in the loop's own browser, and an alternate location is
      then refused: `safe_get` quits that browser, which the loop still
      holds. */
  lemma AsWrittenAfterAltRefusal(serves: nat -> nat -> (nat -> bool), alts: nat -> nat, n: nat)
    requires n >= 1 && alts(0) >= 1
    requires serves(0)(0)(0) && !serves(0)(1)(0)
    ensures forall j :: 1 <= j < n ==> PhaseAsWritten(serves, alts, n).attempts[j][0] >= 2
  {
    var p0 := Pool({0}, 1);
    var g0 := SafeGetFrom(p0, 0, serves(0)(0), 0);
    assert g0 == Get(p0, 0, true, 1);
    var g1 := SafeGetFrom(p0, 0, serves(0)(1), 0);
    var l := Launch(Quit(p0, 0));
    assert l == (1, Pool({1}, 2)) by {
      assert {0} - {0} + {1} == {1};
    }
    SafeGetFreshOpen(l.1, l.0, serves(0)(1), 1);
    assert 0 !in g1.pool.open;
    var m := 1 + alts(0);
    LoadsKeepClosed(g1.pool, g1.driver, serves(0), 2, m, 0);
    assert LoadsFrom(p0, 0, serves(0), 1, m).pool == LoadsFrom(g1.pool, g1.driver, serves(0), 2, m).pool;
    assert Visit(p0, 0, serves, alts, 0).pool == LoadsFrom(p0, 0, serves(0), 1, m).pool;
    LaterProfilesStale(serves, alts, n);
  }

  lemma SubsetSize(a: set<nat>, b: set<nat>)
    requires a < b
    ensures |a| < |b|
  {
    var x :| x in b && x !in a;
    assert a <= b - {x};
    SubsetSizeLe(a, b - {x});
  }

  lemma {:induction false} SubsetSizeLe(a: set<nat>, b: set<nat>)
    requires a <= b
    ensures |a| <= |b|
    decreases |b|
  {
    if a != {} {
      var x :| x in a;
      SubsetSizeLe(a - {x}, b - {x});
    }
  }

  /** The site refuses only the first load of the first profile's page. */
  function FirstLoadFails(k: nat): nat -> (nat -> bool) {
    t => i => !(k == 0 && t == 0 && i == 0)
  }

  /** No profile has an alternate location. */
  function NoAlts(k: nat): nat {
    0
  }

  /** One refused load is enough: as written, the second profile's page, which
      the site serves, still takes two attempts, and a browser is left open
      after the final `quit`. Carrying the browser on, it takes one and none
      is left open. */
  lemma OneRefusedLoad()
    ensures PhaseAsWritten(FirstLoadFails, NoAlts, 2).attempts == [[2], [2]]
    ensures PhaseAsWritten(FirstLoadFails, NoAlts, 2).pool.open != {}
    ensures PhaseCorrected(FirstLoadFails, NoAlts, 2).attempts == [[2], [1]]
    ensures PhaseCorrected(FirstLoadFails, NoAlts, 2).pool.open == {}
  {
    var p0 := Pool({0}, 1);
    var g0 := SafeGetFrom(p0, 0, FirstLoadFails(0)(0), 0);
    assert g0 == Get(Pool({1}, 2), 1, true, 2) by {
      assert !FirstLoadFails(0)(0)(0) && FirstLoadFails(0)(0)(1);
      assert {0} - {0} == {} && {} + {1} == {1};
    }
    var g1 := SafeGetFrom(Pool({1}, 2), 0, FirstLoadFails(1)(0), 0);
    assert g1 == Get(Pool({1, 2}, 3), 2, true, 2) by {
      assert FirstLoadFails(1)(0)(1);
      assert {1} - {0} == {1} && {1} + {2} == {1, 2};
    }
    var h1 := SafeGetFrom(Pool({1}, 2), 1, FirstLoadFails(1)(0), 0);
    assert h1 == Get(Pool({1}, 2), 1, true, 1) by {
      assert FirstLoadFails(1)(0)(0);
    }
    assert Visit(p0, 0, FirstLoadFails, NoAlts, 0) == Loads(Pool({1}, 2), 1, [2]);
    assert Visit(Pool({1}, 2), 0, FirstLoadFails, NoAlts, 1) == Loads(Pool({1, 2}, 3), 2, [2]);
    assert Visit(Pool({1}, 2), 1, FirstLoadFails, NoAlts, 1) == Loads(Pool({1}, 2), 1, [1]);
    assert ProfilesAsWritten(Pool({1, 2}, 3), 0, FirstLoadFails, NoAlts, 2, 2) == Run(Pool({1, 2}, 3), 0, []);
    assert ProfilesAsWritten(Pool({1}, 2), 0, FirstLoadFails, NoAlts, 1, 2) == Run(Pool({1, 2}, 3), 0, [[2]]);
    assert ProfilesAsWritten(p0, 0, FirstLoadFails, NoAlts, 0, 2) == Run(Pool({1, 2}, 3), 0, [[2], [2]]);
    assert 1 in Quit(Pool({1, 2}, 3), 0).open;
    assert ProfilesCorrected(Pool({1}, 2), 1, FirstLoadFails, NoAlts, 2, 2) == Run(Pool({1}, 2), 1, []);
    assert ProfilesCorrected(Pool({1}, 2), 1, FirstLoadFails, NoAlts, 1, 2) == Run(Pool({1}, 2), 1, [[1]]);
    assert ProfilesCorrected(p0, 0, FirstLoadFails, NoAlts, 0, 2) == Run(Pool({1}, 2), 1, [[2], [1]]);
  }
}
