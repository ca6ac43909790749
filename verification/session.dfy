/** The two retry loops around the browser: `ensure_connectivity`, which
    re-runs the VPN client until the connectivity probe succeeds, and
    `safe_get`, which retries a page load with a fresh browser. The probe,
    the VPN client, the browser and the clock are outside the model: the
    probe's answers and the loads' outcomes are oracles indexed by attempt.
 */
module Session {

  /** `ensure_connectivity`'s bound on VPN reconnections. */
  const MaxVpnRetries := 5
  /** `safe_get`'s bound on page-load attempts. */
  const MaxLoadAttempts := 3

  /** The number of VPN reconnections `ensure_connectivity` makes before it
      leaves its loop, starting from `k` made: none once a probe succeeds,
      and never more than the bound. */
  function VpnCallsFrom(connected: nat -> bool, k: nat): (n: nat)
    requires k <= MaxVpnRetries
    ensures k <= n <= MaxVpnRetries
    decreases MaxVpnRetries - k
  {
    if connected(k) || k == MaxVpnRetries then k else VpnCallsFrom(connected, k + 1)
  }

  /** Whether `ensure_connectivity` returns (rather than exiting): the probe
      made after the loop, one past the probes of the loop, must succeed. */
  predicate Restores(connected: nat -> bool) {
    connected(VpnCallsFrom(connected, 0) + 1)
  }

  /** The loop of `ensure_connectivity` over the answers of the probe:
      `connected(k)` is the answer to the k-th probe. Python evaluates the
      probe before the counter test, so the loop makes one probe more than
      it makes VPN calls, and the check after the loop probes once again.
      `restored` is false where the source exits with status 1. */
  method EnsureConnectivity(connected: nat -> bool) returns (vpnCalls: nat, probes: nat, restored: bool)
    ensures vpnCalls <= MaxVpnRetries
    ensures forall k :: 0 <= k < vpnCalls ==> !connected(k)
    ensures vpnCalls < MaxVpnRetries ==> connected(vpnCalls)
    ensures probes == vpnCalls + 2
    ensures restored <==> connected(vpnCalls + 1)
    ensures vpnCalls == VpnCallsFrom(connected, 0) && (restored <==> Restores(connected))
  {
    vpnCalls := 0;
    probes := 1;
    while !connected(vpnCalls) && vpnCalls < MaxVpnRetries
      invariant vpnCalls <= MaxVpnRetries
      invariant probes == vpnCalls + 1
      invariant forall k :: 0 <= k < vpnCalls ==> !connected(k)
      invariant VpnCallsFrom(connected, vpnCalls) == VpnCallsFrom(connected, 0)
      decreases MaxVpnRetries - vpnCalls
    {
      vpnCalls := vpnCalls + 1;
      probes := probes + 1;
    }
    restored := connected(vpnCalls + 1);
    probes := probes + 1;
  }

  /** A link that never comes up makes exactly five VPN calls and exits. */
  lemma NeverConnected()
    ensures VpnCallsFrom(_ => false, 0) == MaxVpnRetries
    ensures !Restores(_ => false)
  {
    var down: nat -> bool := _ => false;
    assert VpnCallsFrom(down, 5) == 5;
    assert VpnCallsFrom(down, 4) == 5;
    assert VpnCallsFrom(down, 3) == 5;
    assert VpnCallsFrom(down, 2) == 5;
    assert VpnCallsFrom(down, 1) == 5;
  }

  /** How `safe_get` ends: the page loaded, every attempt failed and the last
      fresh browser is handed back unloaded, or a reconnection exited. */
  datatype LoadOutcome = Loaded | GaveUp | Exited

  /** The outcome `safe_get` reaches for the load outcomes `loads(i)` of its
      attempts and the probe answers `probe(i)` of the reconnection after a
      failed attempt `i`. */
  function LoadResult(loads: nat -> bool, probe: nat -> (nat -> bool), i: nat): (r: (LoadOutcome, nat))
    requires i < MaxLoadAttempts
    ensures i < r.1 <= MaxLoadAttempts
    decreases MaxLoadAttempts - i
  {
    if loads(i) then (Loaded, i + 1)
    else if !Restores(probe(i)) then (Exited, i + 1)
    else if i + 1 == MaxLoadAttempts then (GaveUp, i + 1)
    else LoadResult(loads, probe, i + 1)
  }

  /** `safe_get` as a loop: each failed attempt closes the browser, ensures
      connectivity and opens a new browser before the next attempt, the
      last failed attempt included. `browsers` counts the new browsers. */
  method SafeGet(loads: nat -> bool, probe: nat -> (nat -> bool))
    returns (outcome: LoadOutcome, attempts: nat, browsers: nat)
    ensures 1 <= attempts <= MaxLoadAttempts
    ensures forall k :: 0 <= k < attempts - 1 ==> !loads(k) && Restores(probe(k))
    ensures outcome == Loaded <==> loads(attempts - 1)
    ensures outcome == Exited <==> !loads(attempts - 1) && !Restores(probe(attempts - 1))
    ensures outcome == GaveUp ==> attempts == MaxLoadAttempts
    ensures browsers == if outcome == Loaded then attempts - 1 else if outcome == Exited then attempts - 1 else attempts
    ensures (outcome, attempts) == LoadResult(loads, probe, 0)
  {
    attempts := 0;
    browsers := 0;
    outcome := GaveUp;
    while attempts < MaxLoadAttempts
      invariant attempts <= MaxLoadAttempts
      invariant browsers == attempts
      invariant forall k :: 0 <= k < attempts ==> !loads(k) && Restores(probe(k))
      invariant attempts < MaxLoadAttempts ==> LoadResult(loads, probe, attempts) == LoadResult(loads, probe, 0)
      invariant attempts == MaxLoadAttempts ==> LoadResult(loads, probe, 0) == (GaveUp, MaxLoadAttempts)
      decreases MaxLoadAttempts - attempts
    {
      if loads(attempts) {
        outcome := Loaded;
        attempts := attempts + 1;
        return;
      }
      var vpnCalls, probes, restored := EnsureConnectivity(probe(attempts));
      if !restored {
        outcome := Exited;
        attempts := attempts + 1;
        return;
      }
      browsers := browsers + 1;
      attempts := attempts + 1;
    }
  }

  /** `safe_get` never makes more than three attempts, and gives up only
      after three failed loads with every reconnection restored. */
  lemma GiveUpMeansThreeFailures(loads: nat -> bool, probe: nat -> (nat -> bool))
    requires LoadResult(loads, probe, 0).0 == GaveUp
    ensures !loads(0) && !loads(1) && !loads(2)
    ensures Restores(probe(0)) && Restores(probe(1)) && Restores(probe(2))
  {
  }
}
