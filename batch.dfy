/** The background installer: one `brew install` per requested app, in
    order, each outcome sorted into the successes or the failures. */
module Batch {

  /** The elements of `apps` whose call had outcome `want`, in their order in
      `apps`. The `i`-th call, on `apps[i]`, had outcome `ok(i, apps[i])`;
      the position is part of the outcome because the same app may be
      requested twice and brew need not answer the same way both times. */
  function Picked(apps: seq<string>, ok: (nat, string) -> bool, want: bool): (r: seq<string>)
    ensures |r| <= |apps|
    decreases |apps|
  {
    if apps == [] then []
    else
      var n := |apps| - 1;
      Picked(apps[..n], ok, want) + (if ok(n, apps[n]) == want then [apps[n]] else [])
  }

  /** Every app lands in exactly one of the two lists: together they hold
      each requested app as often as it was requested. */
  lemma {:induction false} PickedPartition(apps: seq<string>, ok: (nat, string) -> bool)
    ensures multiset(Picked(apps, ok, true)) + multiset(Picked(apps, ok, false)) == multiset(apps)
    decreases |apps|
  {
    if apps != [] {
      var n := |apps| - 1;
      PickedPartition(apps[..n], ok);
      assert apps == apps[..n] + [apps[n]];
    }
  }

  /** An app is in the list for `want` exactly when one of its calls had
      that outcome. */
  lemma {:induction false} PickedMembership(apps: seq<string>, ok: (nat, string) -> bool, want: bool, x: string)
    ensures x in Picked(apps, ok, want) <==> exists i :: 0 <= i < |apps| && apps[i] == x && ok(i, x) == want
    decreases |apps|
  {
    if apps != [] {
      var n := |apps| - 1;
      PickedMembership(apps[..n], ok, want, x);
      if exists i :: 0 <= i < |apps| && apps[i] == x && ok(i, x) == want {
        var i :| 0 <= i < |apps| && apps[i] == x && ok(i, x) == want;
        if i < n {
          assert apps[..n][i] == x;
        }
      }
      if exists i :: 0 <= i < n && apps[..n][i] == x && ok(i, x) == want {
        var i :| 0 <= i < n && apps[..n][i] == x && ok(i, x) == want;
        assert apps[i] == x;
      }
    }
  }

  /** No app is requested twice. */
  predicate Distinct(apps: seq<string>)
  {
    forall i, j :: 0 <= i < j < |apps| ==> apps[i] != apps[j]
  }

  /** For a batch without repetitions, the successes and the failures have no
      app in common, and between them they hold every requested app. */
  lemma PartitionDisjoint(apps: seq<string>, ok: (nat, string) -> bool)
    requires Distinct(apps)
    ensures forall x :: !(x in Picked(apps, ok, true) && x in Picked(apps, ok, false))
    ensures forall x :: x in apps <==> x in Picked(apps, ok, true) || x in Picked(apps, ok, false)
  {
    forall x ensures !(x in Picked(apps, ok, true) && x in Picked(apps, ok, false)) {
      PickedMembership(apps, ok, true, x);
      PickedMembership(apps, ok, false, x);
    }
    forall x ensures x in apps <==> x in Picked(apps, ok, true) || x in Picked(apps, ok, false) {
      PickedMembership(apps, ok, true, x);
      PickedMembership(apps, ok, false, x);
    }
  }

  /** When no call had outcome `want`, nothing is picked. */
  lemma {:induction false} PickedNone(apps: seq<string>, ok: (nat, string) -> bool, want: bool)
    requires forall i :: 0 <= i < |apps| ==> ok(i, apps[i]) != want
    ensures Picked(apps, ok, want) == []
    decreases |apps|
  {
    if apps != [] {
      var n := |apps| - 1;
      assert forall i :: 0 <= i < n ==> apps[..n][i] == apps[i];
      PickedNone(apps[..n], ok, want);
    }
  }

  /** Installing a, b and c where only the call for b fails: a and c
      succeed, b fails. */
  lemma PartialFailureScenario()
    ensures var ok := (i: nat, app: string) => app != "b";
      Picked(["a", "b", "c"], ok, true) == ["a", "c"] &&
      Picked(["a", "b", "c"], ok, false) == ["b"]
  {
    var apps := ["a", "b", "c"];
    assert apps[..2] == ["a", "b"] && apps[..2][..1] == ["a"] && apps[..2][..1][..0] == [];
  }

  /** `BrewInstaller`: the thread that installs a list of apps. */
  class BrewInstaller {
    const apps: seq<string>

    constructor (apps: seq<string>)
      ensures this.apps == apps
    {
      this.apps := apps;
    }

    /** `run`: one `brew install` per app, in order, carrying on after a
        failure; `installOk(i, app)` is whether the `i`-th call exited with
        status 0. Returns the two lists the `finished` signal carries. */
    method Run(installOk: (nat, string) -> bool) returns (successes: seq<string>, failures: seq<string>)
      ensures successes == Picked(apps, installOk, true)
      ensures failures == Picked(apps, installOk, false)
      ensures multiset(successes) + multiset(failures) == multiset(apps)
    {
      successes := [];
      failures := [];
      for i := 0 to |apps|
        invariant successes == Picked(apps[..i], installOk, true)
        invariant failures == Picked(apps[..i], installOk, false)
      {
        assert apps[..i + 1][..i] == apps[..i];
        if installOk(i, apps[i]) {
          successes := successes + [apps[i]];
        } else {
          failures := failures + [apps[i]];
        }
      }
      assert apps[..|apps|] == apps;
      PickedPartition(apps, installOk);
    }
  }
}
