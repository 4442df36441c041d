/** Mutually exclusive subcommands: a symmetric relation kept in the sets of the objects themselves. */
module Exclusion {
  import opened Bytes

  class App {
    var excluded: set<App>

    constructor ()
      ensures excluded == {}
    {
      excluded := {};
    }

    /** excludes(App*): false where it throws. The way back is added only when the way there is new. */
    method Excludes(app: App?) returns (ok: bool)
      modifies this, app
      ensures ok <==> app != null && app != this
      ensures !ok ==> unchanged(this) && (app != null ==> unchanged(app))
      ensures ok ==> excluded == old(excluded) + {app}
      ensures ok ==> app.excluded == if app in old(excluded) then old(app.excluded) else old(app.excluded) + {this}
    {
      if app == null { return false; }
      if app == this { return false; }
      var inserted := app !in excluded;
      excluded := excluded + {app};
      if inserted {
        app.excluded := app.excluded + {this};
      }
      return true;
    }

    /** remove_excludes(App*): ends because every nested call finds one way less, on any objects. */
    method RemoveExcludes(app: App?) returns (removed: bool)
      modifies this, app
      ensures removed <==> app != null && app in old(excluded)
      ensures excluded == old(excluded) - {app}
      ensures app != null && app != this ==>
                app.excluded == if removed then old(app.excluded) - {this} else old(app.excluded)
      decreases |excluded| + (if app == null then 0 else |app.excluded|)
    {
      if app == null || app !in excluded { return false; }
      excluded := excluded - {app};
      var _ := app.RemoveExcludes(this);
      return true;
    }
  }

  // ----- every history ----------------------------------------------------------------------

  type Ways = set<(nat, nat)>

  /** A call on the app numbered `on`; None stands for a null argument. */
  datatype Call = Exclude(on: nat, app: Option<nat>) | Remove(on: nat, app: Option<nat>)

  predicate ValidCall(n: nat, c: Call) { c.on < n && (c.app.Some? ==> c.app.value < n) }

  function After(ways: Ways, c: Call): Ways
  {
    if c.app.None? || (c.Exclude? && c.app.value == c.on) then ways
    else
      var both := {(c.on, c.app.value), (c.app.value, c.on)};
      if c.Exclude? then ways + both else ways - both
  }

  function AfterAll(calls: seq<Call>): Ways
  {
    if calls == [] then {} else After(AfterAll(calls[..|calls| - 1]), calls[|calls| - 1])
  }

  ghost predicate Symmetric(ways: Ways) { forall i, j :: (i, j) in ways ==> (j, i) in ways && i != j }

  lemma {:induction false} AlwaysSymmetric(calls: seq<Call>)
    ensures Symmetric(AfterAll(calls))
  {
    if calls != [] { AlwaysSymmetric(calls[..|calls| - 1]); }
  }

  /** The call is about the unordered pair. */
  predicate Touches(c: Call, i: nat, j: nat)
  {
    c.app.Some? && ((c.on == i && c.app.value == j) || (c.on == j && c.app.value == i))
  }

  ghost predicate LastTouch(calls: seq<Call>, k: int, i: nat, j: nat)
  {
    0 <= k < |calls| && Touches(calls[k], i, j) && forall l :: k < l < |calls| ==> !Touches(calls[l], i, j)
  }

  /** Two apps exclude each other exactly when the last call about the two of them said so. */
  ghost predicate LastSaysExclude(calls: seq<Call>, i: nat, j: nat)
  {
    exists k :: LastTouch(calls, k, i, j) && calls[k].Exclude?
  }

  lemma LastTouchIgnores(calls: seq<Call>, i: nat, j: nat)
    requires calls != [] && !Touches(calls[|calls| - 1], i, j)
    ensures LastSaysExclude(calls, i, j) <==> LastSaysExclude(calls[..|calls| - 1], i, j)
  {
    var before := calls[..|calls| - 1];
    forall k | LastTouch(before, k, i, j) ensures LastTouch(calls, k, i, j) && before[k] == calls[k] {
    }
    forall k | LastTouch(calls, k, i, j) ensures LastTouch(before, k, i, j) && before[k] == calls[k] {
    }
  }

  lemma {:induction false} LastCallDecides(calls: seq<Call>, i: nat, j: nat)
    requires i != j
    ensures (i, j) in AfterAll(calls) <==> LastSaysExclude(calls, i, j)
  {
    if calls != [] {
      var n := |calls| - 1;
      LastCallDecides(calls[..n], i, j);
      if Touches(calls[n], i, j) {
        assert LastTouch(calls, n, i, j);
      } else {
        LastTouchIgnores(calls, i, j);
      }
    }
  }

  ghost predicate Distinct(apps: seq<App>) { forall i, j :: 0 <= i < j < |apps| ==> apps[i] != apps[j] }

  /** The objects hold exactly these ways. */
  ghost predicate Holds(apps: seq<App>, ways: Ways)
    reads apps
  {
    forall i, j :: 0 <= i < |apps| && 0 <= j < |apps| ==> ((i, j) in ways <==> apps[j] in apps[i].excluded)
  }

  /** One call on real objects does to them what it does to the relation. */
  method Perform(apps: seq<App>, c: Call, ghost ways: Ways)
    requires Distinct(apps) && ValidCall(|apps|, c) && Holds(apps, ways) && Symmetric(ways)
    modifies apps
    ensures Holds(apps, After(ways, c))
  {
    var app: App? := null;
    if c.app.Some? { app := apps[c.app.value]; }
    if c.Exclude? {
      var _ := apps[c.on].Excludes(app);
    } else {
      var _ := apps[c.on].RemoveExcludes(app);
    }
  }

  /** After any history on any objects the relation they hold is the one the calls describe. */
  method PerformAll(apps: seq<App>, calls: seq<Call>)
    requires Distinct(apps) && forall k :: 0 <= k < |calls| ==> ValidCall(|apps|, calls[k])
    requires forall i :: 0 <= i < |apps| ==> apps[i].excluded == {}
    modifies apps
    ensures Holds(apps, AfterAll(calls)) && Symmetric(AfterAll(calls))
  {
    var k := 0;
    while k < |calls|
      invariant 0 <= k <= |calls|
      invariant Holds(apps, AfterAll(calls[..k]))
    {
      AlwaysSymmetric(calls[..k]);
      Perform(apps, calls[k], AfterAll(calls[..k]));
      assert calls[..k + 1][..k] == calls[..k];
      k := k + 1;
    }
    assert calls[..k] == calls;
    AlwaysSymmetric(calls);
  }
}
