/** The gathering of discharges for a slice of macaroons (bakery/slice.go). */
module DischargeSlice {
  import opened Basics
  import opened Macaroons

  type Id = bytes

  datatype Mac = Mac(id: Id, caveats: seq<Cav>, caveatData: map<Id, bytes>)

  /** A caveat that needs a discharge, with its payload if that was held externally. */
  datatype Need = Need(cav: Cav, payload: Option<bytes>)

  /** Obtains the n'th discharge attempted; None stands for an error. */
  type Discharger = (nat, Need) -> Option<Mac>

  function NeedOf(m: Mac, cav: Cav): Need {
    Need(cav, if cav.id in m.caveatData then Some(m.caveatData[cav.id]) else None)
  }

  /** The needs of the first n caveats of a macaroon, without those that a macaroon at hand discharges. */
  function Needs(m: Mac, have: set<Id>, n: nat): seq<Need>
    requires n <= |m.caveats|
  {
    if n == 0 then [] else
      var cav := m.caveats[n - 1];
      Needs(m, have, n - 1) + if cav.ThirdParty() && cav.id !in have then [NeedOf(m, cav)] else []
  }

  /** nd is the caveat, with the payload that the macaroon holds for it, if it holds one. */
  predicate IsNeed(m: Mac, cav: Cav, nd: Need) {
    && nd.cav == cav && (nd.payload.Some? <==> cav.id in m.caveatData)
    && (nd.payload.Some? ==> nd.payload.value == m.caveatData[cav.id])
  }

  lemma {:induction false} NeedsAre(m: Mac, have: set<Id>, n: nat)
    requires n <= |m.caveats|
    ensures forall nd :: nd in Needs(m, have, n) <==>
      exists k :: 0 <= k < n && m.caveats[k].ThirdParty() && m.caveats[k].id !in have && IsNeed(m, m.caveats[k], nd)
  {
    if n > 0 {
      NeedsAre(m, have, n - 1);
    }
  }

  function Sum(weight: Need -> nat, needs: seq<Need>): nat {
    if needs == [] then 0 else weight(needs[0]) + Sum(weight, needs[1..])
  }

  lemma {:induction false} SumAppend(weight: Need -> nat, a: seq<Need>, b: seq<Need>)
    ensures Sum(weight, a + b) == Sum(weight, a) + Sum(weight, b)
  {
    if a == [] {
      assert a + b == b;
    } else {
      SumAppend(weight, a[1..], b);
      assert (a + b)[1..] == a[1..] + b;
    }
  }

  /** Discharges have the id they were requested for, and less is needed for a discharge than for the
      caveat: the weight that makes gathering finish. */
  ghost predicate Proper(get: Discharger, weight: Need -> nat, have: set<Id>) {
    forall n, nd :: get(n, nd).Some? ==>
      && get(n, nd).value.id == nd.cav.id
      && Sum(weight, Needs(get(n, nd).value, have, |get(n, nd).value.caveats|)) < weight(nd)
  }

  ghost predicate HasDischarge(ms: seq<Mac>, id: Id) {
    exists d :: 1 <= d < |ms| && ms[d].id == id
  }

  ghost predicate IsNeedOf(ms: seq<Mac>, nd: Need) {
    exists i, k :: 0 <= i < |ms| && 0 <= k < |ms[i].caveats| && ms[i].caveats[k].ThirdParty()
      && IsNeed(ms[i], ms[i].caveats[k], nd)
  }

  /** Every third-party caveat of m has a discharge among ms, is still to be dealt with, or was tried. */
  ghost predicate Covered(m: Mac, ms: seq<Mac>, need: seq<Need>, failed: seq<Need>) {
    forall k :: 0 <= k < |m.caveats| && m.caveats[k].ThirdParty() ==>
      HasDischarge(ms, m.caveats[k].id) || NeedOf(m, m.caveats[k]) in need || NeedOf(m, m.caveats[k]) in failed
  }

  ghost predicate AllCovered(done: seq<Mac>, ms: seq<Mac>, need: seq<Need>, failed: seq<Need>) {
    forall i :: 0 <= i < |done| ==> Covered(done[i], ms, need, failed)
  }

  /** Coverage survives when the macaroons, the needs and the failures only grow, except that a need may
      go once it has a discharge or has failed. */
  lemma CoverageSurvives(done: seq<Mac>, ms: seq<Mac>, need: seq<Need>, failed: seq<Need>,
                         ms': seq<Mac>, need': seq<Need>, failed': seq<Need>)
    requires AllCovered(done, ms, need, failed) && ms <= ms'
    requires forall nd :: nd in need ==> nd in need' || nd in failed' || HasDischarge(ms', nd.cav.id)
    requires forall nd :: nd in failed ==> nd in failed'
    ensures AllCovered(done, ms', need', failed')
  {
    forall i, k | 0 <= i < |done| && 0 <= k < |done[i].caveats| && done[i].caveats[k].ThirdParty()
      ensures HasDischarge(ms', done[i].caveats[k].id) || NeedOf(done[i], done[i].caveats[k]) in need'
        || NeedOf(done[i], done[i].caveats[k]) in failed'
    {
      assert Covered(done[i], ms, need, failed);
      if HasDischarge(ms, done[i].caveats[k].id) {
        var d :| 1 <= d < |ms| && ms[d].id == done[i].caveats[k].id;
        assert ms'[d] == ms[d];
      }
    }
  }

  lemma NeedsCover(m: Mac, ms: seq<Mac>, have: set<Id>, need: seq<Need>, failed: seq<Need>)
    requires forall id :: id in have ==> HasDischarge(ms, id)
    requires forall nd :: nd in Needs(m, have, |m.caveats|) ==> nd in need
    ensures Covered(m, ms, need, failed)
  {
    NeedsAre(m, have, |m.caveats|);
  }

  lemma NeedsAreNeeds(ms: seq<Mac>, i: nat, have: set<Id>)
    requires i < |ms|
    ensures forall nd :: nd in Needs(ms[i], have, |ms[i].caveats|) ==> IsNeedOf(ms, nd)
  {
    NeedsAre(ms[i], have, |ms[i].caveats|);
  }

  lemma NeedsSurvive(ms: seq<Mac>, m: Mac, nd: Need)
    requires IsNeedOf(ms, nd)
    ensures IsNeedOf(ms + [m], nd)
  {
    var i, k :| 0 <= i < |ms| && 0 <= k < |ms[i].caveats| && ms[i].caveats[k].ThirdParty()
      && IsNeed(ms[i], ms[i].caveats[k], nd);
    assert (ms + [m])[i] == ms[i];
  }

  function Ids(ms: seq<Mac>): set<Id> {
    set m | m in ms :: m.id
  }

  /** The request made for the n'th need: local caveats are discharged with the local key, if there is one. */
  function Request(local: Option<Discharger>, get: Discharger): (req: Discharger)
    ensures forall n: nat, nd: Need :: local.None? || nd.cav.location != "local" ==> req(n, nd) == get(n, nd)
    ensures forall n: nat, nd: Need :: local.Some? && nd.cav.location == "local" ==> req(n, nd) == local.value(n, nd)
  {
    (n: nat, nd: Need) => if local.Some? && nd.cav.location == "local" then local.value(n, nd) else get(n, nd)
  }

  /** The macaroons that the requests in the log returned, in order. */
  function Acquired(req: Discharger, log: seq<Need>): seq<Mac> {
    if log == [] then [] else
      var n := |log| - 1;
      Acquired(req, log[..n]) + match req(n, log[n]) case Some(dm) => [dm] case None => []
  }

  /** The needs for which the requests in the log failed, in order. */
  function Failures(req: Discharger, log: seq<Need>): seq<Need> {
    if log == [] then [] else
      var n := |log| - 1;
      Failures(req, log[..n]) + if req(n, log[n]).None? then [log[n]] else []
  }

  lemma LogNext(req: Discharger, log: seq<Need>, nd: Need)
    ensures Acquired(req, log + [nd]) == Acquired(req, log) + match req(|log|, nd) case Some(dm) => [dm] case None => []
    ensures Failures(req, log + [nd]) == Failures(req, log) + if req(|log|, nd).None? then [nd] else []
  {
    assert (log + [nd])[..|log|] == log;
  }

  /** Every request either acquires a macaroon or fails. */
  lemma {:induction false} LogOutcome(req: Discharger, log: seq<Need>)
    ensures |Acquired(req, log)| + |Failures(req, log)| == |log|
    ensures forall m :: m in Acquired(req, log) <==> exists n :: 0 <= n < |log| && req(n, log[n]) == Some(m)
    ensures forall nd :: nd in Failures(req, log) <==> exists n :: 0 <= n < |log| && log[n] == nd && req(n, nd) == None
  {
    if log != [] {
      var n := |log| - 1;
      LogOutcome(req, log[..n]);
      assert forall k :: 0 <= k < n ==> log[..n][k] == log[k];
    }
  }

  /** All the needs are of macaroons in the slice, and no discharge for them was at hand. */
  ghost predicate AllWanted(ms: seq<Mac>, have: set<Id>, needs: seq<Need>) {
    forall nd :: nd in needs ==> IsNeedOf(ms, nd) && nd.cav.id !in have
  }

  /** Slice.DischargeAll; failed lists the needs for which no discharge could be acquired, and log all the needs
      for which one was requested, in order. */
  method DischargeAll(ms: seq<Mac>, get: Discharger, local: Option<Discharger>, ghost weight: Need -> nat)
    returns (r: seq<Mac>, failed: seq<Need>, ok: bool, ghost log: seq<Need>)
    requires |ms| > 0 ==> Proper(Request(local, get), weight, Ids(ms[1..]))
    ensures |ms| == 0 ==> r == [] && !ok && log == []
    ensures |ms| > 0 ==> r == ms + Acquired(Request(local, get), log)
    ensures |ms| > 0 ==> failed == Failures(Request(local, get), log) && (ok <==> failed == [])
    ensures |ms| > 0 ==> AllWanted(r, Ids(ms[1..]), log)
    ensures |ms| > 0 ==> AllCovered(r, r, [], failed)
  {
    log := [];
    if |ms| == 0 {
      return [], [], false, [];
    }
    ghost var req := Request(local, get);
    var have, need := Start(ms);
    r, failed := ms, [];
    var attempts := 0;
    while |need| > 0
      invariant attempts == |log| && Progress(req, ms, have, r, need, failed, log)
      decreases Sum(weight, need), |need|
    {
      var nd := need[0];
      var dm := if local.Some? && nd.cav.location == "local" then local.value(attempts, nd) else get(attempts, nd);
      assert dm == req(attempts, nd);
      attempts := attempts + 1;
      if dm.None? {
        AfterFailure(req, ms, have, r, need, failed, log);
        need, failed, log := need[1..], failed + [nd], log + [nd];
        continue;
      }
      var more := AddCaveats(dm.value, have);
      AfterDischarge(req, weight, ms, have, r, need, failed, log, dm.value);
      r, need, log := r + [dm.value], need[1..] + more, log + [nd];
    }
    ok := failed == [];
  }

  /** What holds before every request. */
  ghost predicate Progress(req: Discharger, ms: seq<Mac>, have: set<Id>, r: seq<Mac>, need: seq<Need>,
                           failed: seq<Need>, log: seq<Need>)
  {
    && r != [] && r == ms + Acquired(req, log) && failed == Failures(req, log)
    && AllCovered(r, r, need, failed)
    && (forall id :: id in have ==> HasDischarge(r, id))
    && AllWanted(r, have, need) && AllWanted(r, have, log)
  }

  lemma AfterFailure(req: Discharger, ms: seq<Mac>, have: set<Id>, r: seq<Mac>, need: seq<Need>, failed: seq<Need>,
                     log: seq<Need>)
    requires Progress(req, ms, have, r, need, failed, log) && need != [] && req(|log|, need[0]).None?
    ensures Progress(req, ms, have, r, need[1..], failed + [need[0]], log + [need[0]])
  {
    LogNext(req, log, need[0]);
    assert need == [need[0]] + need[1..];
    CoverageSurvives(r, r, need, failed, r, need[1..], failed + [need[0]]);
    assert r == ms + Acquired(req, log + [need[0]]);
  }

  lemma AfterDischarge(req: Discharger, weight: Need -> nat, ms: seq<Mac>, have: set<Id>, r: seq<Mac>, need: seq<Need>,
                       failed: seq<Need>, log: seq<Need>, dm: Mac)
    requires Progress(req, ms, have, r, need, failed, log) && need != [] && req(|log|, need[0]) == Some(dm)
    requires Proper(req, weight, have)
    ensures var need' := need[1..] + Needs(dm, have, |dm.caveats|);
      && Progress(req, ms, have, r + [dm], need', failed, log + [need[0]])
      && Sum(weight, need') < Sum(weight, need)
  {
    var nd, rest, more := need[0], need[1..], Needs(dm, have, |dm.caveats|);
    assert need == [nd] + rest;
    LogAcquired(req, ms, r, failed, log, nd, dm);
    Step(req, weight, have, r, need, rest, failed, dm, |log|);
    WeightDrops(weight, need, more);
    StillWanted(r, have, need, rest, log, nd, dm);
  }

  lemma LogAcquired(req: Discharger, ms: seq<Mac>, r: seq<Mac>, failed: seq<Need>, log: seq<Need>, nd: Need, dm: Mac)
    requires r == ms + Acquired(req, log) && failed == Failures(req, log) && req(|log|, nd) == Some(dm)
    ensures r + [dm] == ms + Acquired(req, log + [nd]) && failed == Failures(req, log + [nd])
  {
    LogNext(req, log, nd);
  }

  lemma WeightDrops(weight: Need -> nat, need: seq<Need>, more: seq<Need>)
    requires need != [] && Sum(weight, more) < weight(need[0])
    ensures Sum(weight, need[1..] + more) < Sum(weight, need)
  {
    SumAppend(weight, need[1..], more);
  }

  lemma {:induction false} StillWanted(r: seq<Mac>, have: set<Id>, need0: seq<Need>, need: seq<Need>, log: seq<Need>,
                                       nd: Need, dm: Mac)
    requires AllWanted(r, have, need0) && AllWanted(r, have, log) && need0 == [nd] + need
    ensures AllWanted(r + [dm], have, need + Needs(dm, have, |dm.caveats|)) && AllWanted(r + [dm], have, log + [nd])
  {
    forall x | IsNeedOf(r, x) ensures IsNeedOf(r + [dm], x) { NeedsSurvive(r, dm, x); }
    NeedsAre(dm, have, |dm.caveats|);
    NeedsAreNeeds(r + [dm], |r|, have);
    assert forall x :: x in need0 <==> x == nd || x in need;
  }

  /** What holds before a successful request holds after it. */
  lemma {:induction false} Step(req: Discharger, weight: Need -> nat, have: set<Id>, r: seq<Mac>, need0: seq<Need>,
                                need: seq<Need>, failed: seq<Need>, dm: Mac, n: nat)
    requires Proper(req, weight, have) && need0 != [] && need0 == [need0[0]] + need && r != []
    requires AllCovered(r, r, need0, failed) && forall id :: id in have ==> HasDischarge(r, id)
    requires req(n, need0[0]) == Some(dm)
    ensures var r', need' := r + [dm], need + Needs(dm, have, |dm.caveats|);
      && AllCovered(r', r', need', failed)
      && (forall id :: id in have ==> HasDischarge(r', id))
      && Sum(weight, Needs(dm, have, |dm.caveats|)) < weight(need0[0])
  {
    var r', need' := r + [dm], need + Needs(dm, have, |dm.caveats|);
    assert r'[|r|].id == need0[0].cav.id;
    assert HasDischarge(r', need0[0].cav.id);
    CoverageSurvives(r, r, need0, failed, r', need', failed);
    forall id | id in have ensures HasDischarge(r', id) {
      var d :| 1 <= d < |r| && r[d].id == id;
      assert r'[d].id == id;
    }
    NeedsCover(dm, r', have, need', failed);
    assert AllCovered(r', r', need', failed);
  }

  /** The ids of the discharges at hand, and what the macaroons at hand need besides. */
  method Start(ms: seq<Mac>) returns (have: set<Id>, need: seq<Need>)
    requires |ms| > 0
    ensures have == Ids(ms[1..]) && AllCovered(ms, ms, need, [])
    ensures forall id :: id in have ==> HasDischarge(ms, id)
    ensures AllWanted(ms, have, need)
  {
    have := IdsAtHand(ms);
    need := [];
    for i := 0 to |ms|
      invariant AllCovered(ms[..i], ms, need, [])
      invariant AllWanted(ms, have, need)
    {
      var more := AddCaveats(ms[i], have);
      OneMoreStarted(ms, i, have, need, need + more);
      need := need + more;
    }
    assert ms[..|ms|] == ms;
  }

  lemma OneMoreStarted(ms: seq<Mac>, i: nat, have: set<Id>, need: seq<Need>, need': seq<Need>)
    requires i < |ms| && AllCovered(ms[..i], ms, need, []) && AllWanted(ms, have, need)
    requires need' == need + Needs(ms[i], have, |ms[i].caveats|) && forall id :: id in have ==> HasDischarge(ms, id)
    ensures AllCovered(ms[..i + 1], ms, need', []) && AllWanted(ms, have, need')
  {
    NeedsAre(ms[i], have, |ms[i].caveats|);
    NeedsAreNeeds(ms, i, have);
    CoverageSurvives(ms[..i], ms, need, [], ms, need', []);
    NeedsCover(ms[i], ms, have, need', []);
    var before, now := ms[..i], ms[..i + 1];
    forall j | 0 <= j < |now| ensures Covered(now[j], ms, need', []) {
      if j < i {
        assert Covered(before[j], ms, need', []);
      }
    }
  }

  method IdsAtHand(ms: seq<Mac>) returns (have: set<Id>)
    requires |ms| > 0
    ensures have == Ids(ms[1..]) && forall id :: id in have ==> HasDischarge(ms, id)
  {
    have := {};
    for i := 1 to |ms|
      invariant have == Ids(ms[1..i])
    {
      have := have + {ms[i].id};
      assert ms[1..i + 1] == ms[1..i] + [ms[i]];
    }
    assert ms[1..|ms|] == ms[1..];
    forall id | id in have ensures HasDischarge(ms, id) {
      var m :| m in ms[1..] && m.id == id;
      var j :| 0 <= j < |ms[1..]| && ms[1..][j] == m;
      assert ms[j + 1].id == id;
    }
  }

  method AddCaveats(m: Mac, have: set<Id>) returns (more: seq<Need>)
    ensures more == Needs(m, have, |m.caveats|)
  {
    more := [];
    for k := 0 to |m.caveats|
      invariant more == Needs(m, have, k)
    {
      var cav := m.caveats[k];
      if !cav.ThirdParty() || cav.id in have {
        continue;
      }
      more := more + [Need(cav, if cav.id in m.caveatData then Some(m.caveatData[cav.id]) else None)];
    }
  }
}
