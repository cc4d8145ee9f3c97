/** The objects of bakery/checker.go: the AuthChecker with its index of verified macaroons and the
    allowContext that a decision updates step by step, proved against the functions of Checker. */
module AuthCheckers {
  import opened Basics
  import opened Checker
  import CallLog

  /** Those of the first n positions listed in idx that are not authorized. */
  function Remaining(idx: seq<nat>, authed: seq<bool>, n: nat): seq<nat>
    requires Below(idx, |authed|) && n <= |idx|
  {
    if n == 0 then [] else
      var earlier := Remaining(idx, authed, n - 1);
      if authed[idx[n - 1]] then earlier else earlier + [idx[n - 1]]
  }

  lemma {:induction false} RemainingPrefix(idx: seq<nat>, x: nat, authed: seq<bool>, n: nat)
    requires Below(idx, |authed|) && x < |authed| && n <= |idx|
    ensures Below(idx + [x], |authed|) && Remaining(idx + [x], authed, n) == Remaining(idx, authed, n)
  {
    if n > 0 {
      RemainingPrefix(idx, x, authed, n - 1);
    }
  }

  lemma {:induction false} RemainingPush(idx: seq<nat>, x: nat, authed: seq<bool>)
    requires Below(idx, |authed|) && x < |authed|
    ensures Below(idx + [x], |authed|)
    ensures Remaining(idx + [x], authed, |idx| + 1) ==
      if authed[x] then Remaining(idx, authed, |idx|) else Remaining(idx, authed, |idx|) + [x]
  {
    RemainingPrefix(idx, x, authed, |idx|);
  }

  /** Filtering an earlier list of the unauthorized positions gives the current one. */
  lemma {:induction false} RemainingIsUnauthed(before: seq<bool>, authed: seq<bool>, n: nat)
    requires n <= |before| <= |authed| && forall k :: 0 <= k < n && before[k] ==> authed[k]
    ensures Remaining(UnauthedIn(before, n), authed, |UnauthedIn(before, n)|) == UnauthedIn(authed, n)
  {
    if n > 0 {
      RemainingIsUnauthed(before, authed, n - 1);
      RemainingPush(UnauthedIn(before, n - 1), n - 1, authed);
    }
  }

  /** Moves the unauthorized ones of the first n elements to the front, in place. */
  method Compact(need: array<Op>, needIndex: array<nat>, n: nat, authed: seq<bool>, ghost ops: seq<Op>) returns (j: nat)
    requires n <= need.Length == needIndex.Length && |authed| == |ops|
    requires forall a :: 0 <= a < n ==> needIndex[a] < |ops| && need[a] == ops[needIndex[a]]
    modifies need, needIndex
    ensures j <= n && forall a :: 0 <= a < j ==> needIndex[a] < |ops| && need[a] == ops[needIndex[a]]
    ensures needIndex[..j] == Remaining(old(needIndex[..n]), authed, n)
  {
    ghost var idx := needIndex[..n];
    j := 0;
    for i := 0 to n
      invariant 0 <= j <= i
      invariant forall a :: i <= a < n ==> needIndex[a] == idx[a] && need[a] == ops[idx[a]]
      invariant forall a :: 0 <= a < j ==> needIndex[a] < |ops| && need[a] == ops[needIndex[a]]
      invariant needIndex[..j] == Remaining(idx, authed, i)
    {
      var opIndex := needIndex[i];
      if authed[opIndex] {
        continue;
      }
      ghost var kept := needIndex[..j];
      if i != j {
        need[j], needIndex[j] := need[i], needIndex[i];
      }
      assert needIndex[..j + 1] == kept + [opIndex];
      j := j + 1;
    }
  }

  class AllowContext {
    ghost const ops: seq<Op>
    var status: seq<Status>
    var opIndexes: map<Op, nat>
    var authed: seq<bool>
    const need: array<Op>
    const needIndex: array<nat>
    var n: nat

    ghost function Snapshot(): State
      reads `status, `authed, `opIndexes
    {
      State(status, authed, opIndexes)
    }

    /** The first n elements of need and needIndex are operations still looked at, with their positions. */
    ghost predicate Valid()
      reads this, need, needIndex
    {
      && n <= need.Length == needIndex.Length && |authed| == |ops|
      && forall a :: 0 <= a < n ==> needIndex[a] < |ops| && need[a] == ops[needIndex[a]]
    }

    /** Exactly the unauthorized positions are listed, in order. */
    ghost predicate NeedExact()
      reads this, needIndex
      requires n <= needIndex.Length
    {
      needIndex[..n] == Unauthed(authed)
    }

    constructor (macaroons: nat, ops: seq<Op>)
      ensures Valid() && fresh(need) && fresh(needIndex) && this.ops == ops && NeedExact()
      ensures Snapshot() == State(seq(macaroons, _ => Status(false, false)), seq(|ops|, _ => false), map[])
    {
      this.ops := ops;
      status := seq(macaroons, _ => Status(false, false));
      authed := seq(|ops|, _ => false);
      opIndexes := map[];
      need := new Op[|ops|](i requires 0 <= i < |ops| => ops[i]);
      needIndex := new nat[|ops|](i => i);
      n := |ops|;
      new;
      AllUnauthed(authed, |ops|);
      assert needIndex[..n] == seq(|ops|, i => i);
    }

    method UpdateNeed(ghost before: seq<bool>)
      requires Valid() && needIndex[..n] == Unauthed(before)
      requires |before| == |authed| && forall k :: 0 <= k < |before| && before[k] ==> authed[k]
      modifies `n, need, needIndex
      ensures Valid() && NeedExact()
    {
      var j := Compact(need, needIndex, n, authed, ops);
      RemainingIsUnauthed(before, authed, |before|);
      n := j;
    }

    method CheckDirect(m: Indexes)
      requires Valid() && NeedExact() && authed == seq(|ops|, _ => false)
      requires WellFormed(Snapshot(), ops, m)
      modifies this, need, needIndex
      ensures Valid() && NeedExact()
      ensures Snapshot() == Direct(old(Snapshot()), ops, m, |ops|)
    {
      ghost var before := authed;
      AllUnauthed(authed, |ops|);
      CheckAll(m);
      UpdateNeed(before);
    }

    /** The loop of checkDirect. */
    method CheckAll(m: Indexes)
      requires Valid() && n == |ops| && needIndex[..n] == seq(|ops|, i => i)
      requires WellFormed(Snapshot(), ops, m)
      modifies `authed, `status, `opIndexes
      ensures Valid() && Snapshot() == Direct(old(Snapshot()), ops, m, |ops|)
      ensures forall k :: 0 <= k < |ops| && old(authed[k]) ==> authed[k]
    {
      ghost var st0 := Snapshot();
      for i := 0 to n
        invariant Valid() && Snapshot() == Direct(st0, ops, m, i)
        invariant forall k :: 0 <= k < |ops| && st0.authed[k] ==> authed[k]
      {
        CheckOne(m, i);
      }
    }

    /** One round of the loop of checkDirect. */
    method CheckOne(m: Indexes, i: nat)
      requires Valid() && i < n == |ops| && needIndex[..n] == seq(|ops|, i => i)
      requires WellFormed(Snapshot(), ops, m)
      modifies `authed, `status, `opIndexes
      ensures Valid() && Snapshot() == DirectOne(old(Snapshot()), ops, m, i)
      ensures forall k :: 0 <= k < |ops| && old(authed[k]) ==> authed[k]
    {
      var op := need[i];
      assert needIndex[i] == needIndex[..n][i] == i;
      if op == NO_OP {
        authed := authed[needIndex[i] := true];
      } else if op in m {
        var first := FindOk(m[op]);
        if first.Some? {
          var mindex := first.value;
          authed := authed[needIndex[i] := true];
          status := status[mindex := status[mindex].(used := true)];
          opIndexes := opIndexes[op := mindex];
        }
      }
    }

    /** The loop that stops at the first macaroon whose conditions hold. */
    method FindOk(mindexes: seq<nat>) returns (r: Option<nat>)
      requires Below(mindexes, |status|)
      ensures r == FirstOk(status, mindexes)
    {
      for a := 0 to |mindexes|
        invariant FirstOk(status, mindexes) == FirstOk(status, mindexes[a..])
      {
        if status[mindexes[a]].ok {
          return Some(mindexes[a]);
        }
        assert mindexes[a..][1..] == mindexes[a + 1..];
      }
      return None;
    }

    /** Applies the answers to a query about the needed operations. */
    method Grant(mi: Option<nat>, allowed: seq<bool>)
      requires Valid() && |allowed| <= n && (mi.Some? ==> mi.value < |status|)
      modifies `status, `authed, `opIndexes
      ensures Valid() && Snapshot() == Granted(old(Snapshot()), ops, needIndex[..n], mi, allowed, |allowed|)
      ensures forall k :: 0 <= k < |ops| && old(authed[k]) ==> authed[k]
    {
      ghost var st0 := Snapshot();
      ghost var idx := needIndex[..n];
      for i := 0 to |allowed|
        invariant Valid() && Snapshot() == Granted(st0, ops, idx, mi, allowed, i)
        invariant forall k :: 0 <= k < |ops| && st0.authed[k] ==> authed[k]
      {
        assert needIndex[i] == idx[i];
        if !allowed[i] {
          continue;
        }
        if mi.Some? {
          status := status[mi.value := status[mi.value].(used := true)];
          opIndexes := opIndexes[need[i] := mi.value];
        }
        authed := authed[needIndex[i] := true];
      }
    }

    /** The calls for one operation. */
    method QueryOp(auth: Authorizer, op: Op, mindexes: seq<nat>) returns (r: Option<seq<Caveat>>)
      requires Valid() && Below(mindexes, |status|) && Frugal(auth)
      modifies `status, `authed, `opIndexes
      ensures Valid() && forall k :: 0 <= k < |ops| && old(authed[k]) ==> authed[k]
      ensures Outcome(QueryMacaroons(old(Snapshot()), ops, needIndex[..n], auth, op, mindexes), r)
    {
      ghost var st0 := Snapshot();
      ghost var idx := needIndex[..n];
      var caveats := [];
      assert mindexes[0..] == mindexes;
      PrependNothing(QueryMacaroons(st0, ops, idx, auth, op, mindexes));
      for b := 0 to |mindexes|
        invariant Valid() && |status| == |st0.status|
        invariant forall k :: 0 <= k < |ops| && st0.authed[k] ==> authed[k]
        invariant QueryMacaroons(st0, ops, idx, auth, op, mindexes)
               == Prepend(caveats, QueryMacaroons(Snapshot(), ops, idx, auth, op, mindexes[b..]))
      {
        var mindex := mindexes[b];
        assert mindexes[b..][0] == mindex && mindexes[b..][1..] == mindexes[b + 1..];
        if !status[mindex].ok {
          continue;
        }
        var answer := Ask(auth, Some(mindex), op);
        if answer.None? {
          return None;
        }
        PrependTwice(caveats, answer.value, QueryMacaroons(Snapshot(), ops, idx, auth, op, mindexes[b + 1..]));
        caveats := caveats + answer.value;
      }
      assert mindexes[|mindexes|..] == [] && caveats + [] == caveats;
      return Some(caveats);
    }

    /** One AuthorizeOps call about all that is needed. */
    method Ask(auth: Authorizer, mi: Option<nat>, op: Op) returns (r: Option<seq<Caveat>>)
      requires Valid() && (mi.Some? ==> mi.value < |status|) && Frugal(auth)
      modifies `status, `authed, `opIndexes
      ensures Valid() && forall k :: 0 <= k < |ops| && old(authed[k]) ==> authed[k]
      ensures Outcome(Query(old(Snapshot()), ops, needIndex[..n], auth, mi, op), r)
    {
      assert need[..n] == At(ops, needIndex[..n]);
      var answer := auth(mi, op, need[..n]);
      if answer.None? {
        return None;
      }
      Grant(mi, answer.value.allowed);
      return Some(answer.value.caveats);
    }

    /** The result agrees with the specification: the new state and caveats, or a failure. */
    ghost predicate Outcome(spec: Option<(State, seq<Caveat>)>, r: Option<seq<Caveat>>)
      reads `status, `authed, `opIndexes
    {
      if spec.None? then r.None? else Snapshot() == spec.value.0 && r == Some(spec.value.1)
    }

    method CheckIndirect(auth: Option<Authorizer>, m: Indexes, order: seq<Op>) returns (r: Option<seq<Caveat>>)
      requires Valid() && NeedExact() && WellFormed(Snapshot(), ops, m) && forall op :: op in order ==> op in m
      requires auth.Some? ==> Frugal(auth.value)
      modifies this, need, needIndex
      ensures Valid() && Outcome(Indirect(old(Snapshot()), ops, auth, m, order), r)
      ensures r.Some? ==> NeedExact()
    {
      if auth.None? {
        return Some([]);
      }
      r := QueryAll(auth.value, m, order);
      if r.None? || n == 0 {
        return;
      }
      var caveats := r.value;
      ghost var before := authed;
      r := Ask(auth.value, None, NO_OP);
      if r.None? {
        return;
      }
      UpdateNeed(before);
      r := Some(caveats + r.value);
    }

    /** The calls for one operation, and the update of what is needed. */
    method Round(auth: Authorizer, op: Op, mindexes: seq<nat>) returns (r: Option<seq<Caveat>>)
      requires Valid() && NeedExact() && Below(mindexes, |status|) && Frugal(auth)
      modifies this, need, needIndex
      ensures Valid() && (r.Some? ==> NeedExact())
      ensures Outcome(QueryMacaroons(old(Snapshot()), ops, Unauthed(old(authed)), auth, op, mindexes), r)
    {
      ghost var before := authed;
      r := QueryOp(auth, op, mindexes);
      if r.Some? {
        UpdateNeed(before);
      }
    }

    /** The loop over the operations of the macaroons. */
    method QueryAll(auth: Authorizer, m: Indexes, order: seq<Op>) returns (r: Option<seq<Caveat>>)
      requires Valid() && NeedExact() && WellFormed(Snapshot(), ops, m) && (forall op :: op in order ==> op in m)
        && Frugal(auth)
      modifies this, need, needIndex
      ensures Valid() && Outcome(QueryOps(old(Snapshot()), ops, auth, m, order), r)
      ensures r.Some? ==> NeedExact()
    {
      ghost var st0 := Snapshot();
      var caveats := [];
      assert order[0..] == order;
      PrependNothing(QueryOps(st0, ops, auth, m, order));
      for a := 0 to |order|
        invariant Valid() && NeedExact() && WellFormed(Snapshot(), ops, m)
        invariant QueryOps(st0, ops, auth, m, order) == Prepend(caveats, QueryOps(Snapshot(), ops, auth, m, order[a..]))
      {
        if n == 0 {
          break;
        }
        assert order[a..][0] == order[a] && order[a..][1..] == order[a + 1..];
        var more := Round(auth, order[a], m[order[a]]);
        if more.None? {
          return None;
        }
        PrependTwice(caveats, more.value, QueryOps(Snapshot(), ops, auth, m, order[a + 1..]));
        caveats := caveats + more.value;
      }
      assert caveats + [] == caveats;
      return Some(caveats);
    }
  }

  /** An authorizer gives at most one answer for each queried operation. */
  ghost predicate Frugal(auth: Authorizer) {
    forall mi, op, qs :: auth(mi, op, qs).Some? ==> |auth(mi, op, qs).value.allowed| <= |qs|
  }

  function Prepend(caveats: seq<Caveat>, r: Option<(State, seq<Caveat>)>): Option<(State, seq<Caveat>)> {
    match r
    case None => None
    case Some((st, more)) => Some((st, caveats + more))
  }

  lemma PrependNothing(r: Option<(State, seq<Caveat>)>)
    ensures Prepend([], r) == r
  {
    if r.Some? {
      assert [] + r.value.1 == r.value.1;
    }
  }

  lemma PrependTwice(a: seq<Caveat>, b: seq<Caveat>, r: Option<(State, seq<Caveat>)>)
    ensures Prepend(a, Prepend(b, r)) == Prepend(a + b, r)
  {
    if r.Some? {
      assert a + (b + r.value.1) == (a + b) + r.value.1;
    }
  }

  lemma {:induction false} AllUnauthed(authed: seq<bool>, n: nat)
    requires n <= |authed| && forall k :: 0 <= k < n ==> !authed[k]
    ensures UnauthedIn(authed, n) == seq(n, i => i)
  {
    if n > 0 {
      AllUnauthed(authed, n - 1);
    }
  }

  class AuthChecker {
    /** What VerifyMacaroon says of each of the macaroons. */
    const verdicts: seq<Verdict>
    var conditions: seq<seq<string>>
    var authIndexes: Indexes
    var initDone: bool
    var initFailed: bool

    constructor (verdicts: seq<Verdict>)
      ensures this.verdicts == verdicts && Valid()
    {
      this.verdicts, conditions, authIndexes, initDone, initFailed := verdicts, [], map[], false, false;
    }

    ghost predicate Valid()
      reads this
    {
      initDone ==>
        && (initFailed <==> Fatal in verdicts)
        && (!initFailed ==> IndexesOk(verdicts, authIndexes))
        && (!initFailed ==> |conditions| == |verdicts|)
        && (!initFailed ==> forall i :: 0 <= i < |verdicts| ==> conditions[i] == ConditionsOf(verdicts[i]))
    }

    /** Verifies the macaroons, the first time only, and stops at one that cannot be checked. */
    method Init() returns (ok: bool)
      requires Valid()
      modifies this
      ensures Valid() && initDone && (ok <==> !initFailed)
      ensures old(initDone) ==>
        initFailed == old(initFailed) && conditions == old(conditions) && authIndexes == old(authIndexes)
    {
      if initDone {
        return !initFailed;
      }
      initDone, initFailed := true, false;
      authIndexes := map[];
      conditions := seq(|verdicts|, _ => []);
      for i := 0 to |verdicts|
        invariant initDone && !initFailed && Fatal !in verdicts[..i] && |conditions| == |verdicts|
        invariant forall j :: 0 <= j < |verdicts| ==> conditions[j] == if j < i then ConditionsOf(verdicts[j]) else []
        invariant forall op, x: nat :: Has(authIndexes, op, x) <==> x < i && Carries(verdicts, op, x)
        invariant Ascending(authIndexes)
      {
        assert verdicts[..i + 1] == verdicts[..i] + [verdicts[i]];
        match verdicts[i]
        case Fatal =>
          initFailed := true;
          return false;
        case Invalid =>
        case Verified(ops, conds) =>
          conditions := conditions[i := conds];
          authIndexes := AddOps(authIndexes, i, ops);
      }
      assert verdicts[..|verdicts|] == verdicts;
      assert forall op, x: nat :: Has(authIndexes, op, x) <==> Carries(verdicts, op, x);
      return true;
    }

    /** Records that macaroon i, later than all recorded so far, carries the operations. */
    method AddOps(m: Indexes, i: nat, ops: seq<Op>) returns (r: Indexes)
      requires Ascending(m) && forall op, x: nat :: Has(m, op, x) ==> x < i
      ensures Ascending(r)
      ensures forall op, x: nat :: Has(r, op, x) <==> Has(m, op, x) || (x == i && op in ops)
    {
      r := m;
      for j := 0 to |ops|
        invariant Ascending(r)
        invariant forall op, x: nat :: Has(r, op, x) <==> Has(m, op, x) || (x == i && op in ops[..j])
      {
        var op := ops[j];
        assert ops[..j + 1] == ops[..j] + [op];
        var earlier := if op in r then r[op] else [];
        forall a | 0 <= a < |earlier| ensures earlier[a] <= i {
          assert Has(r, op, earlier[a]);
        }
        ghost var r0 := r;
        r := r[op := earlier + [i]];
        assert forall o, x: nat :: Has(r, o, x) <==> Has(r0, o, x) || (x == i && o == op);
      }
      assert ops[..|ops|] == ops;
    }

    ghost predicate Has(m: Indexes, op: Op, x: nat) {
      op in m && x in m[op]
    }

    ghost predicate Ascending(m: Indexes) {
      forall op, a, b :: op in m && 0 <= a < b < |m[op]| ==> m[op][a] <= m[op][b]
    }

    /** The context for a decision about ops: every macaroon whose conditions hold is marked OK, also one
        that did not verify and so has no conditions. */
    method NewAllowContext(check: ConditionCheck, ops: seq<Op>) returns (actx: AllowContext)
      requires Valid() && initDone && !initFailed
      ensures fresh(actx) && fresh(actx.need) && fresh(actx.needIndex)
      ensures actx.Valid() && actx.NeedExact() && actx.ops == ops
      ensures actx.Snapshot() == StartState(verdicts, check, ops)
    {
      actx := new AllowContext(|verdicts|, ops);
      ghost var start := actx.Snapshot();
      for i := 0 to |verdicts|
        invariant |actx.status| == |verdicts| && actx.Valid() && actx.NeedExact() && fresh(actx.need)
          && fresh(actx.needIndex)
        invariant actx.authed == start.authed && actx.opIndexes == map[]
        invariant forall x :: 0 <= x < |verdicts| ==>
          actx.status[x] == Status(x < i && Passes(check, x, verdicts[x]), false)
      {
        var ok := AllPass(check, i, conditions[i]);
        actx.status := actx.status[i := Status(ok, false)];
      }
      assert actx.status == StartState(verdicts, check, ops).status;
    }

    method AllPass(check: ConditionCheck, i: nat, conds: seq<string>) returns (ok: bool)
      ensures ok <==> forall c :: c in conds ==> check(i, c)
    {
      for j := 0 to |conds|
        invariant forall c :: c in conds[..j] ==> check(i, c)
      {
        if !check(i, conds[j]) {
          return false;
        }
      }
      return true;
    }

    lemma IndexesInRange()
      requires Valid() && initDone && !initFailed
      ensures forall op :: op in authIndexes ==> Below(authIndexes[op], |verdicts|)
    {
      forall op, a | op in authIndexes && 0 <= a < |authIndexes[op]| ensures authIndexes[op][a] < |verdicts| {
        assert authIndexes[op][a] in authIndexes[op];
      }
    }

    /** order gives the order in which a map with the given keys is iterated over. */
    method Allow(check: ConditionCheck, auth: Option<Authorizer>, order: set<Op> -> seq<Op>, ops: seq<Op>)
      returns (d: Decision)
      requires Valid() && (auth.Some? ==> Frugal(auth.value)) && forall s, x :: x in order(s) <==> x in s
      modifies this
      ensures Valid() && initDone
      ensures initFailed ==> d == Failed
      ensures !initFailed ==>
        && (forall op :: op in authIndexes ==> Below(authIndexes[op], |verdicts|))
        && d == Decide(verdicts, authIndexes, check, auth, ops, order(authIndexes.Keys))
        && (auth.Some? && d != Failed ==> exists log ::
              CallLog.DecidedBy(verdicts, authIndexes, check, auth.value, ops, order(authIndexes.Keys), log, d))
    {
      var ok := Init();
      if !ok {
        return Failed;
      }
      IndexesInRange();
      d := Decided(check, auth, order(authIndexes.Keys), ops);
      if auth.Some? && d != Failed {
        ghost var log := CallLog.DecisionByCalls(verdicts, authIndexes, check, auth.value, ops,
          order(authIndexes.Keys));
      }
    }

    /** The rest of Allow, after init. */
    method Decided(check: ConditionCheck, auth: Option<Authorizer>, order: seq<Op>, ops: seq<Op>) returns (d: Decision)
      requires Valid() && initDone && !initFailed && (auth.Some? ==> Frugal(auth.value))
      requires forall op :: op in order <==> op in authIndexes
      requires forall op :: op in authIndexes ==> Below(authIndexes[op], |verdicts|)
      ensures d == Decide(verdicts, authIndexes, check, auth, ops, order)
    {
      var actx := NewAllowContext(check, ops);
      actx.CheckDirect(authIndexes);
      if actx.n == 0 {
        return Allowed(State(actx.status, actx.authed, actx.opIndexes));
      }
      var caveats := actx.CheckIndirect(auth, authIndexes, order);
      if caveats.None? {
        return Failed;
      }
      if actx.n == 0 && |caveats.value| == 0 {
        return Allowed(State(actx.status, actx.authed, actx.opIndexes));
      }
      if |caveats.value| == 0 || actx.n > 0 {
        return Denied;
      }
      return DischargeRequired(caveats.value);
    }

    /** All operations that the macaroons authorize directly; None stands for a fatal error. */
    method AllowedOps(check: ConditionCheck) returns (r: Option<(map<Op, nat>, seq<bool>)>)
      requires Valid()
      modifies this
      ensures Valid() && initDone && (r.None? <==> initFailed)
      ensures r.Some? ==> forall op :: op in r.value.0 <==> DirectlyAllowed(verdicts, check, op)
      ensures r.Some? ==> forall op :: op in r.value.0 ==> IsFirstGood(verdicts, check, op, r.value.0[op])
      ensures r.Some? ==> |r.value.1| == |verdicts|
      ensures r.Some? ==> forall i :: 0 <= i < |verdicts| ==> (r.value.1[i] <==> i in r.value.0.Values)
    {
      var ok := Init();
      if !ok {
        return None;
      }
      IndexesInRange();
      var actx := NewAllowContext(check, []);
      var opIndexes, used := DirectIndexes(check, actx);
      return Some((opIndexes, used));
    }

    method DirectIndexes(check: ConditionCheck, actx: AllowContext) returns (opIndexes: map<Op, nat>, used: seq<bool>)
      requires Valid() && initDone && !initFailed && actx.Snapshot() == StartState(verdicts, check, [])
      requires forall op :: op in authIndexes ==> Below(authIndexes[op], |verdicts|)
      ensures forall op :: op in opIndexes <==> DirectlyAllowed(verdicts, check, op)
      ensures forall op :: op in opIndexes ==> IsFirstGood(verdicts, check, op, opIndexes[op])
      ensures |used| == |verdicts| && forall i :: 0 <= i < |verdicts| ==> (used[i] <==> i in opIndexes.Values)
    {
      var todo := authIndexes.Keys;
      opIndexes := map[];
      used := seq(|verdicts|, _ => false);
      while todo != {}
        invariant todo <= authIndexes.Keys && |used| == |verdicts| && opIndexes.Keys !! todo
        invariant forall op :: op in authIndexes && op !in todo ==>
          (op in opIndexes <==> DirectlyAllowed(verdicts, check, op))
        invariant forall op :: op in opIndexes ==> op in authIndexes && IsFirstGood(verdicts, check, op, opIndexes[op])
        invariant forall i :: 0 <= i < |used| ==> (used[i] <==> i in opIndexes.Values)
        decreases |todo|
      {
        var op :| op in todo;
        todo := todo - {op};
        var first := actx.FindOk(authIndexes[op]);
        FirstIsGood(check, actx.status, op);
        if first.Some? {
          AddedValue(opIndexes, op, first.value);
          used := used[first.value := true];
          opIndexes := opIndexes[op := first.value];
        }
      }
      forall op | DirectlyAllowed(verdicts, check, op) ensures op in opIndexes {
        var i: nat :| Good(verdicts, check, op, i);
        assert op in authIndexes && i in authIndexes[op];
      }
    }

    lemma AddedValue(m: map<Op, nat>, op: Op, i: nat)
      requires op !in m
      ensures m[op := i].Values == m.Values + {i}
    {
      assert forall o :: o in m ==> m[op := i][o] == m[o];
      assert m[op := i][op] == i;
    }

    lemma FirstIsGood(check: ConditionCheck, status: seq<Status>, op: Op)
      requires Valid() && initDone && !initFailed && op in authIndexes && Below(authIndexes[op], |verdicts|)
      requires status == StartState(verdicts, check, []).status
      ensures var first := FirstOk(status, authIndexes[op]);
        if first.Some? then DirectlyAllowed(verdicts, check, op) && IsFirstGood(verdicts, check, op, first.value)
        else !DirectlyAllowed(verdicts, check, op)
    {
      match FirstOk(status, authIndexes[op])
      case Some(i) =>
        FirstOkIsFirst(status, authIndexes[op]);
        assert Good(verdicts, check, op, i);
      case None =>
        forall i: nat ensures !Good(verdicts, check, op, i) {
          if Carries(verdicts, op, i) { assert i in authIndexes[op]; }
        }
    }
  }
}
