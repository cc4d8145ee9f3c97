/** The AuthorizeOps calls of a decision of bakery/checker.go, and what follows from their answers: every part
    of the outcome is told from the calls alone. */
module CallLog {
  import opened Basics
  import opened Checker

  /** A call about the operations qs, which are at the positions idx, with the macaroon in its context, if any. */
  datatype Call = Call(mi: Option<nat>, op: Op, idx: seq<nat>, qs: seq<Op>)

  /** The call grants the j'th operation that it is about. */
  ghost predicate Grants(auth: Authorizer, c: Call, j: nat) {
    j < |c.idx| && Answers(auth, c.mi, c.op, c.qs, j)
  }

  ghost predicate GrantsPosition(auth: Authorizer, c: Call, k: nat) {
    exists j: nat :: Grants(auth, c, j) && c.idx[j] == k
  }

  /** The call grants q by a macaroon. */
  ghost predicate GrantsByMacaroon(auth: Authorizer, c: Call, q: Op) {
    c.mi.Some? && exists j: nat :: Grants(auth, c, j) && c.qs[j] == q
  }

  ghost predicate GrantsSome(auth: Authorizer, c: Call) {
    exists j: nat :: Grants(auth, c, j)
  }

  ghost predicate GrantedByCalls(auth: Authorizer, log: seq<Call>, k: nat) {
    exists n :: 0 <= n < |log| && GrantsPosition(auth, log[n], k)
  }

  /** Some call with macaroon i granted something. */
  ghost predicate UsedBy(auth: Authorizer, log: seq<Call>, i: nat) {
    exists n :: 0 <= n < |log| && log[n].mi == Some(i) && GrantsSome(auth, log[n])
  }

  /** The macaroon of the last call that granted q by a macaroon. */
  ghost function LastMacaroon(auth: Authorizer, log: seq<Call>, q: Op): Option<nat> {
    if log == [] then None
    else if GrantsByMacaroon(auth, log[|log| - 1], q) then log[|log| - 1].mi
    else LastMacaroon(auth, log[..|log| - 1], q)
  }

  function ReturnedBy(auth: Authorizer, c: Call): seq<Caveat> {
    match auth(c.mi, c.op, c.qs) case Some(a) => a.caveats case None => []
  }

  /** What the calls returned, one after the other. */
  function CaveatsOf(auth: Authorizer, log: seq<Call>): seq<Caveat> {
    if log == [] then [] else CaveatsOf(auth, log[..|log| - 1]) + ReturnedBy(auth, log[|log| - 1])
  }

  /** st' is st after the answers to the calls. */
  ghost predicate Effect(auth: Authorizer, st: State, log: seq<Call>, st': State) {
    && |st.authed| == |st'.authed| && |st.status| == |st'.status|
    && (forall k :: 0 <= k < |st.authed| ==> (st'.authed[k] <==> st.authed[k] || GrantedByCalls(auth, log, k)))
    && (forall i :: 0 <= i < |st.status| ==> st'.status[i].ok == st.status[i].ok)
    && (forall i :: 0 <= i < |st.status| ==> (st'.status[i].used <==> st.status[i].used || UsedBy(auth, log, i)))
    && (forall q :: RecordOf(st', q) == if LastMacaroon(auth, log, q).Some? then LastMacaroon(auth, log, q)
                                        else RecordOf(st, q))
  }

  function RecordOf(st: State, q: Op): Option<nat> {
    if q in st.opIndexes then Some(st.opIndexes[q]) else None
  }

  // ---------- one call ----------

  /** One of the first n answers allows position k, operation q, or anything. */
  ghost predicate AllowedPosition(idx: seq<nat>, allowed: seq<bool>, n: nat, k: nat) {
    exists j :: 0 <= j < n && j < |allowed| && j < |idx| && allowed[j] && idx[j] == k
  }

  ghost predicate AllowedOp(qs: seq<Op>, allowed: seq<bool>, n: nat, q: Op) {
    exists j :: 0 <= j < n && j < |allowed| && j < |qs| && allowed[j] && qs[j] == q
  }

  ghost predicate AllowedSome(allowed: seq<bool>, n: nat) {
    exists j :: 0 <= j < n && j < |allowed| && allowed[j]
  }

  lemma AllowedNext(idx: seq<nat>, qs: seq<Op>, allowed: seq<bool>, n: nat)
    requires 0 < n <= |allowed| && n <= |idx| == |qs|
    ensures forall k :: AllowedPosition(idx, allowed, n, k) <==>
      AllowedPosition(idx, allowed, n - 1, k) || (allowed[n - 1] && idx[n - 1] == k)
    ensures forall q :: AllowedOp(qs, allowed, n, q) <==>
      AllowedOp(qs, allowed, n - 1, q) || (allowed[n - 1] && qs[n - 1] == q)
    ensures AllowedSome(allowed, n) <==> AllowedSome(allowed, n - 1) || allowed[n - 1]
  {
    assert forall k :: allowed[n - 1] && idx[n - 1] == k ==> AllowedPosition(idx, allowed, n, k);
    assert forall q :: allowed[n - 1] && qs[n - 1] == q ==> AllowedOp(qs, allowed, n, q);
  }

  lemma {:induction false} GrantedEffect(ops: seq<Op>, st: State, c: Call, allowed: seq<bool>, n: nat)
    requires |st.authed| == |ops| && Below(c.idx, |ops|) && n <= |allowed| && n <= |c.idx|
    requires c.mi.Some? ==> c.mi.value < |st.status|
    ensures var r := Granted(st, ops, c.idx, c.mi, allowed, n);
      && (forall k :: 0 <= k < |ops| ==> (r.authed[k] <==> st.authed[k] || AllowedPosition(c.idx, allowed, n, k)))
      && (forall i :: 0 <= i < |st.status| ==>
            (r.status[i].used <==> st.status[i].used || (c.mi == Some(i) && AllowedSome(allowed, n))))
      && (forall q :: RecordOf(r, q) ==
            if c.mi.Some? && AllowedOp(At(ops, c.idx), allowed, n, q) then c.mi else RecordOf(st, q))
  {
    if n > 0 {
      GrantedEffect(ops, st, c, allowed, n - 1);
      AllowedNext(c.idx, At(ops, c.idx), allowed, n);
    }
  }

  lemma OneCall(auth: Authorizer, c: Call)
    ensures forall k :: GrantedByCalls(auth, [c], k) <==> GrantsPosition(auth, c, k)
    ensures forall i: nat :: UsedBy(auth, [c], i) <==> c.mi == Some(i) && GrantsSome(auth, c)
    ensures forall q :: LastMacaroon(auth, [c], q) == if GrantsByMacaroon(auth, c, q) then c.mi else None
    ensures CaveatsOf(auth, [c]) == ReturnedBy(auth, c)
  {
    assert [c][..0] == [];
    assert [c][0] == c;
  }

  lemma QueryEffect(auth: Authorizer, ops: seq<Op>, st: State, c: Call, st': State, caveats: seq<Caveat>)
    requires |st.authed| == |ops| && Below(c.idx, |ops|) && (c.mi.Some? ==> c.mi.value < |st.status|)
    requires c.qs == At(ops, c.idx) && Query(st, ops, c.idx, auth, c.mi, c.op) == Some((st', caveats))
    ensures Effect(auth, st, [c], st') && caveats == CaveatsOf(auth, [c])
  {
    var allowed := auth(c.mi, c.op, c.qs).value.allowed;
    var n := if |allowed| < |c.idx| then |allowed| else |c.idx|;
    GrantedEffect(ops, st, c, allowed, n);
    OneCall(auth, c);
    assert forall j: nat :: Grants(auth, c, j) <==> j < n && allowed[j];
    assert forall k :: GrantsPosition(auth, c, k) <==> AllowedPosition(c.idx, allowed, n, k);
    assert GrantsSome(auth, c) <==> AllowedSome(allowed, n);
    assert forall q :: GrantsByMacaroon(auth, c, q) <==> c.mi.Some? && AllowedOp(c.qs, allowed, n, q);
  }

  // ---------- calls one after the other ----------

  lemma {:induction false} LastMacaroonAppend(auth: Authorizer, a: seq<Call>, b: seq<Call>, ab: seq<Call>, q: Op)
    requires ab == a + b
    ensures LastMacaroon(auth, ab, q) ==
      if LastMacaroon(auth, b, q).Some? then LastMacaroon(auth, b, q) else LastMacaroon(auth, a, q)
    decreases |b|
  {
    if b == [] {
      assert ab == a;
    } else {
      var b0, ab0 := b[..|b| - 1], ab[..|ab| - 1];
      assert ab0 == a + b0 && ab[|ab| - 1] == b[|b| - 1];
      LastMacaroonAppend(auth, a, b0, ab0, q);
    }
  }

  lemma {:induction false} CaveatsAppend(auth: Authorizer, a: seq<Call>, b: seq<Call>, ab: seq<Call>)
    requires ab == a + b
    ensures CaveatsOf(auth, ab) == CaveatsOf(auth, a) + CaveatsOf(auth, b)
    decreases |b|
  {
    if b == [] {
      assert ab == a;
      assert CaveatsOf(auth, a) + [] == CaveatsOf(auth, a);
    } else {
      var b0, ab0, c := b[..|b| - 1], ab[..|ab| - 1], b[|b| - 1];
      assert ab0 == a + b0 && ab[|ab| - 1] == c;
      CaveatsAppend(auth, a, b0, ab0);
      Regroup(CaveatsOf(auth, a), CaveatsOf(auth, b0), ReturnedBy(auth, c));
    }
  }

  lemma Regroup<T>(a: seq<T>, b: seq<T>, c: seq<T>)
    ensures (a + b) + c == a + (b + c)
  {
  }

  lemma GrantedAppend(auth: Authorizer, a: seq<Call>, b: seq<Call>, k: nat)
    ensures GrantedByCalls(auth, a + b, k) <==> GrantedByCalls(auth, a, k) || GrantedByCalls(auth, b, k)
  {
    if GrantedByCalls(auth, a, k) {
      var n :| 0 <= n < |a| && GrantsPosition(auth, a[n], k);
      assert (a + b)[n] == a[n];
    }
    if GrantedByCalls(auth, b, k) {
      var n :| 0 <= n < |b| && GrantsPosition(auth, b[n], k);
      assert (a + b)[|a| + n] == b[n];
    }
  }

  lemma UsedAppend(auth: Authorizer, a: seq<Call>, b: seq<Call>, i: nat)
    ensures UsedBy(auth, a + b, i) <==> UsedBy(auth, a, i) || UsedBy(auth, b, i)
  {
    if UsedBy(auth, a, i) {
      var n :| 0 <= n < |a| && a[n].mi == Some(i) && GrantsSome(auth, a[n]);
      assert (a + b)[n] == a[n];
    }
    if UsedBy(auth, b, i) {
      var n :| 0 <= n < |b| && b[n].mi == Some(i) && GrantsSome(auth, b[n]);
      assert (a + b)[|a| + n] == b[n];
    }
  }

  lemma EffectAppend(auth: Authorizer, st: State, a: seq<Call>, st1: State, b: seq<Call>, st2: State)
    requires Effect(auth, st, a, st1) && Effect(auth, st1, b, st2)
    ensures Effect(auth, st, a + b, st2)
  {
    forall k ensures GrantedByCalls(auth, a + b, k) <==> GrantedByCalls(auth, a, k) || GrantedByCalls(auth, b, k) {
      GrantedAppend(auth, a, b, k);
    }
    forall i ensures UsedBy(auth, a + b, i) <==> UsedBy(auth, a, i) || UsedBy(auth, b, i) {
      UsedAppend(auth, a, b, i);
    }
    forall q ensures LastMacaroon(auth, a + b, q) ==
      if LastMacaroon(auth, b, q).Some? then LastMacaroon(auth, b, q) else LastMacaroon(auth, a, q)
    {
      LastMacaroonAppend(auth, a, b, a + b, q);
    }
  }

  lemma NoEffect(auth: Authorizer, st: State)
    ensures Effect(auth, st, [], st)
  {
  }

  // ---------- which calls are made ----------

  /** The calls for one operation: one for each of its macaroons whose conditions hold, in order. */
  function CallsFor(vs: seq<Verdict>, check: ConditionCheck, mindexes: seq<nat>, op: Op, idx: seq<nat>, qs: seq<Op>)
    : seq<Call>
    requires Below(mindexes, |vs|)
  {
    if mindexes == [] then [] else
      (if Passes(check, mindexes[0], vs[mindexes[0]]) then [Call(Some(mindexes[0]), op, idx, qs)] else [])
        + CallsFor(vs, check, mindexes[1..], op, idx, qs)
  }

  /** The positions that are not NoOp or directly allowed, and that no call of the log has granted, in order. */
  ghost function StillNeeded(vs: seq<Verdict>, check: ConditionCheck, auth: Authorizer, ops: seq<Op>, log: seq<Call>)
    : seq<nat>
  {
    Unauthed(seq(|ops|, k requires 0 <= k < |ops| =>
      ops[k] == NO_OP || DirectlyAllowed(vs, check, ops[k]) || GrantedByCalls(auth, log, k)))
  }

  /** `rest` are the calls that follow `log`: for each of the operations in order, as long as something is still
      needed, those for its good macaroons about what is needed then; and the one for NoOp if something is
      needed in the end. */
  ghost predicate Follow(vs: seq<Verdict>, m: Indexes, check: ConditionCheck, auth: Authorizer, ops: seq<Op>,
                         order: seq<Op>, log: seq<Call>, rest: seq<Call>)
    requires forall op :: op in order ==> op in m && Below(m[op], |vs|)
    decreases |order|
  {
    var idx := StillNeeded(vs, check, auth, ops, log);
    if idx == [] then rest == []
    else if order == [] then rest == [Call(None, NO_OP, idx, At(ops, idx))]
    else
      var calls := CallsFor(vs, check, m[order[0]], order[0], idx, At(ops, idx));
      && calls <= rest
      && Follow(vs, m, check, auth, ops, order[1..], log + calls, rest[|calls|..])
  }

  ghost predicate StatusesOk(vs: seq<Verdict>, check: ConditionCheck, st: State) {
    |st.status| == |vs| && forall i :: 0 <= i < |vs| ==> (st.status[i].ok <==> Passes(check, i, vs[i]))
  }

  lemma {:induction false} MacaroonsEffect(vs: seq<Verdict>, check: ConditionCheck, auth: Authorizer, ops: seq<Op>,
                                           st: State, op: Op, mindexes: seq<nat>, idx: seq<nat>, st': State,
                                           caveats: seq<Caveat>)
    requires StatusesOk(vs, check, st) && |st.authed| == |ops| && Below(idx, |ops|) && Below(mindexes, |vs|)
    requires QueryMacaroons(st, ops, idx, auth, op, mindexes) == Some((st', caveats))
    ensures var calls := CallsFor(vs, check, mindexes, op, idx, At(ops, idx));
      Effect(auth, st, calls, st') && caveats == CaveatsOf(auth, calls)
    decreases |mindexes|
  {
    if mindexes == [] {
      NoEffect(auth, st);
    } else if !st.status[mindexes[0]].ok {
      MacaroonsEffect(vs, check, auth, ops, st, op, mindexes[1..], idx, st', caveats);
      assert forall s: seq<Call> :: [] + s == s;
    } else {
      var c := Call(Some(mindexes[0]), op, idx, At(ops, idx));
      var (st1, c1) := Query(st, ops, idx, auth, Some(mindexes[0]), op).value;
      QueryEffect(auth, ops, st, c, st1, c1);
      var (st2, c2) := QueryMacaroons(st1, ops, idx, auth, op, mindexes[1..]).value;
      MacaroonsEffect(vs, check, auth, ops, st1, op, mindexes[1..], idx, st2, c2);
      EffectAppend(auth, st, [c], st1, CallsFor(vs, check, mindexes[1..], op, idx, At(ops, idx)), st2);
      CaveatsAppend(auth, [c], CallsFor(vs, check, mindexes[1..], op, idx, At(ops, idx)),
        CallsFor(vs, check, mindexes, op, idx, At(ops, idx)));
    }
  }

  /** The state after the calls of the log, which began in the state after checkDirect. */
  ghost predicate Reached(vs: seq<Verdict>, check: ConditionCheck, auth: Authorizer, ops: seq<Op>, st0: State,
                          log: seq<Call>, st: State)
  {
    && |st0.authed| == |ops| && StatusesOk(vs, check, st) && Effect(auth, st0, log, st)
    && forall k :: 0 <= k < |ops| ==> (st0.authed[k] <==> ops[k] == NO_OP || DirectlyAllowed(vs, check, ops[k]))
  }

  lemma NeededIsUnauthed(vs: seq<Verdict>, check: ConditionCheck, auth: Authorizer, ops: seq<Op>, st0: State,
                         log: seq<Call>, st: State)
    requires Reached(vs, check, auth, ops, st0, log, st)
    ensures StillNeeded(vs, check, auth, ops, log) == Unauthed(st.authed)
  {
    assert st.authed == seq(|ops|, k requires 0 <= k < |ops| =>
      ops[k] == NO_OP || DirectlyAllowed(vs, check, ops[k]) || GrantedByCalls(auth, log, k));
  }

  /** What QueryOps and the call for NoOp do. */
  ghost predicate Finished(auth: Authorizer, ops: seq<Op>, m: Indexes, st: State, order: seq<Op>,
                           r: Option<(State, seq<Caveat>)>)
    requires WellFormed(st, ops, m) && forall op :: op in order ==> op in m
  {
    r == match QueryOps(st, ops, auth, m, order)
         case None => None
         case Some((st1, c1)) =>
           var idx := Unauthed(st1.authed);
           if idx == [] then Some((st1, c1)) else
             match Query(st1, ops, idx, auth, None, NO_OP)
             case None => None
             case Some((st2, c2)) => Some((st2, c1 + c2))
  }

  lemma {:induction false} LoopCalls(vs: seq<Verdict>, m: Indexes, check: ConditionCheck, auth: Authorizer,
                                     ops: seq<Op>, st0: State, log: seq<Call>, st: State, order: seq<Op>, st': State,
                                     caveats: seq<Caveat>)
    returns (rest: seq<Call>)
    requires Reached(vs, check, auth, ops, st0, log, st) && WellFormed(st, ops, m)
    requires forall op :: op in order ==> op in m && Below(m[op], |vs|)
    requires Finished(auth, ops, m, st, order, Some((st', caveats)))
    ensures Follow(vs, m, check, auth, ops, order, log, rest)
    ensures Effect(auth, st0, log + rest, st') && caveats == CaveatsOf(auth, rest)
    decreases |order|
  {
    NeededIsUnauthed(vs, check, auth, ops, st0, log, st);
    var idx := Unauthed(st.authed);
    if idx == [] {
      rest := [];
      assert log + rest == log;
    } else if order == [] {
      rest := FinalCall(vs, m, check, auth, ops, st0, log, st, st', caveats);
    } else {
      var calls, st1, c1, c' := OneVisit(vs, m, check, auth, ops, st0, log, st, order, st', caveats);
      var more := LoopCalls(vs, m, check, auth, ops, st0, log + calls, st1, order[1..], st', c');
      rest := calls + more;
      CaveatsAppend(auth, calls, more, rest);
      Regroup(log, calls, more);
      FollowStep(vs, m, check, auth, ops, order, log, calls, more, idx);
    }
  }

  lemma FinalCall(vs: seq<Verdict>, m: Indexes, check: ConditionCheck, auth: Authorizer, ops: seq<Op>, st0: State,
                  log: seq<Call>, st: State, st': State, caveats: seq<Caveat>) returns (rest: seq<Call>)
    requires Reached(vs, check, auth, ops, st0, log, st) && WellFormed(st, ops, m)
    requires Unauthed(st.authed) != [] && Finished(auth, ops, m, st, [], Some((st', caveats)))
    ensures rest == [Call(None, NO_OP, Unauthed(st.authed), At(ops, Unauthed(st.authed)))]
    ensures Effect(auth, st0, log + rest, st') && caveats == CaveatsOf(auth, rest)
  {
    var c := Call(None, NO_OP, Unauthed(st.authed), At(ops, Unauthed(st.authed)));
    rest := [c];
    var (st2, c2) := Query(st, ops, c.idx, auth, None, NO_OP).value;
    QueryEffect(auth, ops, st, c, st2, c2);
    EffectAppend(auth, st0, log, st, [c], st2);
    assert [] + c2 == c2;
  }

  lemma OneVisit(vs: seq<Verdict>, m: Indexes, check: ConditionCheck, auth: Authorizer, ops: seq<Op>, st0: State,
                 log: seq<Call>, st: State, order: seq<Op>, st': State, caveats: seq<Caveat>)
    returns (calls: seq<Call>, st1: State, c1: seq<Caveat>, c': seq<Caveat>)
    requires Reached(vs, check, auth, ops, st0, log, st) && WellFormed(st, ops, m)
    requires order != [] && Unauthed(st.authed) != [] && forall op :: op in order ==> op in m && Below(m[op], |vs|)
    requires Finished(auth, ops, m, st, order, Some((st', caveats)))
    ensures calls == CallsFor(vs, check, m[order[0]], order[0], Unauthed(st.authed), At(ops, Unauthed(st.authed)))
    ensures Reached(vs, check, auth, ops, st0, log + calls, st1) && WellFormed(st1, ops, m)
    ensures c1 == CaveatsOf(auth, calls) && caveats == c1 + c'
    ensures Finished(auth, ops, m, st1, order[1..], Some((st', c')))
  {
    var idx := Unauthed(st.authed);
    calls := CallsFor(vs, check, m[order[0]], order[0], idx, At(ops, idx));
    var r := QueryMacaroons(st, ops, idx, auth, order[0], m[order[0]]).value;
    st1, c1 := r.0, r.1;
    MacaroonsEffect(vs, check, auth, ops, st, order[0], m[order[0]], idx, st1, c1);
    EffectAppend(auth, st0, log, st, calls, st1);
    c' := RestOfLoop(auth, ops, m, st, order, st1, c1, st', caveats);
  }

  lemma FollowStep(vs: seq<Verdict>, m: Indexes, check: ConditionCheck, auth: Authorizer, ops: seq<Op>, order: seq<Op>,
                   log: seq<Call>, calls: seq<Call>, more: seq<Call>, idx: seq<nat>)
    requires order != [] && (forall op :: op in order ==> op in m && Below(m[op], |vs|))
    requires idx == StillNeeded(vs, check, auth, ops, log) && idx != []
    requires calls == CallsFor(vs, check, m[order[0]], order[0], idx, At(ops, idx))
    requires Follow(vs, m, check, auth, ops, order[1..], log + calls, more)
    ensures Follow(vs, m, check, auth, ops, order, log, calls + more)
  {
    assert (calls + more)[|calls|..] == more;
  }

  lemma RestOfLoop(auth: Authorizer, ops: seq<Op>, m: Indexes, st: State, order: seq<Op>, st1: State, c1: seq<Caveat>,
                   st': State, caveats: seq<Caveat>) returns (c': seq<Caveat>)
    requires WellFormed(st, ops, m) && (forall op :: op in order ==> op in m)
    requires order != [] && Unauthed(st.authed) != []
    requires QueryMacaroons(st, ops, Unauthed(st.authed), auth, order[0], m[order[0]]) == Some((st1, c1))
    requires Finished(auth, ops, m, st, order, Some((st', caveats)))
    ensures WellFormed(st1, ops, m) && Finished(auth, ops, m, st1, order[1..], Some((st', c'))) && caveats == c1 + c'
  {
    var (st2, c2) := QueryOps(st1, ops, auth, m, order[1..]).value;
    var idx := Unauthed(st2.authed);
    if idx == [] {
      c' := c2;
    } else {
      var c3 := Query(st2, ops, idx, auth, None, NO_OP).value.1;
      c' := c2 + c3;
      assert (c1 + c2) + c3 == c1 + (c2 + c3);
    }
  }

  // ---------- the decision ----------

  /** What is recorded and marked as used: for each operation the macaroon of the last call that granted it by
      one, or else the first that allows it directly. */
  ghost predicate Reports(vs: seq<Verdict>, check: ConditionCheck, auth: Authorizer, ops: seq<Op>, log: seq<Call>,
                          st: State)
  {
    && |st.status| == |vs|
    && (forall i :: 0 <= i < |vs| ==>
          (st.status[i].used <==> UsedDirectly(vs, check, ops, i) || UsedBy(auth, log, i)))
    && (forall q, i: nat :: LastMacaroon(auth, log, q) == Some(i) ==> RecordOf(st, q) == Some(i))
    && (forall q :: LastMacaroon(auth, log, q) == None ==>
          (RecordOf(st, q).Some? <==> q in ops && q != NO_OP && DirectlyAllowed(vs, check, q)))
    && (forall q, i: nat :: LastMacaroon(auth, log, q) == None && RecordOf(st, q) == Some(i) ==>
          IsFirstGood(vs, check, q, i))
  }

  ghost predicate Returned(auth: Authorizer, log: seq<Call>, c: Caveat) {
    exists n :: 0 <= n < |log| && Returns(auth, log[n].mi, log[n].op, log[n].qs, c)
  }

  lemma {:induction false} CaveatsAreReturned(auth: Authorizer, log: seq<Call>)
    ensures forall c :: c in CaveatsOf(auth, log) <==> Returned(auth, log, c)
  {
    if log != [] {
      var n := |log| - 1;
      CaveatsAreReturned(auth, log[..n]);
      forall c ensures Returned(auth, log, c) <==>
        Returned(auth, log[..n], c) || Returns(auth, log[n].mi, log[n].op, log[n].qs, c)
      {
        if Returned(auth, log[..n], c) {
          var k :| 0 <= k < n && Returns(auth, log[..n][k].mi, log[..n][k].op, log[..n][k].qs, c);
          assert log[k] == log[..n][k];
        }
        if Returned(auth, log, c) {
          var k :| 0 <= k < |log| && Returns(auth, log[k].mi, log[k].op, log[k].qs, c);
          assert k < n ==> log[..n][k] == log[k];
        }
      }
    }
  }

  /** The calls of the log are those made for the decision, and it follows from their answers: it denies exactly if
      something is still needed after them, and otherwise its caveats are all that they returned, in order; a
      decision to allow reports what the calls and the direct check say. */
  ghost predicate DecidedBy(vs: seq<Verdict>, m: Indexes, check: ConditionCheck, auth: Authorizer, ops: seq<Op>,
                            order: seq<Op>, log: seq<Call>, d: Decision)
    requires forall op :: op in order ==> op in m && Below(m[op], |vs|)
  {
    && Follow(vs, m, check, auth, ops, order, [], log)
    && (if StillNeeded(vs, check, auth, ops, log) != [] then d == Denied
        else if CaveatsOf(auth, log) != [] then d == DischargeRequired(CaveatsOf(auth, log))
        else d.Allowed? && Reports(vs, check, auth, ops, log, d.state))
    && forall c :: c in CaveatsOf(auth, log) <==> Returned(auth, log, c)
  }

  /** Every decision that does not fail comes from a definite sequence of calls. */
  lemma {:induction false} DecisionByCalls(vs: seq<Verdict>, m: Indexes, check: ConditionCheck, auth: Authorizer,
                                           ops: seq<Op>, order: seq<Op>)
    returns (log: seq<Call>)
    requires IndexesOk(vs, m) && (forall op :: op in order ==> op in m) && forall op :: op in m ==> Below(m[op], |vs|)
    requires Decide(vs, m, check, Some(auth), ops, order) != Failed
    ensures DecidedBy(vs, m, check, auth, ops, order, log, Decide(vs, m, check, Some(auth), ops, order))
  {
    var st := BeforeCalls(vs, m, check, auth, ops);
    if Unauthed(st.authed) == [] {
      log := [];
    } else {
      var (st', caveats) := Indirect(st, ops, Some(auth), m, order).value;
      log := LoopCalls(vs, m, check, auth, ops, st, [], st, order, st', caveats);
      assert [] + log == log;
      AfterCalls(vs, check, auth, ops, st, log, st');
    }
    CaveatsAreReturned(auth, log);
  }

  lemma BeforeCalls(vs: seq<Verdict>, m: Indexes, check: ConditionCheck, auth: Authorizer, ops: seq<Op>)
    returns (st: State)
    requires IndexesOk(vs, m) && forall op :: op in m ==> Below(m[op], |vs|)
    ensures st == Direct(StartState(vs, check, ops), ops, m, |ops|) && WellFormed(st, ops, m)
    ensures Reached(vs, check, auth, ops, st, [], st) && Reports(vs, check, auth, ops, [], st)
    ensures StillNeeded(vs, check, auth, ops, []) == Unauthed(st.authed)
  {
    st := Direct(StartState(vs, check, ops), ops, m, |ops|);
    DirectExact(vs, m, check, ops, |ops|);
    DirectUsed(vs, m, check, ops, |ops|);
    assert ops[..|ops|] == ops;
    NoEffect(auth, st);
    assert Reached(vs, check, auth, ops, st, [], st);
    NeededIsUnauthed(vs, check, auth, ops, st, [], st);
  }

  lemma AfterCalls(vs: seq<Verdict>, check: ConditionCheck, auth: Authorizer, ops: seq<Op>, st: State, log: seq<Call>,
                   st': State)
    requires Effect(auth, st, log, st')
    requires Reached(vs, check, auth, ops, st, [], st) && Reports(vs, check, auth, ops, [], st)
    ensures StillNeeded(vs, check, auth, ops, log) == Unauthed(st'.authed) && Reports(vs, check, auth, ops, log, st')
  {
    assert StatusesOk(vs, check, st');
    NeededIsUnauthed(vs, check, auth, ops, st, log, st');
    ReportsAfter(vs, check, auth, ops, st, log, st');
  }

  lemma ReportsAfter(vs: seq<Verdict>, check: ConditionCheck, auth: Authorizer, ops: seq<Op>, st: State, log: seq<Call>,
                     st': State)
    requires Effect(auth, st, log, st') && |st.status| == |vs|
    requires Reports(vs, check, auth, ops, [], st)
    ensures Reports(vs, check, auth, ops, log, st')
  {
    assert forall i :: !UsedBy(auth, [], i);
  }

  // ---------- failures ----------

  /** The authorizer fails for some query that may be made. */
  ghost predicate SomeFailure(vs: seq<Verdict>, check: ConditionCheck, auth: Authorizer, ops: seq<Op>) {
    exists mi, op, qs :: Source(vs, check, mi, op) && IsQuery(vs, check, ops, qs) && auth(mi, op, qs) == None
  }

  lemma {:induction false} QueryMacaroonsFail(vs: seq<Verdict>, check: ConditionCheck, st: State, ops: seq<Op>,
                                              idx: seq<nat>, auth: Authorizer, op: Op, mindexes: seq<nat>)
    requires Sound(vs, check, Some(auth), ops, st) && Below(idx, |ops|) && IsQuery(vs, check, ops, At(ops, idx))
    requires Below(mindexes, |vs|) && forall i :: i in mindexes ==> Carries(vs, op, i)
    requires QueryMacaroons(st, ops, idx, auth, op, mindexes).None?
    ensures SomeFailure(vs, check, auth, ops)
    decreases |mindexes|
  {
    if !st.status[mindexes[0]].ok {
      QueryMacaroonsFail(vs, check, st, ops, idx, auth, op, mindexes[1..]);
    } else {
      assert Good(vs, check, op, mindexes[0]) && Source(vs, check, Some(mindexes[0]), op);
      var r := Query(st, ops, idx, auth, Some(mindexes[0]), op);
      if r.Some? {
        QuerySound(vs, check, st, ops, idx, auth, Some(mindexes[0]), op);
        QueryMacaroonsFail(vs, check, r.value.0, ops, idx, auth, op, mindexes[1..]);
      }
    }
  }

  lemma {:induction false} QueryOpsFail(vs: seq<Verdict>, m: Indexes, check: ConditionCheck, st: State, ops: seq<Op>,
                                        auth: Authorizer, order: seq<Op>)
    requires IndexesOk(vs, m) && Sound(vs, check, Some(auth), ops, st) && WellFormed(st, ops, m)
    requires (forall op :: op in order ==> op in m) && QueryOps(st, ops, auth, m, order).None?
    ensures SomeFailure(vs, check, auth, ops)
    decreases |order|
  {
    var idx := Unauthed(st.authed);
    UnauthedIsQuery(vs, check, Some(auth), ops, st);
    var r := QueryMacaroons(st, ops, idx, auth, order[0], m[order[0]]);
    if r.None? {
      QueryMacaroonsFail(vs, check, st, ops, idx, auth, order[0], m[order[0]]);
    } else {
      QueryMacaroonsSound(vs, check, st, ops, idx, auth, order[0], m[order[0]]);
      QueryOpsFail(vs, m, check, r.value.0, ops, auth, order[1..]);
    }
  }

  /** A decision fails only if the authorizer does, in a query about what is needed from a good macaroon or NoOp. */
  lemma FailureIsOfAuthorizer(vs: seq<Verdict>, m: Indexes, check: ConditionCheck, auth: Option<Authorizer>,
                              ops: seq<Op>, order: seq<Op>)
    requires IndexesOk(vs, m) && (forall op :: op in order ==> op in m) && forall op :: op in m ==> Below(m[op], |vs|)
    requires Decide(vs, m, check, auth, ops, order) == Failed
    ensures auth.Some? && SomeFailure(vs, check, auth.value, ops)
  {
    DirectSound(vs, m, check, auth, ops);
    var st := Direct(StartState(vs, check, ops), ops, m, |ops|);
    var r := QueryOps(st, ops, auth.value, m, order);
    if r.None? {
      QueryOpsFail(vs, m, check, st, ops, auth.value, order);
    } else {
      QueryOpsSound(vs, m, check, st, ops, auth.value, order);
      UnauthedIsQuery(vs, check, auth, ops, r.value.0);
      assert Source(vs, check, None, NO_OP);
    }
  }
}
