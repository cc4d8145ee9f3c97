/** The identity-aware checker of bakery/identchecker/checker.go on top of the authorization engine. */
module IdentChecker {
  import opened Basics
  import opened Checker
  import opened AuthCheckers
  import opened CallLog

  type Identity = string
  const LOGIN_OP := Op("login", "login")

  /** The Authorizer: its answers for an identity (None is no authenticated user). */
  type IdentityAuthorizer = (Option<Identity>, seq<Op>) -> Option<Answer>

  /** The results of the identity client: for the declarations of the i'th macaroon, and for the request's
      context. The outer None is an error, the inner one no identity. */
  datatype IdentityClient = IdentityClient(
    declared: nat -> Option<Option<Identity>>,
    fromContext: Option<(Option<Identity>, seq<Caveat>)>)

  /** The OpsAuthorizer used by an identity checker; ctx is the identity in the context, if one has been
      determined. */
  function IdentityOps(ctx: Option<Option<Identity>>, inner: Option<Authorizer>, authorize: IdentityAuthorizer)
    : Authorizer
  {
    (mi: Option<nat>, op: Op, qs: seq<Op>) =>
      if ctx.None? then Some(Answer([], []))
      else if op != NO_OP then if inner.Some? then inner.value(mi, op, qs) else Some(Answer([], []))
      else authorize(ctx.value, qs)
  }

  function WithoutLogin(ops: seq<Op>): (r: seq<Op>)
    ensures forall op :: op in r <==> op in ops && op != LOGIN_OP
    ensures |r| == |ops| <==> LOGIN_OP !in ops
    ensures |r| <= |ops|
  {
    if ops == [] then [] else
      var n := |ops| - 1;
      assert ops == ops[..n] + [ops[n]];
      WithoutLogin(ops[..n]) + if ops[n] != LOGIN_OP then [ops[n]] else []
  }

  /** Before an identity is known nothing is granted indirectly, so LoginOp is allowed only directly, and
      then its macaroon is recorded. */
  lemma LoginOnlyDirect(vs: seq<Verdict>, m: Indexes, check: ConditionCheck, inner: Option<Authorizer>,
                        authorize: IdentityAuthorizer, order: seq<Op>)
    requires IndexesOk(vs, m) && (forall op :: op in order <==> op in m) && forall op :: op in m ==> Below(m[op], |vs|)
    ensures var d := Decide(vs, m, check, Some(IdentityOps(None, inner, authorize)), [LOGIN_OP], order);
      && (d.Allowed? <==> DirectlyAllowed(vs, check, LOGIN_OP))
      && (d.Allowed? ==> InfoOk(vs, check, d.state))
      && (d.Allowed? ==> LOGIN_OP in d.state.opIndexes && IsFirstGood(vs, check, LOGIN_OP, d.state.opIndexes[LOGIN_OP]))
  {
    var ops := [LOGIN_OP];
    var auth := IdentityOps(None, inner, authorize);
    var grants := (mi: Option<nat>, op: Op, q: Op) => false;
    assert Independent(auth, grants);
    var st := Direct(StartState(vs, check, ops), ops, m, 1);
    DirectExact(vs, m, check, ops, 1);
    IndirectExact(st, ops, auth, m, order, grants);
    NoneUnauthed(st.authed);
    NoneUnauthed(Indirect(st, ops, Some(auth), m, order).value.0.authed);
    assert ops[0] == LOGIN_OP && LOGIN_OP != NO_OP;
  }

  /** No other macaroon is used for that. */
  lemma LoginUsesOne(vs: seq<Verdict>, m: Indexes, check: ConditionCheck, inner: Option<Authorizer>,
                     authorize: IdentityAuthorizer, order: seq<Op>)
    requires IndexesOk(vs, m) && (forall op :: op in order <==> op in m) && forall op :: op in m ==> Below(m[op], |vs|)
    ensures var d := Decide(vs, m, check, Some(IdentityOps(None, inner, authorize)), [LOGIN_OP], order);
      d.Allowed? ==>
        && LOGIN_OP in d.state.opIndexes && |d.state.status| == |vs|
        && forall i :: 0 <= i < |vs| ==> (d.state.status[i].used <==> i == d.state.opIndexes[LOGIN_OP])
  {
    var ops := [LOGIN_OP];
    LoginOnlyDirect(vs, m, check, inner, authorize, order);
    var st := DirectOnly(vs, m, check, LOGIN_OP, ops);
    DirectUsed(vs, m, check, ops, |ops|);
    assert ops[..|ops|] == ops;
  }

  // ---------- a context that already carries an identity ----------

  /** A good macaroon carries q, or an operation of a good macaroon grants it when asked about q alone. */
  ghost predicate ByMacaroon(vs: seq<Verdict>, check: ConditionCheck, auth: Authorizer, q: Op) {
    DirectlyAllowed(vs, check, q) || exists op :: OpAnswers(vs, check, auth, op, q)
  }

  ghost predicate OpAnswers(vs: seq<Verdict>, check: ConditionCheck, auth: Authorizer, op: Op, q: Op) {
    exists i: nat :: Good(vs, check, op, i) && Answers(auth, Some(i), op, [q], 0)
  }

  /** A single operation is authorized exactly if it is recorded. */
  ghost predicate RecordedIffAuthed(st: State, q: Op) {
    |st.authed| == 1 && (st.authed[0] <==> q in st.opIndexes)
  }

  lemma QueryOne(st: State, q: Op, auth: Authorizer, op: Op, i: nat)
    requires RecordedIffAuthed(st, q) && i < |st.status| && Query(st, [q], [0], auth, Some(i), op).Some?
    ensures var r := Query(st, [q], [0], auth, Some(i), op).value.0;
      RecordedIffAuthed(r, q) && (r.authed[0] <==> st.authed[0] || Answers(auth, Some(i), op, [q], 0))
  {
    assert At([q], [0]) == [q];
    var allowed := auth(Some(i), op, [q]).value.allowed;
    assert Granted(st, [q], [0], Some(i), allowed, 0) == st;
  }

  lemma {:induction false} QueryMacaroonsOne(st: State, q: Op, auth: Authorizer, op: Op, mindexes: seq<nat>)
    requires RecordedIffAuthed(st, q) && Below(mindexes, |st.status|)
    requires QueryMacaroons(st, [q], [0], auth, op, mindexes).Some?
    ensures var r := QueryMacaroons(st, [q], [0], auth, op, mindexes).value.0;
      RecordedIffAuthed(r, q) && (r.authed[0] <==> st.authed[0] || SomeAnswers(st.status, auth, op, mindexes, q))
    decreases |mindexes|
  {
    if mindexes != [] {
      var st1 := st;
      if st.status[mindexes[0]].ok {
        QueryOne(st, q, auth, op, mindexes[0]);
        st1 := Query(st, [q], [0], auth, Some(mindexes[0]), op).value.0;
      }
      QueryMacaroonsOne(st1, q, auth, op, mindexes[1..]);
      SomeAnswersNext(st.status, st1.status, auth, op, mindexes, q);
    }
  }

  ghost predicate SomeAnswers(status: seq<Status>, auth: Authorizer, op: Op, mindexes: seq<nat>, q: Op)
    requires Below(mindexes, |status|)
  {
    exists b :: 0 <= b < |mindexes| && status[mindexes[b]].ok && Answers(auth, Some(mindexes[b]), op, [q], 0)
  }

  lemma SomeAnswersNext(status: seq<Status>, status': seq<Status>, auth: Authorizer, op: Op, mindexes: seq<nat>, q: Op)
    requires Below(mindexes, |status|) && mindexes != [] && |status| == |status'|
    requires forall i :: 0 <= i < |status| ==> status[i].ok == status'[i].ok
    ensures SomeAnswers(status, auth, op, mindexes, q) <==>
      (status[mindexes[0]].ok && Answers(auth, Some(mindexes[0]), op, [q], 0))
      || SomeAnswers(status', auth, op, mindexes[1..], q)
  {
    assert forall b :: 1 <= b < |mindexes| ==> mindexes[b] == mindexes[1..][b - 1];
    assert forall b :: 0 <= b < |mindexes[1..]| ==> mindexes[1..][b] == mindexes[b + 1];
  }

  lemma VisitOne(vs: seq<Verdict>, m: Indexes, check: ConditionCheck, st: State, q: Op, auth: Authorizer, op: Op)
    requires IndexesOk(vs, m) && StatusesOk(vs, check, st) && RecordedIffAuthed(st, q) && op in m && Below(m[op], |vs|)
    requires QueryMacaroons(st, [q], [0], auth, op, m[op]).Some?
    ensures var r := QueryMacaroons(st, [q], [0], auth, op, m[op]).value.0;
      && RecordedIffAuthed(r, q) && StatusesOk(vs, check, r)
      && (r.authed[0] <==> st.authed[0] || OpAnswers(vs, check, auth, op, q))
  {
    var mindexes := m[op];
    QueryMacaroonsOne(st, q, auth, op, mindexes);
    if SomeAnswers(st.status, auth, op, mindexes, q) {
      var b :| 0 <= b < |mindexes| && st.status[mindexes[b]].ok && Answers(auth, Some(mindexes[b]), op, [q], 0);
      assert mindexes[b] in mindexes && Good(vs, check, op, mindexes[b]);
    }
    if OpAnswers(vs, check, auth, op, q) {
      var i: nat :| Good(vs, check, op, i) && Answers(auth, Some(i), op, [q], 0);
      assert i in mindexes;
    }
  }

  lemma UnauthedOne(authed: seq<bool>)
    requires |authed| == 1
    ensures Unauthed(authed) == if authed[0] then [] else [0]
  {
    assert UnauthedIn(authed, 0) == [];
  }

  /** At the end of the loop a single operation is authorized, and recorded, exactly if it was, or an operation
      of the list has a good macaroon that grants it. */
  lemma {:induction false} QueryOpsOne(vs: seq<Verdict>, m: Indexes, check: ConditionCheck, st: State, q: Op,
                                       auth: Authorizer, order: seq<Op>)
    requires IndexesOk(vs, m) && StatusesOk(vs, check, st) && RecordedIffAuthed(st, q) && WellFormed(st, [q], m)
    requires (forall op :: op in order ==> op in m) && QueryOps(st, [q], auth, m, order).Some?
    ensures var r := QueryOps(st, [q], auth, m, order).value.0;
      && RecordedIffAuthed(r, q)
      && (r.authed[0] <==> st.authed[0] || exists op :: op in order && OpAnswers(vs, check, auth, op, q))
    decreases |order|
  {
    UnauthedOne(st.authed);
    if order != [] && !st.authed[0] {
      VisitOne(vs, m, check, st, q, auth, order[0]);
      var st1 := QueryMacaroons(st, [q], [0], auth, order[0], m[order[0]]).value.0;
      QueryOpsOne(vs, m, check, st1, q, auth, order[1..]);
      assert forall op :: op in order <==> op == order[0] || op in order[1..];
    }
  }

  lemma NoOpRecordsNothing(st: State, q: Op, auth: Authorizer)
    requires |st.authed| == 1 && Query(st, [q], [0], auth, None, NO_OP).Some?
    ensures Query(st, [q], [0], auth, None, NO_OP).value.0.opIndexes == st.opIndexes
  {
    assert At([q], [0]) == [q];
    var allowed := auth(None, NO_OP, [q]).value.allowed;
    assert Granted(st, [q], [0], None, allowed, 0) == st;
  }

  lemma IndirectOne(vs: seq<Verdict>, m: Indexes, check: ConditionCheck, st: State, q: Op, auth: Authorizer,
                    order: seq<Op>)
    requires IndexesOk(vs, m) && (forall op :: op in order <==> op in m) && WellFormed(st, [q], m)
    requires StatusesOk(vs, check, st) && RecordedIffAuthed(st, q) && !st.authed[0]
    requires Indirect(st, [q], Some(auth), m, order).Some?
    ensures q in Indirect(st, [q], Some(auth), m, order).value.0.opIndexes <==>
      exists op :: OpAnswers(vs, check, auth, op, q)
  {
    QueryOpsOne(vs, m, check, st, q, auth, order);
    var st1 := QueryOps(st, [q], auth, m, order).value.0;
    UnauthedOne(st1.authed);
    forall op | OpAnswers(vs, check, auth, op, q) ensures op in order {
      var i: nat :| Good(vs, check, op, i) && Answers(auth, Some(i), op, [q], 0);
    }
    if !st1.authed[0] {
      NoOpRecordsNothing(st1, q, auth);
    }
  }

  /** After checkDirect a single operation is authorized, and recorded, exactly if it is directly allowed. */
  lemma DirectOnly(vs: seq<Verdict>, m: Indexes, check: ConditionCheck, q: Op, ops: seq<Op>) returns (st: State)
    requires IndexesOk(vs, m) && (forall op :: op in m ==> Below(m[op], |vs|)) && q != NO_OP && ops == [q]
    ensures st == Direct(StartState(vs, check, ops), ops, m, |ops|) && WellFormed(st, ops, m)
      && StatusesOk(vs, check, st)
    ensures RecordedIffAuthed(st, q) && (st.authed[0] <==> DirectlyAllowed(vs, check, q))
    ensures Unauthed(st.authed) == if st.authed[0] then [] else [0]
  {
    st := Direct(StartState(vs, check, ops), ops, m, |ops|);
    DirectExact(vs, m, check, ops, |ops|);
    UnauthedOne(st.authed);
    assert ops[0] in ops[..|ops|];
  }

  /** A single operation that is allowed is recorded exactly if some macaroon is the reason, and not only NoOp. */
  lemma RecordedIffByMacaroon(vs: seq<Verdict>, m: Indexes, check: ConditionCheck, auth: Authorizer, order: seq<Op>,
                              q: Op, ops: seq<Op>)
    requires IndexesOk(vs, m) && (forall op :: op in order <==> op in m) && forall op :: op in m ==> Below(m[op], |vs|)
    requires q != NO_OP && ops == [q]
    ensures var d := Decide(vs, m, check, Some(auth), ops, order);
      d.Allowed? ==> (q in d.state.opIndexes <==> ByMacaroon(vs, check, auth, q))
  {
    var st := DirectOnly(vs, m, check, q, ops);
    AllowedState(vs, m, check, auth, ops, order, st);
    if !st.authed[0] && Indirect(st, ops, Some(auth), m, order).Some? {
      IndirectOne(vs, m, check, st, q, auth, order);
    }
  }

  /** The state that a decision to allow reports. */
  lemma AllowedState(vs: seq<Verdict>, m: Indexes, check: ConditionCheck, auth: Authorizer, ops: seq<Op>,
                     order: seq<Op>, st: State)
    requires (forall op :: op in order ==> op in m) && forall op :: op in m ==> Below(m[op], |vs|)
    requires st == Direct(StartState(vs, check, ops), ops, m, |ops|)
    ensures var d := Decide(vs, m, check, Some(auth), ops, order);
      d.Allowed? ==>
        if Unauthed(st.authed) == [] then d.state == st
        else Indirect(st, ops, Some(auth), m, order).Some? && d.state == Indirect(st, ops, Some(auth), m, order).value.0
  {
  }

  /** After an allowed login, in whatever context, the macaroon of LoginOp that Allow then looks up is there
      exactly if LoginOp was granted by a macaroon. */
  lemma LoginIndexIsPresentIff(vs: seq<Verdict>, m: Indexes, check: ConditionCheck, ctx: Option<Option<Identity>>,
                               inner: Option<Authorizer>, authorize: IdentityAuthorizer, order: seq<Op>)
    requires IndexesOk(vs, m) && (forall op :: op in order <==> op in m) && forall op :: op in m ==> Below(m[op], |vs|)
    ensures var auth := IdentityOps(ctx, inner, authorize);
      var d := Decide(vs, m, check, Some(auth), [LOGIN_OP], order);
      && (d.Allowed? ==> (LOGIN_OP in d.state.opIndexes <==> ByMacaroon(vs, check, auth, LOGIN_OP)))
      && (ctx.None? && d.Allowed? ==> LOGIN_OP in d.state.opIndexes)
  {
    RecordedIffByMacaroon(vs, m, check, IdentityOps(ctx, inner, authorize), order, LOGIN_OP, [LOGIN_OP]);
    if ctx.None? {
      LoginOnlyDirect(vs, m, check, inner, authorize, order);
    }
  }

  /** Such contexts matter: in one, with an authorizer that allows LoginOp to its identity, LoginOp is allowed
      without any macaroon, and there is none to look up. */
  lemma LoginWithoutMacaroon(check: ConditionCheck, identity: Option<Identity>, inner: Option<Authorizer>,
                             authorize: IdentityAuthorizer)
    requires authorize(identity, [LOGIN_OP]) == Some(Answer([true], []))
    ensures var d := Decide([], map[], check, Some(IdentityOps(Some(identity), inner, authorize)), [LOGIN_OP], []);
      d.Allowed? && d.state.opIndexes == map[]
  {
    var auth := IdentityOps(Some(identity), inner, authorize);
    var vs: seq<Verdict>, m: Indexes := [], map[];
    var st := DirectOnly(vs, m, check, LOGIN_OP, [LOGIN_OP]);
    assert Direct(StartState(vs, check, [LOGIN_OP]), [LOGIN_OP], m, 0) == StartState(vs, check, [LOGIN_OP]);
    assert forall i: nat :: !Good(vs, check, LOGIN_OP, i);
    assert QueryOps(st, [LOGIN_OP], auth, m, []) == Some((st, []));
    NoOpGrants(st, LOGIN_OP, auth);
  }

  lemma NoOpGrants(st: State, q: Op, auth: Authorizer)
    requires |st.authed| == 1 && auth(None, NO_OP, [q]) == Some(Answer([true], []))
    ensures Query(st, [q], [0], auth, None, NO_OP).Some?
    ensures var (r, c) := Query(st, [q], [0], auth, None, NO_OP).value;
      c == [] && Unauthed(r.authed) == [] && r.opIndexes == st.opIndexes
  {
    assert At([q], [0]) == [q];
    assert Granted(st, [q], [0], None, [true], 0) == st;
    UnauthedOne(Query(st, [q], [0], auth, None, NO_OP).value.0.authed);
  }

  // ---------- who authorizes, once an identity is known ----------

  /** inner, if there is one, grants q from an operation of a good macaroon, other than NoOp, in a query about
      requested operations still needed. */
  ghost predicate ByInner(vs: seq<Verdict>, check: ConditionCheck, inner: Option<Authorizer>, ops: seq<Op>, q: Op) {
    inner.Some? && exists i: nat, op: Op, qs: seq<Op>, j: nat ::
      && Good(vs, check, op, i) && op != NO_OP && IsQuery(vs, check, ops, qs)
      && Answers(inner.value, Some(i), op, qs, j) && qs[j] == q
  }

  /** authorize grants q to the identity, in such a query. */
  ghost predicate ByIdentity(vs: seq<Verdict>, check: ConditionCheck, authorize: IdentityAuthorizer,
                             id: Option<Identity>, ops: seq<Op>, q: Op)
  {
    exists qs: seq<Op>, j: nat :: IsQuery(vs, check, ops, qs) && Says(authorize, id, qs, j) && qs[j] == q
  }

  ghost predicate Says(authorize: IdentityAuthorizer, id: Option<Identity>, qs: seq<Op>, j: nat) {
    authorize(id, qs).Some? && j < |qs| && j < |authorize(id, qs).value.allowed| && authorize(id, qs).value.allowed[j]
  }

  /** Why an operation other than LoginOp is allowed to an identity. */
  ghost predicate AllowedTo(vs: seq<Verdict>, check: ConditionCheck, inner: Option<Authorizer>,
                            authorize: IdentityAuthorizer, id: Option<Identity>, ops: seq<Op>, q: Op)
  {
    || q == NO_OP || DirectlyAllowed(vs, check, q)
    || ByInner(vs, check, inner, ops, q) || ByIdentity(vs, check, authorize, id, ops, q)
  }

  lemma MayBeIsAllowedTo(vs: seq<Verdict>, check: ConditionCheck, inner: Option<Authorizer>,
                         authorize: IdentityAuthorizer, id: Option<Identity>, ops: seq<Op>, q: Op)
    requires MayBeAuthed(vs, check, Some(IdentityOps(Some(id), inner, authorize)), ops, q)
    ensures AllowedTo(vs, check, inner, authorize, id, ops, q)
  {
    var auth := IdentityOps(Some(id), inner, authorize);
    if q != NO_OP && !DirectlyAllowed(vs, check, q) {
      var mi: Option<nat>, op: Op, qs: seq<Op>, j: nat :|
        Source(vs, check, mi, op) && IsQuery(vs, check, ops, qs) && Answers(auth, mi, op, qs, j) && qs[j] == q;
      if op == NO_OP {
        assert Says(authorize, id, qs, j);
      } else if inner.Some? {
        assert Answers(inner.value, mi, op, qs, j);
        assert mi == Some(mi.value);
      }
    }
  }

  /** inner and authorize never fail and answer about each operation independently. */
  ghost predicate Steady(inner: Option<Authorizer>, authorize: IdentityAuthorizer, id: Option<Identity>,
                         byInner: (Option<nat>, Op, Op) -> bool, byIdentity: Op -> bool)
  {
    && (inner.Some? ==> Independent(inner.value, byInner))
    && forall qs :: authorize(id, qs).Some? && SaysAre(authorize(id, qs).value.allowed, qs, byIdentity)
  }

  ghost predicate SaysAre(allowed: seq<bool>, qs: seq<Op>, byIdentity: Op -> bool) {
    && |allowed| <= |qs|
    && forall j :: 0 <= j < |qs| ==> (byIdentity(qs[j]) <==> j < |allowed| && allowed[j])
  }

  /** What such authorizers let the identity do. */
  ghost predicate Permitted(vs: seq<Verdict>, check: ConditionCheck, inner: Option<Authorizer>,
                            byInner: (Option<nat>, Op, Op) -> bool, byIdentity: Op -> bool, q: Op)
  {
    || q == NO_OP || DirectlyAllowed(vs, check, q) || byIdentity(q)
    || (inner.Some? && exists op: Op, i: nat :: Good(vs, check, op, i) && op != NO_OP && byInner(Some(i), op, q))
  }

  /** Whatever inner and authorize grant, if they are steady: the request goes through, perhaps with a
      discharge, exactly if all of it is permitted. */
  ghost predicate ExactIfSteady(vs: seq<Verdict>, check: ConditionCheck, inner: Option<Authorizer>,
                                authorize: IdentityAuthorizer, id: Option<Identity>, ops: seq<Op>, passes: bool)
  {
    forall byInner, byIdentity :: Steady(inner, authorize, id, byInner, byIdentity) ==>
      (passes <==> forall q :: q in ops ==> Permitted(vs, check, inner, byInner, byIdentity, q))
  }

  /** With such authorizers a request is denied exactly if some operation of it is permitted by neither. */
  lemma DeniedIffNotPermitted(vs: seq<Verdict>, m: Indexes, check: ConditionCheck, inner: Option<Authorizer>,
                              authorize: IdentityAuthorizer, id: Option<Identity>,
                              byInner: (Option<nat>, Op, Op) -> bool, byIdentity: Op -> bool, ops: seq<Op>,
                              order: seq<Op>)
    requires IndexesOk(vs, m) && (forall op :: op in order <==> op in m) && forall op :: op in m ==> Below(m[op], |vs|)
    requires Steady(inner, authorize, id, byInner, byIdentity)
    ensures var d := Decide(vs, m, check, Some(IdentityOps(Some(id), inner, authorize)), ops, order);
      && (d == Denied <==> exists q :: q in ops && !Permitted(vs, check, inner, byInner, byIdentity, q))
      && d != Failed
  {
    var auth := IdentityOps(Some(id), inner, authorize);
    var grants := (mi: Option<nat>, op: Op, q: Op) =>
      if op == NO_OP then byIdentity(q) else inner.Some? && byInner(mi, op, q);
    forall mi, op, qs ensures auth(mi, op, qs).Some? && AnswersAre(auth(mi, op, qs).value.allowed, mi, op, qs, grants) {
      if op == NO_OP {
        assert SaysAre(authorize(id, qs).value.allowed, qs, byIdentity);
      } else if inner.Some? {
        assert AnswersAre(inner.value(mi, op, qs).value.allowed, mi, op, qs, byInner);
      }
    }
    DenialIsOrderIndependent(vs, m, check, auth, ops, order, grants);
    forall q ensures Grantable(vs, check, grants, q) <==> Permitted(vs, check, inner, byInner, byIdentity, q) {
      if MacaroonGrants(vs, check, grants, q) {
        var op, i: nat :| Good(vs, check, op, i) && grants(Some(i), op, q);
      }
      if inner.Some? && exists op: Op, i: nat :: Good(vs, check, op, i) && op != NO_OP && byInner(Some(i), op, q) {
        var op: Op, i: nat :| Good(vs, check, op, i) && op != NO_OP && byInner(Some(i), op, q);
        assert grants(Some(i), op, q);
      }
      assert grants(None, NO_OP, q) == byIdentity(q);
    }
  }

  /** A caveat that inner or authorize returned in a call: authorize in that for NoOp, inner in any other. */
  ghost predicate ReturnedTo(inner: Option<Authorizer>, authorize: IdentityAuthorizer, id: Option<Identity>,
                             log: seq<Call>, c: Caveat)
  {
    exists n :: 0 <= n < |log| && CallReturns(inner, authorize, id, log[n].mi, log[n].op, log[n].qs, c)
  }

  ghost predicate CallReturns(inner: Option<Authorizer>, authorize: IdentityAuthorizer, id: Option<Identity>,
                              mi: Option<nat>, op: Op, qs: seq<Op>, c: Caveat)
  {
    if op == NO_OP then authorize(id, qs).Some? && c in authorize(id, qs).value.caveats
    else inner.Some? && inner.value(mi, op, qs).Some? && c in inner.value(mi, op, qs).value.caveats
  }

  /** The caveats of a decision that does not deny are exactly those that inner and authorize returned in the
      calls made for it. */
  ghost predicate CaveatsOfCalls(vs: seq<Verdict>, m: Indexes, check: ConditionCheck, inner: Option<Authorizer>,
                                 authorize: IdentityAuthorizer, id: Option<Identity>, ops: seq<Op>, order: seq<Op>,
                                 caveats: seq<Caveat>)
    requires (forall op :: op in order ==> op in m) && forall op :: op in m ==> Below(m[op], |vs|)
  {
    exists log ::
      && Follow(vs, m, check, IdentityOps(Some(id), inner, authorize), ops, order, [], log)
      && forall c :: c in caveats <==> ReturnedTo(inner, authorize, id, log, c)
  }

  lemma CaveatsAreOfCalls(vs: seq<Verdict>, m: Indexes, check: ConditionCheck, inner: Option<Authorizer>,
                          authorize: IdentityAuthorizer, id: Option<Identity>, ops: seq<Op>, order: seq<Op>)
    requires IndexesOk(vs, m) && (forall op :: op in order ==> op in m) && forall op :: op in m ==> Below(m[op], |vs|)
    ensures var d := Decide(vs, m, check, Some(IdentityOps(Some(id), inner, authorize)), ops, order);
      && (d.Allowed? ==> CaveatsOfCalls(vs, m, check, inner, authorize, id, ops, order, []))
      && (d.DischargeRequired? ==> CaveatsOfCalls(vs, m, check, inner, authorize, id, ops, order, d.caveats))
  {
    var auth := IdentityOps(Some(id), inner, authorize);
    var d := Decide(vs, m, check, Some(auth), ops, order);
    if d != Failed {
      var log := DecisionByCalls(vs, m, check, auth, ops, order);
      forall c ensures Returned(auth, log, c) <==> ReturnedTo(inner, authorize, id, log, c) {
        ReturnedIs(inner, authorize, id, log, c);
      }
    }
  }

  lemma ReturnedIs(inner: Option<Authorizer>, authorize: IdentityAuthorizer, id: Option<Identity>, log: seq<Call>,
                   c: Caveat)
    ensures Returned(IdentityOps(Some(id), inner, authorize), log, c) <==> ReturnedTo(inner, authorize, id, log, c)
  {
    var auth := IdentityOps(Some(id), inner, authorize);
    forall n | 0 <= n < |log|
      ensures Returns(auth, log[n].mi, log[n].op, log[n].qs, c)
        <==> CallReturns(inner, authorize, id, log[n].mi, log[n].op, log[n].qs, c)
    {
    }
  }

  /** All of this about one decision. */
  lemma DecisionIsOfAuthorizers(vs: seq<Verdict>, m: Indexes, check: ConditionCheck, inner: Option<Authorizer>,
                                authorize: IdentityAuthorizer, id: Option<Identity>, ops: seq<Op>, order: seq<Op>)
    requires IndexesOk(vs, m) && (forall op :: op in order <==> op in m) && forall op :: op in m ==> Below(m[op], |vs|)
    ensures var d := Decide(vs, m, check, Some(IdentityOps(Some(id), inner, authorize)), ops, order);
      var passes := d.Allowed? || d.DischargeRequired?;
      && (passes ==> forall q :: q in ops ==> AllowedTo(vs, check, inner, authorize, id, ops, q))
      && ExactIfSteady(vs, check, inner, authorize, id, ops, passes)
      && (passes ==> CaveatsOfCalls(vs, m, check, inner, authorize, id, ops, order,
                       if d.DischargeRequired? then d.caveats else []))
  {
    var auth := IdentityOps(Some(id), inner, authorize);
    AllowIsSound(vs, m, check, Some(auth), ops, order);
    forall q | MayBeAuthed(vs, check, Some(auth), ops, q)
      ensures AllowedTo(vs, check, inner, authorize, id, ops, q)
    {
      MayBeIsAllowedTo(vs, check, inner, authorize, id, ops, q);
    }
    forall byInner, byIdentity | Steady(inner, authorize, id, byInner, byIdentity)
      ensures
        var d := Decide(vs, m, check, Some(auth), ops, order);
        d.Allowed? || d.DischargeRequired? <==>
          forall q :: q in ops ==> Permitted(vs, check, inner, byInner, byIdentity, q)
    {
      DeniedIffNotPermitted(vs, m, check, inner, authorize, id, byInner, byIdentity, ops, order);
    }
    CaveatsAreOfCalls(vs, m, check, inner, authorize, id, ops, order);
  }

  datatype Reply =
    | Allow(used: seq<bool>, opIndexes: map<Op, nat>, identity: Option<Identity>)
    | Deny
    | Discharge(caveats: seq<Caveat>, forAuthentication: bool)
    | Error

  /** The outcome of the first half of Allow: an identity or none, the caveats that would lead to one, and
      the login macaroon; or the reply of a call that cannot go on. */
  datatype Identified = Known(id: Option<Identity>, caveats: seq<Caveat>, used: seq<bool>, login: Option<nat>)
                      | Unknown(reply: Reply, login: Option<nat>)

  function UsedOf(st: State): seq<bool> {
    seq(|st.status|, i requires 0 <= i < |st.status| => st.status[i].used)
  }

  /** The identity of a request, or the caveats that would lead to one; or the reply when none can be
      determined. */
  datatype Who = Is(id: Option<Identity>, caveats: seq<Caveat>) | Cannot(reply: Reply)

  /** Whose request it is: the identity found before, else the one that the login macaroon declares, else that
      of the context. */
  function WhoOf(client: IdentityClient, before: Option<Identity>, login: Option<nat>): Who {
    if before.Some? then Is(before, [])
    else if login.Some? then
      match client.declared(login.value)
      case Some(Some(id)) => Is(Some(id), [])
      case _ => Cannot(Error)
    else
      match client.fromContext
      case None => Cannot(Deny)
      case Some((id, caveats)) => if caveats != [] then Is(None, caveats) else Is(id, [])
  }

  /** The decision of the underlying checker. */
  ghost function Decided(c: AuthChecker, check: ConditionCheck, auth: Authorizer, order: set<Op> -> seq<Op>,
                         ops: seq<Op>): Decision
    requires c.Valid() && c.initDone && forall s, x :: x in order(s) <==> x in s
    reads c
  {
    if c.initFailed then Failed
    else
      c.IndexesInRange();
      Decide(c.verdicts, c.authIndexes, check, Some(auth), ops, order(c.authIndexes.Keys))
  }

  /** The caveats of a reply, none for one that allows, are those returned in the calls made for it. */
  ghost predicate Collected(c: AuthChecker, check: ConditionCheck, inner: Option<Authorizer>,
                            authorize: IdentityAuthorizer, id: Option<Identity>, order: set<Op> -> seq<Op>,
                            ops: seq<Op>, r: Reply)
    requires c.Valid() && c.initDone && forall s, x :: x in order(s) <==> x in s
    reads c
  {
    !c.initFailed && (r.Allow? || r.Discharge?) && (
      c.IndexesInRange();
      CaveatsOfCalls(c.verdicts, c.authIndexes, check, inner, authorize, id, ops, order(c.authIndexes.Keys),
        if r.Discharge? then r.caveats else []))
  }

  /** The reply to a request of ops when d is the decision about all but LoginOp. */
  ghost predicate Replied(who: Who, ops: seq<Op>, d: Decision, r: Reply) {
    if who.Cannot? then r == who.reply
    else if WithoutLogin(ops) == [] && who.id.Some? then
      r.Allow? && r.identity == who.id && forall op :: op in r.opIndexes ==> op == LOGIN_OP
    else if WithoutLogin(ops) != [] && (LOGIN_OP !in ops || who.id.Some?) && (d.Allowed? || d.DischargeRequired?) then
      if d.DischargeRequired? then r == Discharge(d.caveats, false)
      else r.Allow? && r.identity == who.id && forall op :: op != LOGIN_OP ==>
        && (op in r.opIndexes <==> op in d.state.opIndexes)
        && (op in r.opIndexes ==> r.opIndexes[op] == d.state.opIndexes[op])
    else r == if who.id.Some? || who.caveats == [] then Deny else Discharge(who.caveats, true)
  }

  /** Used are the login macaroon and, if more was decided, what that decision used. */
  ghost predicate UsedIs(login: Option<nat>, need: seq<Op>, d: Decision, used: seq<bool>) {
    forall i :: 0 <= i < |used| ==> (used[i] <==> login == Some(i) || (need != [] && UsedIn(d, i)))
  }

  predicate UsedIn(d: Decision, i: nat) {
    d.Allowed? && i < |d.state.status| && d.state.status[i].used
  }

  /** The context alone gives an identity. */
  ghost predicate FromContext(client: IdentityClient) {
    client.fromContext.Some? && client.fromContext.value.0.Some? && client.fromContext.value.1 == []
  }

  /** What the login macaroon, or else the context, says of the identity when none was known before, and what
      that means for the reply. */
  ghost predicate Authenticated(client: IdentityClient, before: Option<Identity>, login: Option<nat>, ops: seq<Op>,
                                r: Reply)
  {
    && (before.Some? && r.Allow? ==> r.identity == before)
    && (before.None? && r.Allow? && login.Some? ==>
          client.declared(login.value) == Some(r.identity) && r.identity.Some?)
    && (before.None? && r.Allow? && login.None? ==>
          && client.fromContext.Some?
          && r.identity == if client.fromContext.value.1 == [] then client.fromContext.value.0 else None)
    && (r.Discharge? && r.forAuthentication ==>
          && before.None? && login.None? && client.fromContext.Some?
          && r.caveats == client.fromContext.value.1 != [])
    && (r.Error? <==> before.None? && login.Some? && forall id :: client.declared(login.value) != Some(Some(id)))
    && ((forall op :: op in ops ==> op == LOGIN_OP) && (before.Some? || login.Some? || FromContext(client)) ==>
          r.Allow? || r.Error?)
    && (LOGIN_OP in ops && before.None? && login.None? && client.fromContext.Some? ==>
          var caveats := client.fromContext.value.1;
          caveats != [] ==> r == Discharge(caveats, true))
  }

  lemma AuthenticatedReply(client: IdentityClient, before: Option<Identity>, login: Option<nat>, ops: seq<Op>,
                           d: Decision, r: Reply)
    requires Replied(WhoOf(client, before, login), ops, d, r)
    ensures Authenticated(client, before, login, ops, r)
  {
    if forall op :: op in ops ==> op == LOGIN_OP {
      assert WithoutLogin(ops) != [] ==> WithoutLogin(ops)[0] in WithoutLogin(ops);
    }
  }

  /** The login macaroon is the first one that allows LoginOp directly, if any does. */
  ghost predicate IsLogin(c: AuthChecker, check: ConditionCheck, login: Option<nat>)
    reads c
  {
    && (login.Some? <==> !c.initFailed && DirectlyAllowed(c.verdicts, check, LOGIN_OP))
    && (login.Some? ==> IsFirstGood(c.verdicts, check, LOGIN_OP, login.value))
  }

  class IdentAuthChecker {
    const authChecker: AuthChecker
    var identity: Option<Identity>
    /** The identities of the successful calls so far. */
    ghost var granted: seq<Option<Identity>>

    ghost predicate Valid()
      reads this, authChecker
    {
      && authChecker.Valid()
      && forall i :: 0 <= i < |granted| && granted[i].Some? ==> granted[i] == identity
    }

    constructor (verdicts: seq<Verdict>)
      ensures Valid() && fresh(authChecker) && authChecker.verdicts == verdicts && granted == []
    {
      authChecker := new AuthChecker(verdicts);
      identity, granted := None, [];
    }

    /** None stands for an error. */
    method InferFromMacaroon(client: IdentityClient, i: nat) returns (r: Option<Identity>)
      modifies `identity
      ensures var who := WhoOf(client, old(identity), Some(i));
        if who.Is? then r == identity == who.id && r.Some? else r.None? && identity == old(identity)
    {
      if identity.Some? {
        return identity;
      }
      var declared := client.declared(i);
      if declared.None? || declared.value.None? {
        return None;
      }
      identity := declared.value;
      return identity;
    }

    /** None stands for an error. */
    method InferFromContext(client: IdentityClient) returns (r: Option<(Option<Identity>, seq<Caveat>)>)
      modifies `identity
      ensures var who := WhoOf(client, old(identity), None);
        if who.Is? then r == Some((who.id, who.caveats)) && identity == who.id else r.None? && identity == old(identity)
    {
      if identity.Some? {
        return Some((identity, []));
      }
      if client.fromContext.None? {
        return None;
      }
      var (id, caveats) := client.fromContext.value;
      if |caveats| != 0 {
        return Some((None, caveats));
      }
      identity := id;
      return Some((id, []));
    }

    /** check and check' are the first-party checks, order and order' the iteration orders, at the time of the
        login and of the other decision. */
    method AllowOps(client: IdentityClient, check: ConditionCheck, check': ConditionCheck, inner: Option<Authorizer>,
                    authorize: IdentityAuthorizer, order: set<Op> -> seq<Op>, order': set<Op> -> seq<Op>, ops: seq<Op>)
      returns (r: Reply, ghost login: Option<nat>)
      requires Valid() && (forall s, x :: x in order(s) <==> x in s) && forall s, x :: x in order'(s) <==> x in s
      requires forall ctx :: Frugal(IdentityOps(ctx, inner, authorize))
      modifies this, authChecker
      ensures Valid() && granted == old(granted) + (if r.Allow? then [r.identity] else [])
      ensures old(identity).Some? ==> identity == old(identity)
      ensures r.Allow? && r.identity.Some? ==> r.identity == identity
      ensures r.Allow? && LOGIN_OP in ops ==> r.identity.Some?
      ensures authChecker.initDone && IsLogin(authChecker, check, login)
      ensures Authenticated(client, old(identity), login, ops, r)
      ensures var who := WhoOf(client, old(identity), login);
        var need := WithoutLogin(ops);
        var passes := r.Allow? || (r.Discharge? && !r.forAuthentication);
        && (passes ==> who.Is? && forall op :: op in ops && op != LOGIN_OP ==>
              AllowedTo(authChecker.verdicts, check', inner, authorize, who.id, need, op))
        && (passes && need != [] ==> Collected(authChecker, check', inner, authorize, who.id, order', need, r))
        && (who.Is? && need != [] && (LOGIN_OP !in ops || who.id.Some?) && !authChecker.initFailed ==>
              ExactIfSteady(authChecker.verdicts, check', inner, authorize, who.id, need, passes))
      ensures r.Allow? && login.Some? ==> LOGIN_OP in r.opIndexes && r.opIndexes[LOGIN_OP] == login.value
      ensures r.Allow? ==> forall op :: op in r.opIndexes ==> r.opIndexes[op] < |r.used| && r.used[r.opIndexes[op]]
      ensures r.Allow? && LOGIN_OP in r.opIndexes ==> login.Some?
      ensures r.Allow? ==>
        && |r.used| == |authChecker.verdicts|
        && UsedIs(login, WithoutLogin(ops), Decided(authChecker, check',
             IdentityOps(Some(r.identity), inner, authorize), order', WithoutLogin(ops)), r.used)
      ensures var who := WhoOf(client, old(identity), login);
        Replied(who, ops, if who.Cannot? then Failed
          else Decided(authChecker, check', IdentityOps(Some(who.id), inner, authorize), order', WithoutLogin(ops)), r)
    {
      var who := Identify(client, check, inner, authorize, order);
      login := who.login;
      if who.Unknown? {
        r := who.reply;
        AuthenticatedReply(client, old(identity), login, ops, Failed, r);
        return;
      }
      r := Answer(who, check', inner, authorize, order', ops);
      AuthenticatedReply(client, old(identity), login, ops, Decided(authChecker, check',
        IdentityOps(Some(who.id), inner, authorize), order', WithoutLogin(ops)), r);
      if r.Allow? {
        granted := granted + [r.identity];
      }
    }

    /** The second half of Allow, once it is known whose request it is. */
    method Answer(who: Identified, check: ConditionCheck, inner: Option<Authorizer>, authorize: IdentityAuthorizer,
                  order: set<Op> -> seq<Op>, ops: seq<Op>) returns (r: Reply)
      requires authChecker.Valid() && authChecker.initDone && (forall s, x :: x in order(s) <==> x in s)
      requires who.Known? && |who.used| == |authChecker.verdicts|
      requires forall i :: 0 <= i < |who.used| ==> (who.used[i] <==> who.login == Some(i))
      requires who.login.Some? ==> who.login.value < |who.used|
      requires Frugal(IdentityOps(Some(who.id), inner, authorize))
      modifies authChecker
      ensures authChecker.Valid() && authChecker.initDone && authChecker.initFailed == old(authChecker.initFailed)
      ensures Replied(Is(who.id, who.caveats), ops,
        Decided(authChecker, check, IdentityOps(Some(who.id), inner, authorize), order, WithoutLogin(ops)), r)
      ensures r.Allow? ==>
        && r.identity == who.id && |r.used| == |authChecker.verdicts|
        && UsedIs(who.login, WithoutLogin(ops),
             Decided(authChecker, check, IdentityOps(Some(who.id), inner, authorize), order, WithoutLogin(ops)), r.used)
      ensures r.Allow? && LOGIN_OP in ops ==> r.identity.Some?
      ensures var need := WithoutLogin(ops);
        var passes := r.Allow? || (r.Discharge? && !r.forAuthentication);
        && (passes ==> forall op :: op in ops && op != LOGIN_OP ==>
              AllowedTo(authChecker.verdicts, check, inner, authorize, who.id, need, op))
        && (passes && need != [] ==> Collected(authChecker, check, inner, authorize, who.id, order, need, r))
        && (need != [] && (LOGIN_OP !in ops || who.id.Some?) && !authChecker.initFailed ==>
              ExactIfSteady(authChecker.verdicts, check, inner, authorize, who.id, need, passes))
      ensures r.Allow? ==> (LOGIN_OP in r.opIndexes <==> who.login.Some?)
      ensures r.Allow? && who.login.Some? ==> r.opIndexes[LOGIN_OP] == who.login.value
      ensures r.Allow? ==> forall op :: op in r.opIndexes ==> r.opIndexes[op] < |r.used| && r.used[r.opIndexes[op]]
    {
      var need := WithoutLoginOp(ops);
      if |need| == 0 && who.id.Some? {
        return Allow(who.used, if who.login.Some? then map[LOGIN_OP := who.login.value] else map[], who.id);
      }
      var needLogin := |need| != |ops|;
      if |need| > 0 && (!needLogin || who.id.Some?) {
        r := AllowOthers(who.id, check, inner, authorize, order, need);
        if r.Allow? {
          if who.login.Some? {
            r := Merged(r, who.used, who.login.value);
          }
          return;
        }
        if r.Discharge? {
          return;
        }
      }
      if who.id.Some? || |who.caveats| == 0 {
        return Deny;
      }
      return Discharge(who.caveats, true);
    }

    /** Whether LoginOp is allowed, and whose identity follows from that or from the context. */
    method Identify(client: IdentityClient, check: ConditionCheck, inner: Option<Authorizer>,
                    authorize: IdentityAuthorizer, order: set<Op> -> seq<Op>) returns (r: Identified)
      requires Valid() && (forall s, x :: x in order(s) <==> x in s) && Frugal(IdentityOps(None, inner, authorize))
      modifies `identity, authChecker
      ensures Valid() && authChecker.initDone && IsLogin(authChecker, check, r.login)
      ensures var who := WhoOf(client, old(identity), r.login);
        if who.Is? then r.Known? && r.id == identity == who.id && r.caveats == who.caveats
        else r.Unknown? && r.reply == who.reply && identity == old(identity)
      ensures r.Known? ==>
        && |r.used| == |authChecker.verdicts|
        && forall i :: 0 <= i < |r.used| ==> (r.used[i] <==> r.login == Some(i))
      ensures r.Known? && r.login.Some? ==> r.login.value < |r.used|
    {
      var login, used := Login(check, inner, authorize, order);
      if login.Some? {
        var id := InferFromMacaroon(client, login.value);
        if id.None? {
          return Unknown(Error, login);
        }
        return Known(id, [], used, login);
      }
      var inferred := InferFromContext(client);
      if inferred.None? {
        return Unknown(Deny, None);
      }
      return Known(inferred.value.0, inferred.value.1, used, None);
    }

    /** The macaroon that allows LoginOp, and the macaroons used for that. */
    method Login(check: ConditionCheck, inner: Option<Authorizer>, authorize: IdentityAuthorizer,
                 order: set<Op> -> seq<Op>)
      returns (login: Option<nat>, used: seq<bool>)
      requires authChecker.Valid() && (forall s, x :: x in order(s) <==> x in s)
        && Frugal(IdentityOps(None, inner, authorize))
      modifies authChecker
      ensures authChecker.Valid() && authChecker.initDone && IsLogin(authChecker, check, login)
      ensures |used| == |authChecker.verdicts| && forall i :: 0 <= i < |used| ==> (used[i] <==> login == Some(i))
      ensures login.Some? ==> login.value < |used|
    {
      var d := authChecker.Allow(check, Some(IdentityOps(None, inner, authorize)), order, [LOGIN_OP]);
      if !authChecker.initFailed {
        LoginOnlyDirect(authChecker.verdicts, authChecker.authIndexes, check, inner, authorize,
          order(authChecker.authIndexes.Keys));
      }
      if d.Allowed? {
        var i := d.state.opIndexes[LOGIN_OP];
        assert RecordOk(authChecker.verdicts, check, d.state, i);
        LoginUsesOne(authChecker.verdicts, authChecker.authIndexes, check, inner, authorize,
          order(authChecker.authIndexes.Keys));
        return Some(i), UsedOf(d.state);
      }
      return None, seq(|authChecker.verdicts|, _ => false);
    }

    /** The decision about the operations other than LoginOp, with the identity in the context. */
    method AllowOthers(id: Option<Identity>, check: ConditionCheck, inner: Option<Authorizer>,
                       authorize: IdentityAuthorizer, order: set<Op> -> seq<Op>, need: seq<Op>) returns (r: Reply)
      requires authChecker.Valid() && authChecker.initDone && (forall s, x :: x in order(s) <==> x in s)
      requires Frugal(IdentityOps(Some(id), inner, authorize))
      modifies authChecker
      ensures authChecker.Valid() && authChecker.initDone && authChecker.initFailed == old(authChecker.initFailed)
      ensures r == ReplyOf(Decided(authChecker, check, IdentityOps(Some(id), inner, authorize), order, need), id)
      ensures r.Allow? ==> |r.used| == |authChecker.verdicts|
      ensures r.Allow? ==> forall op :: op in r.opIndexes ==>
        op in need && r.opIndexes[op] < |r.used| && r.used[r.opIndexes[op]]
      ensures r.Allow? || r.Discharge? ==> (forall op :: op in need ==>
        AllowedTo(authChecker.verdicts, check, inner, authorize, id, need, op))
      ensures r.Allow? || r.Discharge? ==> Collected(authChecker, check, inner, authorize, id, order, need, r)
      ensures !authChecker.initFailed ==>
        ExactIfSteady(authChecker.verdicts, check, inner, authorize, id, need, r.Allow? || r.Discharge?)
    {
      var auth := IdentityOps(Some(id), inner, authorize);
      var d := authChecker.Allow(check, Some(auth), order, need);
      if !authChecker.initFailed {
        DecisionIsOfAuthorizers(authChecker.verdicts, authChecker.authIndexes, check, inner, authorize, id, need,
          order(authChecker.authIndexes.Keys));
      }
      match d
      case Allowed(st) =>
        AllowIsSound(authChecker.verdicts, authChecker.authIndexes, check, Some(auth), need,
          order(authChecker.authIndexes.Keys));
        r := Allow(UsedOf(st), st.opIndexes, id);
        forall op | op in r.opIndexes ensures op in need && r.opIndexes[op] < |r.used| && r.used[r.opIndexes[op]] {
          assert RecordOk(authChecker.verdicts, check, st, st.opIndexes[op]);
        }
      case DischargeRequired(caveats) => r := Discharge(caveats, false);
      case Denied => r := Deny;
      case Failed => r := Error;
    }
  }

  /** The reply that a decision of the underlying checker amounts to. */
  function ReplyOf(d: Decision, id: Option<Identity>): Reply {
    match d
    case Allowed(st) => Allow(UsedOf(st), st.opIndexes, id)
    case DischargeRequired(caveats) => Discharge(caveats, false)
    case Denied => Deny
    case Failed => Error
  }

  /** Adds what the login used to the reply. */
  function Merged(r: Reply, used: seq<bool>, i: nat): Reply
    requires r.Allow? && |used| == |r.used|
  {
    r.(used := seq(|used|, j requires 0 <= j < |used| => r.used[j] || used[j]), opIndexes := r.opIndexes[LOGIN_OP := i])
  }

  method WithoutLoginOp(ops: seq<Op>) returns (need: seq<Op>)
    ensures need == WithoutLogin(ops)
  {
    need := [];
    for i := 0 to |ops|
      invariant need == WithoutLogin(ops[..i])
    {
      assert ops[..i + 1][..i] == ops[..i];
      if ops[i] != LOGIN_OP {
        need := need + [ops[i]];
      }
    }
    assert ops[..|ops|] == ops;
  }
}
