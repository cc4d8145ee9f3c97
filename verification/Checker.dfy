/** The authorization decision of bakery/checker.go, as functions on values: which of the requested
    operations the macaroons authorize directly or through the OpsAuthorizer. */
module Checker {
  import opened Basics

  datatype Op = Op(entity: string, action: string)
  const NO_OP := Op("", "")

  type Caveat = string

  /** What VerifyMacaroon says of one macaroon slice: its operations and first-party conditions, that it
      does not verify, or that it cannot be checked. */
  datatype Verdict = Verified(ops: seq<Op>, conditions: seq<string>) | Invalid | Fatal

  /** The answers and extra caveats of one AuthorizeOps call. Its arguments are the macaroon in the
      context (None for the final NoOp call), the authorized operation and the queried ones. */
  datatype Answer = Answer(allowed: seq<bool>, caveats: seq<Caveat>)
  type Authorizer = (Option<nat>, Op, seq<Op>) -> Option<Answer>

  /** CheckFirstPartyCaveat in the context of the i'th macaroon. */
  type ConditionCheck = (nat, string) -> bool

  datatype Status = Status(ok: bool, used: bool)

  datatype State = State(status: seq<Status>, authed: seq<bool>, opIndexes: map<Op, nat>)

  datatype Decision = Allowed(state: State) | Denied | DischargeRequired(caveats: seq<Caveat>) | Failed

  type Indexes = map<Op, seq<nat>>

  // ---------- the specification functions ----------

  function ConditionsOf(v: Verdict): seq<string> {
    if v.Verified? then v.conditions else []
  }

  predicate Passes(check: ConditionCheck, i: nat, v: Verdict) {
    forall c :: c in ConditionsOf(v) ==> check(i, c)
  }

  /** Macaroon i verified and carries the operation. */
  predicate Carries(vs: seq<Verdict>, op: Op, i: nat) {
    i < |vs| && vs[i].Verified? && op in vs[i].ops
  }

  /** The positions of the macaroons that carry each operation, in order. */
  ghost predicate IndexesOk(vs: seq<Verdict>, m: Indexes) {
    && (forall op, i: nat :: op in m && i in m[op] <==> Carries(vs, op, i))
    && (forall op, a, b :: op in m && 0 <= a < b < |m[op]| ==> m[op][a] <= m[op][b])
  }

  predicate Below(s: seq<nat>, n: nat) {
    forall a :: 0 <= a < |s| ==> s[a] < n
  }

  /** Those of the first n positions that are not authorized yet. */
  function UnauthedIn(authed: seq<bool>, n: nat): (r: seq<nat>)
    requires n <= |authed|
    ensures Below(r, n)
  {
    if n == 0 then [] else
      var earlier := UnauthedIn(authed, n - 1);
      if authed[n - 1] then earlier else earlier + [n - 1]
  }

  /** The positions that are not authorized yet. */
  function Unauthed(authed: seq<bool>): (r: seq<nat>)
    ensures Below(r, |authed|)
  {
    UnauthedIn(authed, |authed|)
  }

  /** They are exactly the positions not authorized, in ascending order. */
  lemma {:induction false} UnauthedExact(authed: seq<bool>, n: nat)
    requires n <= |authed|
    ensures forall k :: k in UnauthedIn(authed, n) <==> 0 <= k < n && !authed[k]
    ensures forall a, b :: 0 <= a < b < |UnauthedIn(authed, n)| ==> UnauthedIn(authed, n)[a] < UnauthedIn(authed, n)[b]
  {
    if n > 0 {
      UnauthedExact(authed, n - 1);
    }
  }

  /** The operations at the given positions. */
  function At(ops: seq<Op>, idx: seq<nat>): (r: seq<Op>)
    requires Below(idx, |ops|)
    ensures |r| == |idx| && forall a :: 0 <= a < |r| ==> r[a] == ops[idx[a]]
  {
    seq(|idx|, a requires 0 <= a < |idx| => ops[idx[a]])
  }

  function Used(st: State, i: nat): State
    requires i < |st.status|
  {
    st.(status := st.status[i := st.status[i].(used := true)])
  }

  /** The first of the macaroons whose conditions hold. */
  function FirstOk(status: seq<Status>, mindexes: seq<nat>): (r: Option<nat>)
    requires Below(mindexes, |status|)
    ensures r.Some? ==> r.value in mindexes && status[r.value].ok
    ensures r.None? ==> forall i :: i in mindexes ==> !status[i].ok
  {
    if mindexes == [] then None
    else if status[mindexes[0]].ok then Some(mindexes[0])
    else FirstOk(status, mindexes[1..])
  }

  ghost predicate WellFormed(st: State, ops: seq<Op>, m: Indexes) {
    && |st.authed| == |ops|
    && forall op :: op in m ==> Below(m[op], |st.status|)
  }

  /** checkDirect at the first n operations. */
  function Direct(st: State, ops: seq<Op>, m: Indexes, n: nat): (r: State)
    requires WellFormed(st, ops, m) && n <= |ops|
    ensures WellFormed(r, ops, m) && |r.status| == |st.status|
    ensures forall i :: 0 <= i < |st.status| ==> r.status[i].ok == st.status[i].ok
  {
    if n == 0 then st else
      var prev := Direct(st, ops, m, n - 1);
      DirectOne(prev, ops, m, n - 1)
  }

  function DirectOne(st: State, ops: seq<Op>, m: Indexes, k: nat): State
    requires WellFormed(st, ops, m) && k < |ops|
  {
    if ops[k] == NO_OP then st.(authed := st.authed[k := true])
    else
      match (if ops[k] in m then FirstOk(st.status, m[ops[k]]) else None)
      case Some(i) => Used(st, i).(authed := st.authed[k := true], opIndexes := st.opIndexes[ops[k] := i])
      case None => st
  }

  /** The first n answers to a query about the operations at idx; mi is the macaroon that is used. */
  function Granted(st: State, ops: seq<Op>, idx: seq<nat>, mi: Option<nat>, allowed: seq<bool>, n: nat): (r: State)
    requires |st.authed| == |ops| && n <= |allowed| && n <= |idx| && Below(idx, |ops|)
    requires mi.Some? ==> mi.value < |st.status|
    ensures |r.authed| == |st.authed| && |r.status| == |st.status|
    ensures forall i :: 0 <= i < |st.status| ==> r.status[i].ok == st.status[i].ok
  {
    if n == 0 then st else
      var prev := Granted(st, ops, idx, mi, allowed, n - 1);
      if !allowed[n - 1] then prev else
        var k := idx[n - 1];
        var now := prev.(authed := prev.authed[k := true]);
        if mi.None? then now
        else Used(now, mi.value).(opIndexes := prev.opIndexes[ops[k] := mi.value])
  }

  /** One AuthorizeOps call about the operations at idx; it answers no more than it was asked. */
  function Query(st: State, ops: seq<Op>, idx: seq<nat>, auth: Authorizer, mi: Option<nat>, op: Op)
    : (r: Option<(State, seq<Caveat>)>)
    requires |st.authed| == |ops| && Below(idx, |ops|) && (mi.Some? ==> mi.value < |st.status|)
    ensures r.Some? ==> |r.value.0.authed| == |st.authed| && |r.value.0.status| == |st.status|
    ensures r.Some? ==> forall i :: 0 <= i < |st.status| ==> r.value.0.status[i].ok == st.status[i].ok
  {
    match auth(mi, op, At(ops, idx))
    case None => None
    case Some(a) =>
      Some((Granted(st, ops, idx, mi, a.allowed, if |a.allowed| < |idx| then |a.allowed| else |idx|), a.caveats))
  }

  /** The calls for one operation: one for each of its macaroons whose conditions hold. */
  function QueryMacaroons(st: State, ops: seq<Op>, idx: seq<nat>, auth: Authorizer, op: Op, mindexes: seq<nat>)
    : (r: Option<(State, seq<Caveat>)>)
    requires |st.authed| == |ops| && Below(idx, |ops|) && Below(mindexes, |st.status|)
    ensures r.Some? ==> |r.value.0.authed| == |st.authed| && |r.value.0.status| == |st.status|
    ensures r.Some? ==> forall i :: 0 <= i < |st.status| ==> r.value.0.status[i].ok == st.status[i].ok
    decreases |mindexes|
  {
    if mindexes == [] then Some((st, []))
    else if !st.status[mindexes[0]].ok then QueryMacaroons(st, ops, idx, auth, op, mindexes[1..])
    else
      match Query(st, ops, idx, auth, Some(mindexes[0]), op)
      case None => None
      case Some((st1, c1)) =>
        match QueryMacaroons(st1, ops, idx, auth, op, mindexes[1..])
        case None => None
        case Some((st2, c2)) => Some((st2, c1 + c2))
  }

  /** The loop over the operations of the macaroons, visited in the given order, until nothing is needed. */
  function QueryOps(st: State, ops: seq<Op>, auth: Authorizer, m: Indexes, order: seq<Op>)
    : (r: Option<(State, seq<Caveat>)>)
    requires WellFormed(st, ops, m) && forall op :: op in order ==> op in m
    ensures r.Some? ==> WellFormed(r.value.0, ops, m) && |r.value.0.status| == |st.status|
    ensures r.Some? ==> forall i :: 0 <= i < |st.status| ==> r.value.0.status[i].ok == st.status[i].ok
    decreases |order|
  {
    var idx := Unauthed(st.authed);
    if order == [] || idx == [] then Some((st, [])) else
      match QueryMacaroons(st, ops, idx, auth, order[0], m[order[0]])
      case None => None
      case Some((st1, c1)) =>
        match QueryOps(st1, ops, auth, m, order[1..])
        case None => None
        case Some((st2, c2)) => Some((st2, c1 + c2))
  }

  /** checkIndirect; None stands for an AuthorizeOps error. */
  function Indirect(st: State, ops: seq<Op>, auth: Option<Authorizer>, m: Indexes, order: seq<Op>)
    : (r: Option<(State, seq<Caveat>)>)
    requires WellFormed(st, ops, m) && forall op :: op in order ==> op in m
    ensures r.Some? ==> WellFormed(r.value.0, ops, m) && |r.value.0.status| == |st.status|
  {
    if auth.None? then Some((st, [])) else
      match QueryOps(st, ops, auth.value, m, order)
      case None => None
      case Some((st1, c1)) =>
        var idx := Unauthed(st1.authed);
        if idx == [] then Some((st1, c1)) else
          match Query(st1, ops, idx, auth.value, None, NO_OP)
          case None => None
          case Some((st2, c2)) => Some((st2, c1 + c2))
  }

  function StartState(vs: seq<Verdict>, check: ConditionCheck, ops: seq<Op>): (r: State) {
    State(seq(|vs|, i requires 0 <= i < |vs| => Status(Passes(check, i, vs[i]), false)),
          seq(|ops|, _ => false), map[])
  }

  /** The decision about ops, when the macaroons' operations are visited in the given order. */
  function Decide(vs: seq<Verdict>, m: Indexes, check: ConditionCheck, auth: Option<Authorizer>, ops: seq<Op>,
                  order: seq<Op>): Decision
    requires (forall op :: op in order ==> op in m) && forall op :: op in m ==> Below(m[op], |vs|)
  {
    var st := Direct(StartState(vs, check, ops), ops, m, |ops|);
    if Unauthed(st.authed) == [] then Allowed(st) else
      match Indirect(st, ops, auth, m, order)
      case None => Failed
      case Some((st1, caveats)) =>
        if Unauthed(st1.authed) != [] then Denied
        else if caveats == [] then Allowed(st1)
        else DischargeRequired(caveats)
  }

  // ---------- what is authorized ----------

  /** Some verified macaroon whose first-party conditions all hold carries the operation. */
  ghost predicate DirectlyAllowed(vs: seq<Verdict>, check: ConditionCheck, op: Op) {
    exists i: nat :: Good(vs, check, op, i)
  }

  ghost predicate Good(vs: seq<Verdict>, check: ConditionCheck, op: Op, i: nat) {
    Carries(vs, op, i) && Passes(check, i, vs[i])
  }

  /** AuthorizeOps grants q, in a query about some of the requested operations that are not directly allowed,
      from an operation of such a macaroon or from NoOp. */
  ghost predicate IndirectlyAllowed(vs: seq<Verdict>, check: ConditionCheck, auth: Authorizer, ops: seq<Op>, q: Op) {
    exists mi: Option<nat>, op: Op, qs: seq<Op>, j: nat ::
      Source(vs, check, mi, op) && IsQuery(vs, check, ops, qs) && Answers(auth, mi, op, qs, j) && qs[j] == q
  }

  /** qs lists requested operations, in order, that are neither NoOp nor directly allowed. */
  ghost predicate IsQuery(vs: seq<Verdict>, check: ConditionCheck, ops: seq<Op>, qs: seq<Op>) {
    exists idx: seq<nat> :: Ascends(idx, |ops|) && qs == At(ops, idx) && AllNeeded(vs, check, qs)
  }

  ghost predicate AllNeeded(vs: seq<Verdict>, check: ConditionCheck, qs: seq<Op>) {
    forall q :: q in qs ==> q != NO_OP && !DirectlyAllowed(vs, check, q)
  }

  ghost predicate Ascends(idx: seq<nat>, n: nat) {
    Below(idx, n) && forall a, b :: 0 <= a < b < |idx| ==> idx[a] < idx[b]
  }

  ghost predicate Source(vs: seq<Verdict>, check: ConditionCheck, mi: Option<nat>, op: Op) {
    if mi.Some? then Good(vs, check, op, mi.value) else op == NO_OP
  }

  ghost predicate Answers(auth: Authorizer, mi: Option<nat>, op: Op, qs: seq<Op>, j: nat) {
    auth(mi, op, qs).Some? && j < |qs| && j < |auth(mi, op, qs).value.allowed| && auth(mi, op, qs).value.allowed[j]
  }

  ghost predicate MayBeAuthed(vs: seq<Verdict>, check: ConditionCheck, auth: Option<Authorizer>, ops: seq<Op>, q: Op) {
    q == NO_OP || DirectlyAllowed(vs, check, q) || (auth.Some? && IndirectlyAllowed(vs, check, auth.value, ops, q))
  }

  /** The statuses are those of the verdicts, and every recorded macaroon verified, passed and is marked
      as used. */
  ghost predicate InfoOk(vs: seq<Verdict>, check: ConditionCheck, st: State) {
    && |st.status| == |vs|
    && (forall i :: 0 <= i < |vs| ==> (st.status[i].ok <==> Passes(check, i, vs[i])))
    && (forall op :: op in st.opIndexes ==> RecordOk(vs, check, st, st.opIndexes[op]))
    && (forall i :: 0 <= i < |vs| && st.status[i].used ==> vs[i].Verified? && Passes(check, i, vs[i]))
  }

  ghost predicate RecordOk(vs: seq<Verdict>, check: ConditionCheck, st: State, i: nat) {
    i < |vs| && vs[i].Verified? && Passes(check, i, vs[i]) && i < |st.status| && st.status[i].used
  }

  /** The caveat was returned for such a query. */
  ghost predicate Asked(vs: seq<Verdict>, check: ConditionCheck, auth: Authorizer, ops: seq<Op>, caveat: Caveat) {
    exists mi: Option<nat>, op: Op, qs: seq<Op> ::
      Source(vs, check, mi, op) && IsQuery(vs, check, ops, qs) && Returns(auth, mi, op, qs, caveat)
  }

  ghost predicate Returns(auth: Authorizer, mi: Option<nat>, op: Op, qs: seq<Op>, caveat: Caveat) {
    auth(mi, op, qs).Some? && caveat in auth(mi, op, qs).value.caveats
  }

  ghost predicate AllAsked(vs: seq<Verdict>, check: ConditionCheck, auth: Authorizer, ops: seq<Op>,
                           caveats: seq<Caveat>)
  {
    forall c :: c in caveats ==> Asked(vs, check, auth, ops, c)
  }

  ghost predicate Sound(vs: seq<Verdict>, check: ConditionCheck, auth: Option<Authorizer>, ops: seq<Op>, st: State) {
    && |st.authed| == |ops| && InfoOk(vs, check, st)
    && (forall k :: 0 <= k < |ops| && !st.authed[k] ==> ops[k] != NO_OP && !DirectlyAllowed(vs, check, ops[k]))
    && (forall op :: op in st.opIndexes ==> op in ops)
    && forall k :: 0 <= k < |ops| && st.authed[k] ==> MayBeAuthed(vs, check, auth, ops, ops[k])
  }

  lemma UsedKeepsInfo(vs: seq<Verdict>, check: ConditionCheck, st: State, i: nat)
    requires InfoOk(vs, check, st) && i < |vs| && vs[i].Verified? && Passes(check, i, vs[i])
    ensures InfoOk(vs, check, Used(st, i)) && RecordOk(vs, check, Used(st, i), i)
  {
    forall op | op in st.opIndexes ensures RecordOk(vs, check, Used(st, i), st.opIndexes[op]) {
      assert RecordOk(vs, check, st, st.opIndexes[op]);
    }
  }

  /** What checkDirect has done after the first n operations. */
  ghost predicate DirectDone(vs: seq<Verdict>, check: ConditionCheck, ops: seq<Op>, n: nat, st: State)
    requires n <= |ops|
  {
    && InfoOk(vs, check, st) && |st.authed| == |ops|
    && (forall k :: 0 <= k < |ops| ==>
      (st.authed[k] <==> k < n && (ops[k] == NO_OP || DirectlyAllowed(vs, check, ops[k]))))
    && (forall op :: op in st.opIndexes <==> op in ops[..n] && op != NO_OP && DirectlyAllowed(vs, check, op))
    && (forall op :: op in st.opIndexes ==> IsFirstGood(vs, check, op, st.opIndexes[op]))
  }

  /** i is the first macaroon that allows one of the operations directly. */
  ghost predicate UsedDirectly(vs: seq<Verdict>, check: ConditionCheck, ops: seq<Op>, i: nat) {
    exists op :: op in ops && op != NO_OP && IsFirstGood(vs, check, op, i)
  }

  /** checkDirect authorizes exactly the operations that are NoOp or directly allowed. */
  lemma {:induction false} DirectExact(vs: seq<Verdict>, m: Indexes, check: ConditionCheck, ops: seq<Op>, n: nat)
    requires IndexesOk(vs, m) && WellFormed(StartState(vs, check, ops), ops, m) && n <= |ops|
    ensures DirectDone(vs, check, ops, n, Direct(StartState(vs, check, ops), ops, m, n))
  {
    if n == 0 {
      StartIsDone(vs, check, ops);
    } else {
      DirectExact(vs, m, check, ops, n - 1);
      DirectStep(vs, m, check, ops, n - 1, Direct(StartState(vs, check, ops), ops, m, n - 1));
    }
  }

  lemma StartIsDone(vs: seq<Verdict>, check: ConditionCheck, ops: seq<Op>)
    ensures DirectDone(vs, check, ops, 0, StartState(vs, check, ops))
  {
  }

  lemma FirstIsFirstGood(vs: seq<Verdict>, m: Indexes, check: ConditionCheck, status: seq<Status>, op: Op)
    requires IndexesOk(vs, m) && op in m && Below(m[op], |status|) && FirstOk(status, m[op]).Some?
    requires |status| == |vs| && forall i :: 0 <= i < |vs| ==> (status[i].ok <==> Passes(check, i, vs[i]))
    ensures IsFirstGood(vs, check, op, FirstOk(status, m[op]).value) && DirectlyAllowed(vs, check, op)
  {
    FirstOkIsFirst(status, m[op]);
    var i := FirstOk(status, m[op]).value;
    assert Carries(vs, op, i) && Good(vs, check, op, i);
    forall i': nat | i' < i ensures !Good(vs, check, op, i') {
      if Carries(vs, op, i') { assert i' in m[op]; }
    }
  }

  lemma DirectStep(vs: seq<Verdict>, m: Indexes, check: ConditionCheck, ops: seq<Op>, k: nat, st: State)
    requires IndexesOk(vs, m) && WellFormed(st, ops, m) && k < |ops| && DirectDone(vs, check, ops, k, st)
    ensures DirectDone(vs, check, ops, k + 1, DirectOne(st, ops, m, k))
  {
    var op := ops[k];
    assert ops[..k + 1] == ops[..k] + [op];
    if op != NO_OP {
      match (if op in m then FirstOk(st.status, m[op]) else None) {
        case Some(i) =>
          FirstIsFirstGood(vs, m, check, st.status, op);
          DirectUse(vs, check, ops, k, st, i);
        case None =>
          forall i: nat ensures !Good(vs, check, op, i) {
            if Carries(vs, op, i) { assert i in m[op]; }
          }
      }
    }
  }

  lemma UsedDirectlyNext(vs: seq<Verdict>, check: ConditionCheck, ops: seq<Op>, k: nat)
    requires k < |ops|
    ensures forall i :: UsedDirectly(vs, check, ops[..k + 1], i) <==>
      UsedDirectly(vs, check, ops[..k], i) || (ops[k] != NO_OP && IsFirstGood(vs, check, ops[k], i))
  {
    assert ops[..k + 1] == ops[..k] + [ops[k]];
  }

  lemma DirectUse(vs: seq<Verdict>, check: ConditionCheck, ops: seq<Op>, k: nat, st: State, i: nat)
    requires k < |ops| && ops[k] != NO_OP && DirectDone(vs, check, ops, k, st) && i < |st.status|
    requires IsFirstGood(vs, check, ops[k], i) && DirectlyAllowed(vs, check, ops[k])
    ensures DirectDone(vs, check, ops, k + 1,
      Used(st, i).(authed := st.authed[k := true], opIndexes := st.opIndexes[ops[k] := i]))
  {
    assert ops[..k + 1] == ops[..k] + [ops[k]];
    UsedKeepsInfo(vs, check, st, i);
  }

  /** checkDirect marks exactly the macaroons as used that allow some operation first. */
  lemma {:induction false} DirectUsed(vs: seq<Verdict>, m: Indexes, check: ConditionCheck, ops: seq<Op>, n: nat)
    requires IndexesOk(vs, m) && WellFormed(StartState(vs, check, ops), ops, m) && n <= |ops|
    ensures var st := Direct(StartState(vs, check, ops), ops, m, n);
      |st.status| == |vs| && forall i :: 0 <= i < |vs| ==> (st.status[i].used <==> UsedDirectly(vs, check, ops[..n], i))
  {
    if n > 0 {
      DirectUsed(vs, m, check, ops, n - 1);
      DirectExact(vs, m, check, ops, n - 1);
      UsedDirectlyNext(vs, check, ops, n - 1);
      UsedByStep(vs, m, check, ops, n - 1, Direct(StartState(vs, check, ops), ops, m, n - 1));
    }
  }

  lemma UsedByStep(vs: seq<Verdict>, m: Indexes, check: ConditionCheck, ops: seq<Op>, k: nat, st: State)
    requires IndexesOk(vs, m) && WellFormed(st, ops, m) && k < |ops| && InfoOk(vs, check, st)
    ensures forall i :: 0 <= i < |vs| ==>
      (DirectOne(st, ops, m, k).status[i].used <==>
        st.status[i].used || (ops[k] != NO_OP && IsFirstGood(vs, check, ops[k], i)))
  {
    var op := ops[k];
    if op != NO_OP {
      match (if op in m then FirstOk(st.status, m[op]) else None) {
        case Some(i) =>
          FirstIsFirstGood(vs, m, check, st.status, op);
          forall i' | IsFirstGood(vs, check, op, i') ensures i' == i {
            assert Good(vs, check, op, i) && Good(vs, check, op, i');
          }
        case None =>
          forall i: nat ensures !Good(vs, check, op, i) {
            if Carries(vs, op, i) { assert i in m[op]; }
          }
      }
    }
  }

  /** i is the first macaroon that allows the operation directly. */
  ghost predicate IsFirstGood(vs: seq<Verdict>, check: ConditionCheck, op: Op, i: nat) {
    Good(vs, check, op, i) && forall i': nat :: i' < i ==> !Good(vs, check, op, i')
  }

  lemma {:induction false} FirstOkIsFirst(status: seq<Status>, mindexes: seq<nat>)
    requires Below(mindexes, |status|) && FirstOk(status, mindexes).Some?
    requires forall a, b :: 0 <= a < b < |mindexes| ==> mindexes[a] <= mindexes[b]
    ensures forall i :: i in mindexes && status[i].ok ==> FirstOk(status, mindexes).value <= i
  {
    if !status[mindexes[0]].ok {
      FirstOkIsFirst(status, mindexes[1..]);
      forall i | i in mindexes && status[i].ok ensures FirstOk(status, mindexes).value <= i {
        assert i in mindexes[1..];
      }
    }
  }

  lemma {:induction false} GrantedExact(st: State, ops: seq<Op>, idx: seq<nat>, mi: Option<nat>, allowed: seq<bool>,
                                        n: nat)
    requires |st.authed| == |ops| && n <= |allowed| && n <= |idx| && Below(idx, |ops|)
    requires mi.Some? ==> mi.value < |st.status|
    ensures var r := Granted(st, ops, idx, mi, allowed, n);
      forall k :: 0 <= k < |ops| ==> (r.authed[k] <==> st.authed[k] || GrantedAt(idx, allowed, n, k))
  {
    if n > 0 {
      GrantedExact(st, ops, idx, mi, allowed, n - 1);
      assert forall k :: GrantedAt(idx, allowed, n, k) <==>
        GrantedAt(idx, allowed, n - 1, k) || (allowed[n - 1] && idx[n - 1] == k);
    }
  }

  ghost predicate GrantedAt(idx: seq<nat>, allowed: seq<bool>, n: nat, k: nat)
    requires n <= |allowed| && n <= |idx|
  {
    exists j :: 0 <= j < n && allowed[j] && idx[j] == k
  }

  lemma {:induction false} GrantedSound(vs: seq<Verdict>, check: ConditionCheck, st: State, ops: seq<Op>, idx: seq<nat>,
                                        mi: Option<nat>, allowed: seq<bool>, n: nat)
    requires InfoOk(vs, check, st) && |st.authed| == |ops| && n <= |allowed| && n <= |idx| && Below(idx, |ops|)
    requires mi.Some? ==> mi.value < |vs| && vs[mi.value].Verified? && Passes(check, mi.value, vs[mi.value])
    requires forall op :: op in st.opIndexes ==> op in ops
    ensures InfoOk(vs, check, Granted(st, ops, idx, mi, allowed, n))
    ensures forall op :: op in Granted(st, ops, idx, mi, allowed, n).opIndexes ==> op in ops
  {
    if n > 0 {
      GrantedSound(vs, check, st, ops, idx, mi, allowed, n - 1);
      if allowed[n - 1] && mi.Some? {
        UsedKeepsInfo(vs, check, Granted(st, ops, idx, mi, allowed, n - 1), mi.value);
      }
    }
  }

  /** The positions that are not authorized yet make a query. */
  lemma UnauthedIsQuery(vs: seq<Verdict>, check: ConditionCheck, auth: Option<Authorizer>, ops: seq<Op>, st: State)
    requires Sound(vs, check, auth, ops, st)
    ensures IsQuery(vs, check, ops, At(ops, Unauthed(st.authed)))
  {
    var idx := Unauthed(st.authed);
    UnauthedExact(st.authed, |ops|);
    forall a | 0 <= a < |idx| ensures !st.authed[idx[a]] {
      assert idx[a] in idx;
    }
    assert Ascends(idx, |ops|);
  }

  lemma QuerySound(vs: seq<Verdict>, check: ConditionCheck, st: State, ops: seq<Op>, idx: seq<nat>, auth: Authorizer,
                   mi: Option<nat>, op: Op)
    requires Sound(vs, check, Some(auth), ops, st) && Below(idx, |ops|) && Source(vs, check, mi, op)
    requires IsQuery(vs, check, ops, At(ops, idx)) && Query(st, ops, idx, auth, mi, op).Some?
    ensures Sound(vs, check, Some(auth), ops, Query(st, ops, idx, auth, mi, op).value.0)
    ensures AllAsked(vs, check, auth, ops, Query(st, ops, idx, auth, mi, op).value.1)
  {
    var qs := At(ops, idx);
    var a := auth(mi, op, qs).value;
    var n := if |a.allowed| < |idx| then |a.allowed| else |idx|;
    GrantedSound(vs, check, st, ops, idx, mi, a.allowed, n);
    GrantedExact(st, ops, idx, mi, a.allowed, n);
    var r := Granted(st, ops, idx, mi, a.allowed, n);
    forall k | 0 <= k < |ops| && r.authed[k] && !st.authed[k] ensures IndirectlyAllowed(vs, check, auth, ops, ops[k]) {
      var j :| 0 <= j < n && a.allowed[j] && idx[j] == k;
      assert Answers(auth, mi, op, qs, j) && qs[j] == ops[k];
    }
    assert forall c :: c in a.caveats ==> Returns(auth, mi, op, qs, c);
  }

  lemma {:induction false} QueryMacaroonsSound(vs: seq<Verdict>, check: ConditionCheck, st: State, ops: seq<Op>,
                                               idx: seq<nat>, auth: Authorizer, op: Op, mindexes: seq<nat>)
    requires Sound(vs, check, Some(auth), ops, st) && Below(idx, |ops|) && IsQuery(vs, check, ops, At(ops, idx))
    requires Below(mindexes, |vs|) && forall i :: i in mindexes ==> Carries(vs, op, i)
    requires QueryMacaroons(st, ops, idx, auth, op, mindexes).Some?
    ensures Sound(vs, check, Some(auth), ops, QueryMacaroons(st, ops, idx, auth, op, mindexes).value.0)
    ensures AllAsked(vs, check, auth, ops, QueryMacaroons(st, ops, idx, auth, op, mindexes).value.1)
    decreases |mindexes|
  {
    if mindexes != [] {
      if !st.status[mindexes[0]].ok {
        QueryMacaroonsSound(vs, check, st, ops, idx, auth, op, mindexes[1..]);
      } else {
        assert Good(vs, check, op, mindexes[0]);
        QuerySound(vs, check, st, ops, idx, auth, Some(mindexes[0]), op);
        var st1 := Query(st, ops, idx, auth, Some(mindexes[0]), op).value.0;
        QueryMacaroonsSound(vs, check, st1, ops, idx, auth, op, mindexes[1..]);
      }
    }
  }

  lemma {:induction false} QueryOpsSound(vs: seq<Verdict>, m: Indexes, check: ConditionCheck, st: State, ops: seq<Op>,
                                         auth: Authorizer, order: seq<Op>)
    requires IndexesOk(vs, m) && Sound(vs, check, Some(auth), ops, st) && WellFormed(st, ops, m)
    requires (forall op :: op in order ==> op in m) && QueryOps(st, ops, auth, m, order).Some?
    ensures Sound(vs, check, Some(auth), ops, QueryOps(st, ops, auth, m, order).value.0)
    ensures AllAsked(vs, check, auth, ops, QueryOps(st, ops, auth, m, order).value.1)
    decreases |order|
  {
    var idx := Unauthed(st.authed);
    if order != [] && idx != [] {
      UnauthedIsQuery(vs, check, Some(auth), ops, st);
      QueryMacaroonsSound(vs, check, st, ops, idx, auth, order[0], m[order[0]]);
      var st1 := QueryMacaroons(st, ops, idx, auth, order[0], m[order[0]]).value.0;
      QueryOpsSound(vs, m, check, st1, ops, auth, order[1..]);
    }
  }

  lemma NoneUnauthed(authed: seq<bool>)
    ensures forall k :: k in Unauthed(authed) <==> 0 <= k < |authed| && !authed[k]
    ensures Unauthed(authed) == [] <==> forall k :: 0 <= k < |authed| ==> authed[k]
  {
    UnauthedExact(authed, |authed|);
    if Unauthed(authed) != [] {
      assert Unauthed(authed)[0] in Unauthed(authed);
    }
  }

  lemma IndirectSound(vs: seq<Verdict>, m: Indexes, check: ConditionCheck, st: State, ops: seq<Op>,
                      auth: Option<Authorizer>, order: seq<Op>)
    requires IndexesOk(vs, m) && Sound(vs, check, auth, ops, st) && WellFormed(st, ops, m)
    requires (forall op :: op in order ==> op in m) && Indirect(st, ops, auth, m, order).Some?
    ensures var (st', caveats) := Indirect(st, ops, auth, m, order).value;
      && Sound(vs, check, auth, ops, st')
      && if auth.None? then caveats == [] else AllAsked(vs, check, auth.value, ops, caveats)
  {
    if auth.Some? {
      QueryOpsSound(vs, m, check, st, ops, auth.value, order);
      var st1 := QueryOps(st, ops, auth.value, m, order).value.0;
      var idx := Unauthed(st1.authed);
      if idx != [] {
        UnauthedIsQuery(vs, check, auth, ops, st1);
        QuerySound(vs, check, st1, ops, idx, auth.value, None, NO_OP);
      }
    }
  }

  lemma AllAuthedIsAllowed(vs: seq<Verdict>, check: ConditionCheck, auth: Option<Authorizer>, ops: seq<Op>, st: State)
    requires Sound(vs, check, auth, ops, st) && Unauthed(st.authed) == []
    ensures forall op :: op in ops ==> MayBeAuthed(vs, check, auth, ops, op)
  {
    NoneUnauthed(st.authed);
  }

  /** Whatever the authorizer answers and in whatever order the operations are visited: a decision to
      allow, at once or after discharges, means that every requested operation is NoOp, carried by a verified
      macaroon whose conditions hold, or granted by the authorizer from such an operation or from NoOp, in a
      query about operations requested and still needed; the caveats to be discharged were returned by such
      queries; and the macaroons it reports are verified, pass their conditions and are marked as used. */
  lemma AllowIsSound(vs: seq<Verdict>, m: Indexes, check: ConditionCheck, auth: Option<Authorizer>, ops: seq<Op>,
                     order: seq<Op>)
    requires IndexesOk(vs, m) && (forall op :: op in order ==> op in m) && forall op :: op in m ==> Below(m[op], |vs|)
    ensures var d := Decide(vs, m, check, auth, ops, order);
      && (d.Allowed? || d.DischargeRequired? ==> forall op :: op in ops ==> MayBeAuthed(vs, check, auth, ops, op))
      && (d.Allowed? ==> InfoOk(vs, check, d.state) && forall op :: op in d.state.opIndexes ==> op in ops)
      && (d.DischargeRequired? ==> d.caveats != [] && auth.Some? && AllAsked(vs, check, auth.value, ops, d.caveats))
  {
    DirectSound(vs, m, check, auth, ops);
    var st := Direct(StartState(vs, check, ops), ops, m, |ops|);
    if Unauthed(st.authed) == [] {
      AllAuthedIsAllowed(vs, check, auth, ops, st);
    } else if Indirect(st, ops, auth, m, order).Some? {
      IndirectSound(vs, m, check, st, ops, auth, order);
      var st1 := Indirect(st, ops, auth, m, order).value.0;
      if Unauthed(st1.authed) == [] {
        AllAuthedIsAllowed(vs, check, auth, ops, st1);
      }
    }
  }

  lemma {:induction false} DirectSound(vs: seq<Verdict>, m: Indexes, check: ConditionCheck, auth: Option<Authorizer>,
                                       ops: seq<Op>)
    requires IndexesOk(vs, m) && forall op :: op in m ==> Below(m[op], |vs|)
    ensures Sound(vs, check, auth, ops, Direct(StartState(vs, check, ops), ops, m, |ops|))
  {
    DirectExact(vs, m, check, ops, |ops|);
    DoneIsSound(vs, check, auth, ops, Direct(StartState(vs, check, ops), ops, m, |ops|), |ops|);
  }

  lemma DoneIsSound(vs: seq<Verdict>, check: ConditionCheck, auth: Option<Authorizer>, ops: seq<Op>, st: State, n: nat)
    requires n == |ops| && DirectDone(vs, check, ops, n, st)
    ensures Sound(vs, check, auth, ops, st)
  {
  }

  lemma {:induction false} DirectAuthsAll(vs: seq<Verdict>, m: Indexes, check: ConditionCheck, ops: seq<Op>)
    requires IndexesOk(vs, m) && forall op :: op in m ==> Below(m[op], |vs|)
    ensures Unauthed(Direct(StartState(vs, check, ops), ops, m, |ops|).authed) == [] <==>
      forall op :: op in ops ==> op == NO_OP || DirectlyAllowed(vs, check, op)
  {
    var st := Direct(StartState(vs, check, ops), ops, m, |ops|);
    DirectExact(vs, m, check, ops, |ops|);
    NoneUnauthed(st.authed);
    assert forall k :: 0 <= k < |ops| ==> ops[k] in ops;
    if !forall op :: op in ops ==> op == NO_OP || DirectlyAllowed(vs, check, op) {
      var k :| 0 <= k < |ops| && !(ops[k] == NO_OP || DirectlyAllowed(vs, check, ops[k]));
      assert !st.authed[k];
    }
  }

  /** Without an authorizer the decision is exact, and what it reports is the first macaroon that carries
      each operation and passes. */
  lemma AllowIsExactWithoutAuthorizer(vs: seq<Verdict>, m: Indexes, check: ConditionCheck, ops: seq<Op>, order: seq<Op>)
    requires IndexesOk(vs, m) && (forall op :: op in order ==> op in m) && forall op :: op in m ==> Below(m[op], |vs|)
    ensures var d := Decide(vs, m, check, None, ops, order);
      && (d.Allowed? <==> forall op :: op in ops ==> op == NO_OP || DirectlyAllowed(vs, check, op))
      && (!d.Allowed? ==> d == Denied)
      && (d.Allowed? ==> forall op :: op in d.state.opIndexes <==> op in ops && op != NO_OP)
      && (d.Allowed? ==> forall op :: op in ops && op != NO_OP ==> IsFirstGood(vs, check, op, d.state.opIndexes[op]))
      && (d.Allowed? ==> |d.state.status| == |vs|)
      && (d.Allowed? ==> forall i :: 0 <= i < |vs| ==> (d.state.status[i].used <==> UsedDirectly(vs, check, ops, i)))
  {
    DirectAuthsAll(vs, m, check, ops);
    DirectExact(vs, m, check, ops, |ops|);
    DirectUsed(vs, m, check, ops, |ops|);
    assert ops[..|ops|] == ops;
  }

  // ---------- the order in which the operations are visited ----------

  /** The authorizer never fails and answers each queried operation independently of the others; an
      answer that is missing at the end of the list is a refusal. */
  ghost predicate Independent(auth: Authorizer, grants: (Option<nat>, Op, Op) -> bool) {
    forall mi, op, qs :: auth(mi, op, qs).Some? && AnswersAre(auth(mi, op, qs).value.allowed, mi, op, qs, grants)
  }

  ghost predicate AnswersAre(allowed: seq<bool>, mi: Option<nat>, op: Op, qs: seq<Op>,
                             grants: (Option<nat>, Op, Op) -> bool)
  {
    && |allowed| <= |qs|
    && forall j :: 0 <= j < |qs| ==> (grants(mi, op, qs[j]) <==> j < |allowed| && allowed[j])
  }

  ghost predicate SomeMacaroonGrants(status: seq<Status>, mindexes: seq<nat>, grants: (Option<nat>, Op, Op) -> bool,
                                     op: Op, q: Op)
    requires Below(mindexes, |status|)
  {
    exists b :: 0 <= b < |mindexes| && status[mindexes[b]].ok && grants(Some(mindexes[b]), op, q)
  }

  ghost predicate SomeOpGrants(status: seq<Status>, m: Indexes, order: seq<Op>, grants: (Option<nat>, Op, Op) -> bool,
                               q: Op)
    requires forall op :: op in order ==> op in m && Below(m[op], |status|)
  {
    exists a :: 0 <= a < |order| && SomeMacaroonGrants(status, m[order[a]], grants, order[a], q)
  }

  lemma QueryExact(st: State, ops: seq<Op>, idx: seq<nat>, auth: Authorizer, mi: Option<nat>, op: Op,
                   grants: (Option<nat>, Op, Op) -> bool)
    requires Independent(auth, grants) && |st.authed| == |ops| && Below(idx, |ops|)
      && (mi.Some? ==> mi.value < |st.status|)
    ensures Query(st, ops, idx, auth, mi, op).Some?
    ensures var r := Query(st, ops, idx, auth, mi, op).value.0;
      forall k :: 0 <= k < |ops| ==> (r.authed[k] <==> st.authed[k] || (k in idx && grants(mi, op, ops[k])))
  {
    var qs := At(ops, idx);
    var allowed := auth(mi, op, qs).value.allowed;
    assert AnswersAre(allowed, mi, op, qs, grants);
    GrantedExact(st, ops, idx, mi, allowed, |allowed|);
    forall k | 0 <= k < |ops| ensures GrantedAt(idx, allowed, |allowed|, k) <==> k in idx && grants(mi, op, ops[k]) {
      if k in idx && grants(mi, op, ops[k]) {
        var j :| 0 <= j < |idx| && idx[j] == k;
        assert qs[j] == ops[k];
      }
      if GrantedAt(idx, allowed, |allowed|, k) {
        var j :| 0 <= j < |allowed| && allowed[j] && idx[j] == k;
        assert qs[j] == ops[k];
      }
    }
  }

  lemma {:induction false} QueryMacaroonsExact(st: State, ops: seq<Op>, idx: seq<nat>, auth: Authorizer, op: Op,
                                               mindexes: seq<nat>, grants: (Option<nat>, Op, Op) -> bool)
    requires Independent(auth, grants) && |st.authed| == |ops| && Below(idx, |ops|) && Below(mindexes, |st.status|)
    ensures QueryMacaroons(st, ops, idx, auth, op, mindexes).Some?
    ensures var r := QueryMacaroons(st, ops, idx, auth, op, mindexes).value.0;
      forall k :: 0 <= k < |ops| ==>
        (r.authed[k] <==> st.authed[k] || (k in idx && SomeMacaroonGrants(st.status, mindexes, grants, op, ops[k])))
    decreases |mindexes|
  {
    if mindexes != [] {
      var st1 := st;
      if st.status[mindexes[0]].ok {
        QueryExact(st, ops, idx, auth, Some(mindexes[0]), op, grants);
        st1 := Query(st, ops, idx, auth, Some(mindexes[0]), op).value.0;
      }
      QueryMacaroonsExact(st1, ops, idx, auth, op, mindexes[1..], grants);
      forall q ensures SomeMacaroonGrants(st.status, mindexes, grants, op, q) <==>
        (st.status[mindexes[0]].ok && grants(Some(mindexes[0]), op, q))
          || SomeMacaroonGrants(st1.status, mindexes[1..], grants, op, q)
      {
        assert forall b :: 1 <= b < |mindexes| ==> mindexes[b] == mindexes[1..][b - 1];
        if SomeMacaroonGrants(st.status, mindexes, grants, op, q) {
          var b :| 0 <= b < |mindexes| && st.status[mindexes[b]].ok && grants(Some(mindexes[b]), op, q);
          if b > 0 { assert st1.status[mindexes[1..][b - 1]].ok; }
        }
        if SomeMacaroonGrants(st1.status, mindexes[1..], grants, op, q) {
          var b :| 0 <= b < |mindexes[1..]| && st1.status[mindexes[1..][b]].ok && grants(Some(mindexes[1..][b]), op, q);
          assert st.status[mindexes[b + 1]].ok;
        }
      }
    }
  }

  lemma {:induction false} QueryOpsExact(st: State, ops: seq<Op>, auth: Authorizer, m: Indexes, order: seq<Op>,
                                         grants: (Option<nat>, Op, Op) -> bool)
    requires Independent(auth, grants) && WellFormed(st, ops, m) && forall op :: op in order ==> op in m
    ensures QueryOps(st, ops, auth, m, order).Some?
    ensures var r := QueryOps(st, ops, auth, m, order).value.0;
      forall k :: 0 <= k < |ops| ==>
        (r.authed[k] <==> st.authed[k] || SomeOpGrants(st.status, m, order, grants, ops[k]))
    decreases |order|
  {
    var idx := Unauthed(st.authed);
    NoneUnauthed(st.authed);
    if order != [] && idx != [] {
      QueryMacaroonsExact(st, ops, idx, auth, order[0], m[order[0]], grants);
      var st1 := QueryMacaroons(st, ops, idx, auth, order[0], m[order[0]]).value.0;
      QueryOpsExact(st1, ops, auth, m, order[1..], grants);
      forall q ensures SomeOpGrants(st.status, m, order, grants, q) <==>
        SomeMacaroonGrants(st.status, m[order[0]], grants, order[0], q)
          || SomeOpGrants(st1.status, m, order[1..], grants, q)
      {
        SameStatusGrants(st.status, st1.status, m, order, grants, q);
      }
    }
  }

  lemma SameStatusGrants(status: seq<Status>, status': seq<Status>, m: Indexes, order: seq<Op>,
                         grants: (Option<nat>, Op, Op) -> bool, q: Op)
    requires |status| == |status'| && forall i :: 0 <= i < |status| ==> status[i].ok == status'[i].ok
    requires order != [] && forall op :: op in order ==> op in m && Below(m[op], |status|)
    ensures SomeOpGrants(status, m, order, grants, q) <==>
      SomeMacaroonGrants(status, m[order[0]], grants, order[0], q) || SomeOpGrants(status', m, order[1..], grants, q)
  {
    assert forall a :: 1 <= a < |order| ==> order[a] == order[1..][a - 1];
    forall op | op in m && Below(m[op], |status|)
      ensures SomeMacaroonGrants(status, m[op], grants, op, q) <==> SomeMacaroonGrants(status', m[op], grants, op, q)
    {
    }
    if SomeOpGrants(status, m, order, grants, q) {
      var a :| 0 <= a < |order| && SomeMacaroonGrants(status, m[order[a]], grants, order[a], q);
      if a > 0 { assert SomeMacaroonGrants(status', m[order[1..][a - 1]], grants, order[1..][a - 1], q); }
    }
    if SomeOpGrants(status', m, order[1..], grants, q) {
      var a :| 0 <= a < |order[1..]| && SomeMacaroonGrants(status', m[order[1..][a]], grants, order[1..][a], q);
      assert SomeMacaroonGrants(status, m[order[a + 1]], grants, order[a + 1], q);
    }
  }

  /** The authorizer grants q from some operation of a macaroon that verified and passes. */
  ghost predicate MacaroonGrants(vs: seq<Verdict>, check: ConditionCheck, grants: (Option<nat>, Op, Op) -> bool,
                                 q: Op)
  {
    exists op: Op, i: nat :: Good(vs, check, op, i) && grants(Some(i), op, q)
  }

  lemma OrderedGrantsAreAllGrants(vs: seq<Verdict>, m: Indexes, check: ConditionCheck, status: seq<Status>,
                                  order: seq<Op>, grants: (Option<nat>, Op, Op) -> bool, q: Op)
    requires IndexesOk(vs, m) && (forall op :: op in order <==> op in m) && forall op :: op in m ==> Below(m[op], |vs|)
    requires |status| == |vs| && forall i :: 0 <= i < |vs| ==> (status[i].ok <==> Passes(check, i, vs[i]))
    ensures SomeOpGrants(status, m, order, grants, q) <==> MacaroonGrants(vs, check, grants, q)
  {
    if SomeOpGrants(status, m, order, grants, q) {
      var a :| 0 <= a < |order| && SomeMacaroonGrants(status, m[order[a]], grants, order[a], q);
      var b :| 0 <= b < |m[order[a]]| && status[m[order[a]][b]].ok && grants(Some(m[order[a]][b]), order[a], q);
      assert order[a] in m && Good(vs, check, order[a], m[order[a]][b]);
    }
    if MacaroonGrants(vs, check, grants, q) {
      var op, i: nat :| Good(vs, check, op, i) && grants(Some(i), op, q);
      assert op in m && i in m[op];
      var a :| 0 <= a < |order| && order[a] == op;
      var b :| 0 <= b < |m[op]| && m[op][b] == i;
      assert SomeMacaroonGrants(status, m[order[a]], grants, order[a], q);
    }
  }

  lemma IndirectExact(st: State, ops: seq<Op>, auth: Authorizer, m: Indexes, order: seq<Op>,
                      grants: (Option<nat>, Op, Op) -> bool)
    requires Independent(auth, grants) && WellFormed(st, ops, m) && forall op :: op in order ==> op in m
    ensures Indirect(st, ops, Some(auth), m, order).Some?
    ensures var r := Indirect(st, ops, Some(auth), m, order).value.0;
      forall k :: 0 <= k < |ops| ==>
        (r.authed[k] <==>
          st.authed[k] || SomeOpGrants(st.status, m, order, grants, ops[k]) || grants(None, NO_OP, ops[k]))
  {
    QueryOpsExact(st, ops, auth, m, order, grants);
    var st1 := QueryOps(st, ops, auth, m, order).value.0;
    var idx := Unauthed(st1.authed);
    NoneUnauthed(st1.authed);
    if idx != [] {
      QueryExact(st1, ops, idx, auth, None, NO_OP, grants);
    }
  }

  ghost predicate Grantable(vs: seq<Verdict>, check: ConditionCheck, grants: (Option<nat>, Op, Op) -> bool, op: Op) {
    op == NO_OP || DirectlyAllowed(vs, check, op) || MacaroonGrants(vs, check, grants, op) || grants(None, NO_OP, op)
  }

  /** Allow denies exactly when some requested operation is neither NoOp, nor directly allowed, nor
      granted from a good macaroon or from NoOp: a condition in which the order of the map iteration
      does not occur, despite the early exit and the shrinking list of needed operations. */
  lemma DenialIsOrderIndependent(vs: seq<Verdict>, m: Indexes, check: ConditionCheck, auth: Authorizer, ops: seq<Op>,
                                 order: seq<Op>, grants: (Option<nat>, Op, Op) -> bool)
    requires IndexesOk(vs, m) && (forall op :: op in order <==> op in m) && forall op :: op in m ==> Below(m[op], |vs|)
    requires Independent(auth, grants)
    ensures Decide(vs, m, check, Some(auth), ops, order) == Denied <==>
      exists op :: op in ops && !Grantable(vs, check, grants, op)
    ensures Decide(vs, m, check, Some(auth), ops, order) != Failed
  {
    AuthedAreGrantable(vs, m, check, auth, ops, order, grants);
    DirectAuthsAll(vs, m, check, ops);
    var st := Direct(StartState(vs, check, ops), ops, m, |ops|);
    var st1 := Indirect(st, ops, Some(auth), m, order).value.0;
    AllGrantable(vs, check, grants, ops, st1.authed);
    assert (forall op :: op in ops ==> op == NO_OP || DirectlyAllowed(vs, check, op)) ==>
      !exists op :: op in ops && !Grantable(vs, check, grants, op);
    DecideCases(vs, m, check, auth, ops, order, st);
  }

  lemma DecideCases(vs: seq<Verdict>, m: Indexes, check: ConditionCheck, auth: Authorizer, ops: seq<Op>,
                    order: seq<Op>, st: State)
    requires (forall op :: op in order ==> op in m) && forall op :: op in m ==> Below(m[op], |vs|)
    requires st == Direct(StartState(vs, check, ops), ops, m, |ops|) && Indirect(st, ops, Some(auth), m, order).Some?
    ensures Decide(vs, m, check, Some(auth), ops, order) == Denied <==>
      Unauthed(st.authed) != [] && Unauthed(Indirect(st, ops, Some(auth), m, order).value.0.authed) != []
    ensures Decide(vs, m, check, Some(auth), ops, order) != Failed
  {
  }

  lemma AllGrantable(vs: seq<Verdict>, check: ConditionCheck, grants: (Option<nat>, Op, Op) -> bool, ops: seq<Op>,
                     authed: seq<bool>)
    requires |authed| == |ops| && forall k :: 0 <= k < |ops| ==> (authed[k] <==> Grantable(vs, check, grants, ops[k]))
    ensures Unauthed(authed) != [] <==> exists op :: op in ops && !Grantable(vs, check, grants, op)
  {
    NoneUnauthed(authed);
    if op :| op in ops && !Grantable(vs, check, grants, op) {
      var k :| 0 <= k < |ops| && ops[k] == op;
      assert !authed[k];
    }
  }

  lemma {:induction false} AuthedAreGrantable(vs: seq<Verdict>, m: Indexes, check: ConditionCheck, auth: Authorizer,
                                              ops: seq<Op>, order: seq<Op>, grants: (Option<nat>, Op, Op) -> bool)
    requires IndexesOk(vs, m) && (forall op :: op in order <==> op in m) && forall op :: op in m ==> Below(m[op], |vs|)
    requires Independent(auth, grants)
    ensures var st := Direct(StartState(vs, check, ops), ops, m, |ops|);
      && Indirect(st, ops, Some(auth), m, order).Some?
      && forall k :: 0 <= k < |ops| ==>
           (Indirect(st, ops, Some(auth), m, order).value.0.authed[k] <==> Grantable(vs, check, grants, ops[k]))
  {
    var st := Direct(StartState(vs, check, ops), ops, m, |ops|);
    DirectExact(vs, m, check, ops, |ops|);
    IndirectExact(st, ops, auth, m, order, grants);
    forall k | 0 <= k < |ops|
      ensures SomeOpGrants(st.status, m, order, grants, ops[k]) <==> MacaroonGrants(vs, check, grants, ops[k])
    {
      OrderedGrantsAreAllGrants(vs, m, check, st.status, order, grants, ops[k]);
    }
  }
}
