/** The influence of the iteration order of authIndexes on a decision of bakery/checker.go. */
module MapOrder {
  import opened Basics
  import opened Checker

  /** An order in which Go may iterate over the map: every key once. */
  ghost predicate IsOrder(m: Indexes, order: seq<Op>) {
    (forall op :: op in order <==> op in m) && Distinct(order)
  }

  ghost predicate Distinct(order: seq<Op>) {
    forall i, j :: 0 <= i < j < |order| ==> order[i] != order[j]
  }

  /** The verdicts and their index, the conditions, and an authorizer that never fails and treats the queried
      operations one by one: it grants those that `grants` says, and it returns caveats when `charges` says so
      of one of them. */
  datatype Situation = Situation(
    vs: seq<Verdict>, m: Indexes, check: ConditionCheck, auth: Authorizer,
    grants: (Option<nat>, Op, Op) -> bool, charges: (Option<nat>, Op, Op) -> bool)
  {
    ghost predicate Valid() {
      && IndexesOk(vs, m) && (forall op :: op in m ==> Below(m[op], |vs|))
      && Independent(auth, grants)
      && forall mi, op, qs :: auth(mi, op, qs).Some? && qs != [] ==>
        ChargesAre(auth(mi, op, qs).value.caveats, mi, op, qs)
    }

    ghost predicate ChargesAre(caveats: seq<Caveat>, mi: Option<nat>, op: Op, qs: seq<Op>) {
      caveats == [] <==> forall q :: q in qs ==> !charges(mi, op, q)
    }

    function Decided(ops: seq<Op>, order: seq<Op>): Decision
      requires (forall op :: op in order ==> op in m) && forall op :: op in m ==> Below(m[op], |vs|)
    {
      Decide(vs, m, check, Some(auth), ops, order)
    }

    /** The operations left for the authorizer. */
    ghost function Needed(ops: seq<Op>): set<Op> {
      set q | q in ops && q != NO_OP && !DirectlyAllowed(vs, check, q)
    }

    ghost predicate AllGrantable(ops: seq<Op>) {
      forall q :: q in ops ==> Grantable(vs, check, grants, q)
    }

    /** A good macaroon of op grants q. */
    ghost predicate OpGrants(op: Op, q: Op) {
      exists i: nat :: Good(vs, check, op, i) && grants(Some(i), op, q)
    }

    ghost predicate OpCharges(op: Op, q: Op) {
      exists i: nat :: Good(vs, check, op, i) && charges(Some(i), op, q)
    }

    /** Visiting op while the set is needed returns caveats. */
    ghost predicate LoudOn(op: Op, needed: set<Op>) {
      exists q :: q in needed && OpCharges(op, q)
    }

    ghost predicate NoOpLoudOn(needed: set<Op>) {
      exists q :: q in needed && charges(None, NO_OP, q)
    }

    /** What is needed after visiting op. */
    ghost function Left(op: Op, needed: set<Op>): set<Op> {
      set q | q in needed && !OpGrants(op, q)
    }

    /** What is needed after visiting the operations in the given order. */
    ghost function After(needed: set<Op>, order: seq<Op>): set<Op> {
      if order == [] then needed else After(Left(order[0], needed), order[1..])
    }

    /** No caveats are returned on the way. */
    ghost predicate Quiet(needed: set<Op>, order: seq<Op>) {
      order == [] || (!LoudOn(order[0], needed) && Quiet(Left(order[0], needed), order[1..]))
    }

    /** No operation grants any of the set without returning caveats for some of it. */
    ghost predicate Stuck(needed: set<Op>) {
      forall op, q :: q in needed && OpGrants(op, q) ==> LoudOn(op, needed)
    }

    ghost predicate InStuck(q: Op, needed: set<Op>) {
      exists stuck: set<Op> :: stuck <= needed && q in stuck && Stuck(stuck)
    }

    /** What can never be granted without caveats: the largest stuck part. */
    ghost function Rest(needed: set<Op>): set<Op> {
      set q | q in needed && InStuck(q, needed)
    }

    /** The state agrees with the verdicts and exactly the given operations are needed. */
    ghost predicate StateOk(st: State, ops: seq<Op>, needed: set<Op>) {
      && WellFormed(st, ops, m) && |st.status| == |vs|
      && (forall i :: 0 <= i < |vs| ==> (st.status[i].ok <==> Passes(check, i, vs[i])))
      && (forall k :: 0 <= k < |ops| ==> (st.authed[k] <==> ops[k] !in needed))
      && forall q :: q in needed ==> q in ops
    }
  }

  // ---------- sets of needed operations ----------

  lemma {:induction false} AfterIs(s: Situation, needed: set<Op>, order: seq<Op>)
    ensures s.After(needed, order) == set q | q in needed && !ListGrants(s, order, q)
  {
    if order != [] {
      AfterIs(s, s.Left(order[0], needed), order[1..]);
      forall q ensures ListGrants(s, order, q) <==> s.OpGrants(order[0], q) || ListGrants(s, order[1..], q) {
        ListGrantsNext(s, order, q);
      }
    }
  }

  /** An operation of the list grants q. */
  ghost predicate ListGrants(s: Situation, order: seq<Op>, q: Op) {
    exists a :: 0 <= a < |order| && s.OpGrants(order[a], q)
  }

  lemma ListGrantsNext(s: Situation, order: seq<Op>, q: Op)
    requires order != []
    ensures ListGrants(s, order, q) <==> s.OpGrants(order[0], q) || ListGrants(s, order[1..], q)
  {
    assert forall a :: 1 <= a < |order| ==> order[a] == order[1..][a - 1];
    assert forall a :: 0 <= a < |order[1..]| ==> order[1..][a] == order[a + 1];
    if ListGrants(s, order, q) && !s.OpGrants(order[0], q) {
      var a :| 0 <= a < |order| && s.OpGrants(order[a], q);
      assert s.OpGrants(order[1..][a - 1], q);
    }
    if ListGrants(s, order[1..], q) {
      var a :| 0 <= a < |order[1..]| && s.OpGrants(order[1..][a], q);
      assert s.OpGrants(order[a + 1], q);
    }
  }

  lemma {:induction false} AfterAppend(s: Situation, needed: set<Op>, a: seq<Op>, b: seq<Op>)
    ensures s.After(needed, a + b) == s.After(s.After(needed, a), b)
    ensures s.Quiet(needed, a + b) <==> s.Quiet(needed, a) && s.Quiet(s.After(needed, a), b)
    decreases |a|
  {
    if a == [] {
      assert a + b == b;
    } else {
      AfterAppend(s, s.Left(a[0], needed), a[1..], b);
      assert (a + b)[1..] == a[1..] + b;
    }
  }

  lemma {:induction false} AfterShrinks(s: Situation, needed: set<Op>, order: seq<Op>)
    ensures s.After(needed, order) <= needed
    decreases |order|
  {
    if order != [] {
      AfterShrinks(s, s.Left(order[0], needed), order[1..]);
    }
  }

  /** An operation that is visited quietly is still quiet at the end. */
  lemma {:induction false} QuietToTheEnd(s: Situation, needed: set<Op>, order: seq<Op>, op: Op)
    requires s.Quiet(needed, order) && op in order
    ensures !s.LoudOn(op, s.After(needed, order))
    decreases |order|
  {
    AfterShrinks(s, needed, order);
    if op != order[0] {
      QuietToTheEnd(s, s.Left(order[0], needed), order[1..], op);
    }
  }

  lemma {:induction false} LoudFromTheStart(s: Situation, needed: set<Op>, order: seq<Op>)
    requires !s.Quiet(needed, order)
    ensures exists op :: s.LoudOn(op, needed)
    decreases |order|
  {
    if !s.LoudOn(order[0], needed) {
      var left := s.Left(order[0], needed);
      LoudFromTheStart(s, left, order[1..]);
      var op :| s.LoudOn(op, left);
      assert s.LoudOn(op, needed);
    }
  }

  /** What is stuck stays needed as long as no caveats are returned. */
  lemma {:induction false} StuckSurvives(s: Situation, stuck: set<Op>, needed: set<Op>, order: seq<Op>)
    requires stuck <= needed && s.Stuck(stuck) && s.Quiet(needed, order)
    ensures stuck <= s.After(needed, order)
    decreases |order|
  {
    if order != [] {
      assert !s.LoudOn(order[0], stuck);
      StuckSurvives(s, stuck, s.Left(order[0], needed), order[1..]);
    }
  }

  /** A stuck set of which no operation returns caveats stays as it is. */
  lemma {:induction false} StuckStays(s: Situation, stuck: set<Op>, order: seq<Op>)
    requires s.Stuck(stuck) && forall op :: op in order ==> !s.LoudOn(op, stuck)
    ensures s.Quiet(stuck, order) && s.After(stuck, order) == stuck
    decreases |order|
  {
    if order != [] {
      assert s.Left(order[0], stuck) == stuck;
      StuckStays(s, stuck, order[1..]);
    }
  }

  /** The largest stuck part is stuck and contains every other. */
  lemma RestIsStuck(s: Situation, needed: set<Op>)
    ensures s.Rest(needed) <= needed && s.Stuck(s.Rest(needed))
    ensures forall stuck :: stuck <= needed && s.Stuck(stuck) ==> stuck <= s.Rest(needed)
  {
    var rest := s.Rest(needed);
    forall op, q | q in rest && s.OpGrants(op, q) ensures s.LoudOn(op, rest) {
      var stuck: set<Op> :| stuck <= needed && q in stuck && s.Stuck(stuck);
      assert s.LoudOn(op, stuck);
      var q' :| q' in stuck && s.OpCharges(op, q');
      assert s.InStuck(q', needed);
    }
    forall stuck | stuck <= needed && s.Stuck(stuck) ensures stuck <= rest {
      assert forall q :: q in stuck ==> s.InStuck(q, needed);
    }
  }

  /** Visits without caveats that go on as long as they help all end with the same operations needed. */
  lemma QuietVisitsEndAlike(s: Situation, needed: set<Op>, order: seq<Op>)
    requires s.Quiet(needed, order) && s.Stuck(s.After(needed, order))
    ensures s.After(needed, order) == s.Rest(needed)
  {
    RestIsStuck(s, needed);
    AfterShrinks(s, needed, order);
    StuckSurvives(s, s.Rest(needed), needed, order);
  }

  lemma GoodIsIndexed(s: Situation, op: Op, q: Op)
    requires s.Valid() && (s.OpGrants(op, q) || s.OpCharges(op, q))
    ensures op in s.m
  {
    var i: nat :| Good(s.vs, s.check, op, i);
  }

  /** There are such visits, of each operation at most once. */
  lemma {:induction false} Reduce(s: Situation, needed: set<Op>) returns (order: seq<Op>)
    requires s.Valid()
    ensures s.Quiet(needed, order) && s.After(needed, order) == s.Rest(needed)
    ensures Distinct(order) && forall op :: op in order ==> op in s.m && exists q :: q in needed && s.OpGrants(op, q)
    decreases |needed|
  {
    if s.Stuck(needed) {
      order := [];
    } else {
      var op, q :| q in needed && s.OpGrants(op, q) && !s.LoudOn(op, needed);
      GoodIsIndexed(s, op, q);
      var left := s.Left(op, needed);
      assert q !in left && left <= needed;
      Smaller(left, needed, q);
      var rest := Reduce(s, left);
      order := [op] + rest;
      assert order[1..] == rest;
      RestIsStuck(s, left);
    }
    QuietVisitsEndAlike(s, needed, order);
  }

  lemma Smaller(a: set<Op>, b: set<Op>, q: Op)
    requires a <= b && q in b && q !in a
    ensures |a| < |b|
  {
    assert b == a + (b - a) && q in b - a;
  }

  // ---------- one operation ----------

  lemma QueryCaveats(s: Situation, st: State, ops: seq<Op>, idx: seq<nat>, mi: Option<nat>, op: Op)
    requires s.Valid() && |st.authed| == |ops| && Below(idx, |ops|) && (mi.Some? ==> mi.value < |st.status|)
      && idx != []
    ensures Query(st, ops, idx, s.auth, mi, op).Some?
    ensures s.ChargesAre(Query(st, ops, idx, s.auth, mi, op).value.1, mi, op, At(ops, idx))
  {
    QueryExact(st, ops, idx, s.auth, mi, op, s.grants);
  }

  lemma {:induction false} QueryMacaroonsCaveats(s: Situation, st: State, ops: seq<Op>, idx: seq<nat>, op: Op,
                                                 mindexes: seq<nat>)
    requires s.Valid() && |st.authed| == |ops| && Below(idx, |ops|) && Below(mindexes, |st.status|) && idx != []
    ensures QueryMacaroons(st, ops, idx, s.auth, op, mindexes).Some?
    ensures QueryMacaroons(st, ops, idx, s.auth, op, mindexes).value.1 == [] <==>
      forall b, q :: 0 <= b < |mindexes| && st.status[mindexes[b]].ok && q in At(ops, idx) ==>
        !s.charges(Some(mindexes[b]), op, q)
    decreases |mindexes|
  {
    if mindexes != [] {
      var st1 := st;
      if st.status[mindexes[0]].ok {
        QueryCaveats(s, st, ops, idx, Some(mindexes[0]), op);
        st1 := Query(st, ops, idx, s.auth, Some(mindexes[0]), op).value.0;
      }
      QueryMacaroonsCaveats(s, st1, ops, idx, op, mindexes[1..]);
      assert forall b :: 1 <= b < |mindexes| ==> mindexes[b] == mindexes[1..][b - 1];
      assert forall b :: 0 <= b < |mindexes[1..]| ==> mindexes[1..][b] == mindexes[b + 1];
    }
  }

  /** The operations queried about are those needed. */
  lemma NeededAreQueried(s: Situation, st: State, ops: seq<Op>, needed: set<Op>)
    requires s.StateOk(st, ops, needed)
    ensures forall q :: q in At(ops, Unauthed(st.authed)) <==> q in needed
    ensures Unauthed(st.authed) == [] <==> needed == {}
    ensures forall k :: k in Unauthed(st.authed) <==> 0 <= k < |ops| && ops[k] in needed
  {
    var idx := Unauthed(st.authed);
    NoneUnauthed(st.authed);
    forall q | q in At(ops, idx) ensures q in needed {
      var a :| 0 <= a < |idx| && ops[idx[a]] == q;
      assert idx[a] in idx;
    }
    forall q | q in needed ensures q in At(ops, idx) {
      var k :| 0 <= k < |ops| && ops[k] == q;
      assert k in idx;
      var a :| 0 <= a < |idx| && idx[a] == k;
      assert At(ops, idx)[a] == q;
    }
  }

  lemma MacaroonsOfOp(s: Situation, status: seq<Status>, op: Op, q: Op)
    requires s.Valid() && op in s.m && |status| == |s.vs|
    requires forall i :: 0 <= i < |s.vs| ==> (status[i].ok <==> Passes(s.check, i, s.vs[i]))
    ensures SomeMacaroonGrants(status, s.m[op], s.grants, op, q) <==> s.OpGrants(op, q)
    ensures SomeMacaroonGrants(status, s.m[op], s.charges, op, q) <==> s.OpCharges(op, q)
  {
    var mindexes := s.m[op];
    forall b | 0 <= b < |mindexes| && status[mindexes[b]].ok ensures Good(s.vs, s.check, op, mindexes[b]) {
      assert mindexes[b] in mindexes;
    }
    forall i: nat | Good(s.vs, s.check, op, i)
      ensures exists b :: 0 <= b < |mindexes| && mindexes[b] == i && status[i].ok
    {
      assert i in mindexes;
    }
  }

  /** Visiting an operation grants what its good macaroons grant, with caveats exactly if it is loud. */
  lemma VisitOne(s: Situation, st: State, ops: seq<Op>, needed: set<Op>, op: Op) returns (st1: State, c1: seq<Caveat>)
    requires s.Valid() && s.StateOk(st, ops, needed) && needed != {} && op in s.m
    ensures QueryMacaroons(st, ops, Unauthed(st.authed), s.auth, op, s.m[op]) == Some((st1, c1))
    ensures s.StateOk(st1, ops, s.Left(op, needed)) && (c1 == [] <==> !s.LoudOn(op, needed))
  {
    var idx, mindexes := Unauthed(st.authed), s.m[op];
    NeededAreQueried(s, st, ops, needed);
    QueryMacaroonsExact(st, ops, idx, s.auth, op, mindexes, s.grants);
    QueryMacaroonsCaveats(s, st, ops, idx, op, mindexes);
    var r := QueryMacaroons(st, ops, idx, s.auth, op, mindexes).value;
    st1, c1 := r.0, r.1;
    forall q ensures SomeMacaroonGrants(st.status, mindexes, s.grants, op, q) <==> s.OpGrants(op, q) {
      MacaroonsOfOp(s, st.status, op, q);
    }
    forall q ensures SomeMacaroonGrants(st.status, mindexes, s.charges, op, q) <==> s.OpCharges(op, q) {
      MacaroonsOfOp(s, st.status, op, q);
    }
  }

  // ---------- the loop over the operations ----------

  /** One round of the loop, when something is needed. */
  lemma Round(s: Situation, st: State, ops: seq<Op>, needed: set<Op>, order: seq<Op>)
    returns (st1: State, c1: seq<Caveat>)
    requires s.Valid() && s.StateOk(st, ops, needed) && (forall op :: op in order ==> op in s.m)
    requires order != [] && needed != {}
    ensures s.StateOk(st1, ops, s.Left(order[0], needed)) && (c1 == [] <==> !s.LoudOn(order[0], needed))
    ensures QueryOps(st, ops, s.auth, s.m, order) ==
      match QueryOps(st1, ops, s.auth, s.m, order[1..]) case None => None case Some((st2, c2)) => Some((st2, c1 + c2))
  {
    NeededAreQueried(s, st, ops, needed);
    st1, c1 := VisitOne(s, st, ops, needed, order[0]);
  }

  lemma {:induction false} NothingLeft(s: Situation, needed: set<Op>, order: seq<Op>)
    requires needed == {}
    ensures s.After(needed, order) == {} && s.Quiet(needed, order)
    decreases |order|
  {
    if order != [] {
      assert s.Left(order[0], needed) == {};
      NothingLeft(s, s.Left(order[0], needed), order[1..]);
    }
  }

  /** What the loop leaves needed, and that it collects caveats exactly when some visit is loud. */
  lemma {:induction false} Loop(s: Situation, st: State, ops: seq<Op>, needed: set<Op>, order: seq<Op>)
    returns (r: State, c: seq<Caveat>)
    requires s.Valid() && s.StateOk(st, ops, needed) && (forall op :: op in order ==> op in s.m)
    ensures QueryOps(st, ops, s.auth, s.m, order) == Some((r, c))
    ensures s.StateOk(r, ops, s.After(needed, order)) && (c == [] <==> s.Quiet(needed, order))
    decreases |order|
  {
    NeededAreQueried(s, st, ops, needed);
    if order == [] || needed == {} {
      NothingLeft(s, {}, order);
      r, c := st, [];
    } else {
      var st1, c1 := Round(s, st, ops, needed, order);
      var c2;
      r, c2 := Loop(s, st1, ops, s.Left(order[0], needed), order[1..]);
      c := c1 + c2;
    }
  }

  // ---------- the decision ----------

  lemma AfterDirect(s: Situation, ops: seq<Op>) returns (st: State)
    requires s.Valid()
    ensures st == Direct(StartState(s.vs, s.check, ops), ops, s.m, |ops|) && s.StateOk(st, ops, s.Needed(ops))
  {
    st := Direct(StartState(s.vs, s.check, ops), ops, s.m, |ops|);
    DirectExact(s.vs, s.m, s.check, ops, |ops|);
  }

  /** The decision in one order: nothing is needed, or all was granted without caveats, or with, or not. */
  ghost predicate DecidedAs(s: Situation, ops: seq<Op>, order: seq<Op>, d: Decision) {
    var needed := s.Needed(ops);
    var left := s.After(needed, order);
    if needed == {} then d.Allowed?
    else if !s.AllGrantable(ops) then d == Denied
    else if s.Quiet(needed, order) && !s.NoOpLoudOn(left) then d.Allowed?
    else d.DischargeRequired?
  }

  lemma DecisionIs(s: Situation, ops: seq<Op>, order: seq<Op>)
    requires s.Valid() && IsOrder(s.m, order)
    ensures DecidedAs(s, ops, order, s.Decided(ops, order))
  {
    var needed := s.Needed(ops);
    if needed == {} {
      NothingNeeded(s, ops, order);
    } else {
      DeniedIfNotGrantable(s, ops, order);
      if s.AllGrantable(ops) {
        var st := AfterDirect(s, ops);
        NeededAreQueried(s, st, ops, needed);
        var r, c := Loop(s, st, ops, needed, order);
        AfterTheLoop(s, ops, needed, order, st, r, c);
      }
    }
  }

  lemma NothingNeeded(s: Situation, ops: seq<Op>, order: seq<Op>)
    requires s.Valid() && (forall op :: op in order ==> op in s.m) && s.Needed(ops) == {}
    ensures s.Decided(ops, order).Allowed?
  {
    var st := AfterDirect(s, ops);
    NeededAreQueried(s, st, ops, {});
  }

  lemma DeniedIfNotGrantable(s: Situation, ops: seq<Op>, order: seq<Op>)
    requires s.Valid() && IsOrder(s.m, order)
    ensures s.Decided(ops, order) == Denied <==> !s.AllGrantable(ops)
  {
    DenialIsOrderIndependent(s.vs, s.m, s.check, s.auth, ops, order, s.grants);
  }

  lemma AfterTheLoop(s: Situation, ops: seq<Op>, needed: set<Op>, order: seq<Op>, st: State, r: State, c: seq<Caveat>)
    requires s.Valid() && (forall op :: op in order ==> op in s.m) && s.StateOk(r, ops, s.After(needed, order))
    requires st == Direct(StartState(s.vs, s.check, ops), ops, s.m, |ops|) && Unauthed(st.authed) != []
    requires QueryOps(st, ops, s.auth, s.m, order) == Some((r, c)) && s.Decided(ops, order) != Denied
    ensures c == [] && !s.NoOpLoudOn(s.After(needed, order)) ==> s.Decided(ops, order).Allowed?
    ensures c != [] || s.NoOpLoudOn(s.After(needed, order)) ==> s.Decided(ops, order).DischargeRequired?
  {
    var left := s.After(needed, order);
    NeededAreQueried(s, r, ops, left);
    var idx := Unauthed(r.authed);
    if idx != [] {
      QueryCaveats(s, r, ops, idx, None, NO_OP);
      assert forall q :: q in At(ops, idx) <==> q in left;
    }
  }

  // ---------- the orders there are ----------

  lemma {:induction false} AnyList(keys: set<Op>) returns (order: seq<Op>)
    ensures Distinct(order) && forall op :: op in order <==> op in keys
  {
    if keys == {} {
      order := [];
    } else {
      var op :| op in keys;
      order := AnyList(keys - {op});
      order := order + [op];
    }
  }

  /** Any visits of different operations can be the first ones. */
  lemma Completed(m: Indexes, first: seq<Op>) returns (rest: seq<Op>)
    requires Distinct(first) && forall op :: op in first ==> op in m
    ensures IsOrder(m, first + rest)
  {
    rest := AnyList(m.Keys - set op | op in first);
    forall i, j | 0 <= i < j < |first + rest| ensures (first + rest)[i] != (first + rest)[j] {
      if i < |first| <= j {
        assert first[i] in first && rest[j - |first|] in rest;
      }
    }
    assert forall op :: op in first + rest <==> op in first || op in rest;
  }

  // ---------- when some order allows, and some order asks ----------

  ghost predicate SomeOrderAllows(s: Situation, ops: seq<Op>)
    requires s.Valid()
  {
    exists order :: IsOrder(s.m, order) && s.Decided(ops, order).Allowed?
  }

  ghost predicate SomeOrderAsks(s: Situation, ops: seq<Op>)
    requires s.Valid()
  {
    exists order :: IsOrder(s.m, order) && s.Decided(ops, order).DischargeRequired?
  }

  /** All that is needed can be granted without caveats, by the operations or by NoOp in the end. */
  ghost predicate QuietSuffices(s: Situation, needed: set<Op>) {
    var rest := s.Rest(needed);
    rest == {} || (!SomeLoudOn(s, rest) && !s.NoOpLoudOn(rest))
  }

  ghost predicate SomeLoudOn(s: Situation, needed: set<Op>) {
    exists op :: s.LoudOn(op, needed)
  }

  /** No macaroon grants q, and NoOp returns caveats for it. */
  ghost predicate OnlyNoOpCharges(s: Situation, q: Op) {
    !MacaroonGrants(s.vs, s.check, s.grants, q) && s.charges(None, NO_OP, q)
  }

  ghost predicate MayAllow(s: Situation, ops: seq<Op>) {
    s.Needed(ops) == {} || (s.AllGrantable(ops) && QuietSuffices(s, s.Needed(ops)))
  }

  ghost predicate MayAsk(s: Situation, ops: seq<Op>) {
    && s.Needed(ops) != {} && s.AllGrantable(ops)
    && (SomeLoudOn(s, s.Needed(ops)) || exists q :: q in s.Needed(ops) && OnlyNoOpCharges(s, q))
  }

  lemma GrantedByAll(s: Situation, order: seq<Op>, q: Op)
    requires s.Valid() && IsOrder(s.m, order)
    ensures ListGrants(s, order, q) <==> MacaroonGrants(s.vs, s.check, s.grants, q)
    ensures forall op :: s.OpGrants(op, q) ==> ListGrants(s, order, q)
  {
    if ListGrants(s, order, q) {
      var a :| 0 <= a < |order| && s.OpGrants(order[a], q);
      var i: nat :| Good(s.vs, s.check, order[a], i) && s.grants(Some(i), order[a], q);
    }
    forall op | s.OpGrants(op, q) ensures ListGrants(s, order, q) {
      GoodIsIndexed(s, op, q);
      var a :| 0 <= a < |order| && order[a] == op;
      assert s.OpGrants(order[a], q);
    }
    if MacaroonGrants(s.vs, s.check, s.grants, q) {
      var op, i: nat :| Good(s.vs, s.check, op, i) && s.grants(Some(i), op, q);
      assert s.OpGrants(op, q);
    }
  }

  /** After all visits no operation grants any more of what is left. */
  lemma NothingMoreGranted(s: Situation, needed: set<Op>, order: seq<Op>)
    requires s.Valid() && IsOrder(s.m, order)
    ensures forall op, q :: q in s.After(needed, order) ==> !s.OpGrants(op, q)
    ensures forall q :: q in s.After(needed, order) <==> q in needed && !MacaroonGrants(s.vs, s.check, s.grants, q)
  {
    AfterIs(s, needed, order);
    forall q ensures ListGrants(s, order, q) <==> MacaroonGrants(s.vs, s.check, s.grants, q) {
      GrantedByAll(s, order, q);
    }
    forall op, q | s.OpGrants(op, q) ensures q !in s.After(needed, order) {
      GrantedByAll(s, order, q);
    }
  }

  lemma AllowedOrder(s: Situation, ops: seq<Op>, order: seq<Op>)
    requires s.Valid() && IsOrder(s.m, order) && s.Decided(ops, order).Allowed?
    ensures MayAllow(s, ops)
  {
    DecisionIs(s, ops, order);
    var needed := s.Needed(ops);
    if needed != {} {
      var left := s.After(needed, order);
      NothingMoreGranted(s, needed, order);
      QuietVisitsEndAlike(s, needed, order);
      if op :| s.LoudOn(op, left) {
        var q :| q in left && s.OpCharges(op, q);
        GoodIsIndexed(s, op, q);
        QuietToTheEnd(s, needed, order, op);
      }
    }
  }

  lemma AskingOrder(s: Situation, ops: seq<Op>, order: seq<Op>)
    requires s.Valid() && IsOrder(s.m, order) && s.Decided(ops, order).DischargeRequired?
    ensures MayAsk(s, ops)
  {
    DecisionIs(s, ops, order);
    var needed := s.Needed(ops);
    if !s.Quiet(needed, order) {
      LoudFromTheStart(s, needed, order);
    } else {
      var q :| q in s.After(needed, order) && s.charges(None, NO_OP, q);
      NothingMoreGranted(s, needed, order);
      assert OnlyNoOpCharges(s, q);
    }
  }

  lemma AllowingOrder(s: Situation, ops: seq<Op>) returns (order: seq<Op>)
    requires s.Valid() && MayAllow(s, ops)
    ensures IsOrder(s.m, order) && s.Decided(ops, order).Allowed?
  {
    var needed := s.Needed(ops);
    var first := Reduce(s, needed);
    var rest := Completed(s.m, first);
    order := first + rest;
    AfterAppend(s, needed, first, rest);
    RestIsStuck(s, needed);
    if s.Rest(needed) == {} {
      NothingLeft(s, {}, rest);
    } else if needed != {} {
      StuckStays(s, s.Rest(needed), rest);
    }
    DecisionIs(s, ops, order);
  }

  lemma AskingOrderExists(s: Situation, ops: seq<Op>) returns (order: seq<Op>)
    requires s.Valid() && MayAsk(s, ops)
    ensures IsOrder(s.m, order) && s.Decided(ops, order).DischargeRequired?
  {
    var needed := s.Needed(ops);
    if op :| s.LoudOn(op, needed) {
      var q :| q in needed && s.OpCharges(op, q);
      GoodIsIndexed(s, op, q);
      var rest := Completed(s.m, [op]);
      order := [op] + rest;
      assert !s.Quiet(needed, order);
    } else {
      order := AnyList(s.m.Keys);
      var q :| q in needed && OnlyNoOpCharges(s, q);
      NothingMoreGranted(s, needed, order);
      assert s.NoOpLoudOn(s.After(needed, order));
    }
    DecisionIs(s, ops, order);
  }

  /** Exactly when there is an order of the map in which the request is allowed, and one in which it is
      answered with a discharge request. */
  lemma OrdersExist(s: Situation, ops: seq<Op>)
    requires s.Valid()
    ensures SomeOrderAllows(s, ops) <==> MayAllow(s, ops)
    ensures SomeOrderAsks(s, ops) <==> MayAsk(s, ops)
  {
    if SomeOrderAllows(s, ops) {
      var order :| IsOrder(s.m, order) && s.Decided(ops, order).Allowed?;
      AllowedOrder(s, ops, order);
    }
    if SomeOrderAsks(s, ops) {
      var order :| IsOrder(s.m, order) && s.Decided(ops, order).DischargeRequired?;
      AskingOrder(s, ops, order);
    }
    if MayAllow(s, ops) {
      var order := AllowingOrder(s, ops);
    }
    if MayAsk(s, ops) {
      var order := AskingOrderExists(s, ops);
    }
  }

  predicate SameKind(a: Decision, b: Decision) {
    && a.Allowed? == b.Allowed? && a.Denied? == b.Denied?
    && a.DischargeRequired? == b.DischargeRequired? && a.Failed? == b.Failed?
  }

  /** The decision is to allow in one order and to ask in another: something is needed, all of it can be granted,
      some operation comes with caveats for it, and yet it can all be granted without. */
  ghost predicate OrderMatters(s: Situation, ops: seq<Op>) {
    && s.Needed(ops) != {} && s.AllGrantable(ops)
    && SomeLoudOn(s, s.Needed(ops)) && QuietSuffices(s, s.Needed(ops))
  }

  lemma BothOutcomes(s: Situation, ops: seq<Op>)
    requires s.Valid()
    ensures SomeOrderAllows(s, ops) && SomeOrderAsks(s, ops) <==> OrderMatters(s, ops)
  {
    OrdersExist(s, ops);
    var needed := s.Needed(ops);
    forall q | q in needed && OnlyNoOpCharges(s, q) ensures !QuietSuffices(s, needed) {
      NeverGrantedIsStuck(s, needed, q);
    }
  }

  lemma NeverGrantedIsStuck(s: Situation, needed: set<Op>, q: Op)
    requires q in needed && !MacaroonGrants(s.vs, s.check, s.grants, q)
    ensures q in s.Rest(needed)
  {
    forall op ensures !s.OpGrants(op, q) {
      assert forall i: nat :: Good(s.vs, s.check, op, i) ==> !s.grants(Some(i), op, q);
    }
    assert s.Stuck({q}) && s.InStuck(q, needed);
  }

  /** The kind of decision is the same in every order of the map, exactly when order does not matter. */
  lemma DecisionIsOrderIndependentIff(s: Situation, ops: seq<Op>)
    requires s.Valid()
    ensures (forall order, order' :: IsOrder(s.m, order) && IsOrder(s.m, order') ==>
      SameKind(s.Decided(ops, order), s.Decided(ops, order'))) <==> !OrderMatters(s, ops)
  {
    BothOutcomes(s, ops);
    if !OrderMatters(s, ops) {
      forall order, order' | IsOrder(s.m, order) && IsOrder(s.m, order')
        ensures SameKind(s.Decided(ops, order), s.Decided(ops, order'))
      {
        DecisionIs(s, ops, order);
        DecisionIs(s, ops, order');
      }
    }
  }

  // ---------- authorizers that answer one operation at a time ----------

  /** AuthorizerFunc: f is called for each queried operation, and the caveats are put together. */
  function OneByOne(f: (Option<nat>, Op, Op) -> (bool, seq<Caveat>)): Authorizer {
    (mi: Option<nat>, op: Op, qs: seq<Op>) =>
      Some(Answer(seq(|qs|, j requires 0 <= j < |qs| => f(mi, op, qs[j]).0), AllCaveats(f, mi, op, qs)))
  }

  function AllCaveats(f: (Option<nat>, Op, Op) -> (bool, seq<Caveat>), mi: Option<nat>, op: Op, qs: seq<Op>)
    : seq<Caveat>
  {
    if qs == [] then [] else AllCaveats(f, mi, op, qs[..|qs| - 1]) + f(mi, op, qs[|qs| - 1]).1
  }

  lemma {:induction false} AllCaveatsEmpty(f: (Option<nat>, Op, Op) -> (bool, seq<Caveat>), mi: Option<nat>, op: Op,
                                           qs: seq<Op>)
    ensures AllCaveats(f, mi, op, qs) == [] <==> forall q :: q in qs ==> f(mi, op, q).1 == []
  {
    if qs != [] {
      AllCaveatsEmpty(f, mi, op, qs[..|qs| - 1]);
      assert qs == qs[..|qs| - 1] + [qs[|qs| - 1]];
    }
  }

  function WithOneByOne(vs: seq<Verdict>, m: Indexes, check: ConditionCheck,
                        f: (Option<nat>, Op, Op) -> (bool, seq<Caveat>)): Situation
  {
    Situation(vs, m, check, OneByOne(f), (mi, op, q) => f(mi, op, q).0, (mi, op, q) => f(mi, op, q).1 != [])
  }

  /** Such an authorizer always makes for a situation that the theorems are about. */
  lemma OneByOneIsValid(vs: seq<Verdict>, m: Indexes, check: ConditionCheck,
                        f: (Option<nat>, Op, Op) -> (bool, seq<Caveat>))
    requires IndexesOk(vs, m) && forall op :: op in m ==> Below(m[op], |vs|)
    ensures WithOneByOne(vs, m, check, f).Valid()
  {
    var s := WithOneByOne(vs, m, check, f);
    forall mi, op, qs ensures AnswersAre(s.auth(mi, op, qs).value.allowed, mi, op, qs, s.grants) {
    }
    forall mi, op, qs ensures s.ChargesAre(s.auth(mi, op, qs).value.caveats, mi, op, qs) {
      AllCaveatsEmpty(f, mi, op, qs);
    }
  }

  // ---------- an example ----------

  // A grants X. B grants X with a third-party caveat, and Y without.
  const A := Op("a", "read")
  const B := Op("b", "read")
  const X := Op("x", "read")
  const Y := Op("y", "read")

  function ExampleAnswer(mi: Option<nat>, op: Op, q: Op): (bool, seq<Caveat>) {
    if op == A && q == X then (true, [])
    else if op == B && q == X then (true, ["third-party"])
    else if op == B && q == Y then (true, [])
    else (false, [])
  }

  function Example(): Situation {
    WithOneByOne([Verified([A], []), Verified([B], [])], map[A := [0], B := [1]], (i, cond) => true, ExampleAnswer)
  }

  lemma ExampleGood(s: Situation)
    requires s == Example()
    ensures forall op, i: nat :: Good(s.vs, s.check, op, i) <==> (op == A && i == 0) || (op == B && i == 1)
  {
  }

  lemma ExampleGrants(s: Situation)
    requires s == Example()
    ensures forall op, q :: s.OpGrants(op, q) <==> (op == A && q == X) || (op == B && (q == X || q == Y))
    ensures forall op, q :: s.OpCharges(op, q) <==> op == B && q == X
  {
    ExampleGood(s);
    var grants, charges := s.grants, s.charges;
    assert forall mi, op, q :: grants(mi, op, q) == ExampleAnswer(mi, op, q).0;
    assert forall mi, op, q :: charges(mi, op, q) == (ExampleAnswer(mi, op, q).1 != []);
    assert grants(Some(0), A, X) && grants(Some(1), B, X) && grants(Some(1), B, Y) && charges(Some(1), B, X);
    assert forall q :: charges(Some(0), A, q) == false;
  }

  lemma ExampleOrderMatters(s: Situation, ops: seq<Op>)
    requires s == Example() && ops == [X, Y]
    ensures OrderMatters(s, ops)
  {
    ExampleGood(s);
    ExampleGrants(s);
    var needed := s.Needed(ops);
    assert X in needed && Y in needed;
    assert s.LoudOn(B, needed);
    forall q | q == X || q == Y ensures MacaroonGrants(s.vs, s.check, s.grants, q) {
      assert s.OpGrants(B, q);
    }
    RestIsStuck(s, needed);
    var rest := s.Rest(needed);
    assert s.OpGrants(A, X) && !s.LoudOn(A, rest);
    assert X !in rest && !s.LoudOn(B, rest);
    assert s.OpGrants(B, Y) && Y !in rest;
  }

  /** Allow can succeed in one order of the map iteration and ask for a discharge in the other: when A is visited
      first, B is asked about Y only. */
  lemma CaveatsDependOnOrder()
    ensures Example().Valid() && SomeOrderAllows(Example(), [X, Y]) && SomeOrderAsks(Example(), [X, Y])
  {
    OneByOneIsValid(Example().vs, Example().m, Example().check, ExampleAnswer);
    ExampleOrderMatters(Example(), [X, Y]);
    BothOutcomes(Example(), [X, Y]);
  }
}
