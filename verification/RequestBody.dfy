/** The reference-counted request body of httpbakery/request.go: the client prepares one attempt after
    the other while the HTTP transport may still be reading from, or closing, the bodies of earlier ones. */
module RequestBody {

  /** A readStopper: open, open with a Read holding its mutex, closed but the reference not yet given
      up (by the client inside prepare, or by the transport), or done. */
  datatype Stopper = Open | Reading | Closing(byClient: bool) | Released {
    predicate Active() { Open? || Reading? }
  }

  /** Where the client's goroutine is inside prepare. */
  datatype Phase = Idle | Stopping | Decrementing | Seeking | Acquiring | Publishing

  /** `held` says that the client has not called close; `closers` counts those who took the count to zero
      and are about to close the body, `closed` the calls of body.Close that happened. The body was at `start`
      at first and is at `pos`; `taken` holds how much was read through each stopper. */
  datatype System = System(ref: int, held: bool, phase: Phase, stoppers: seq<Stopper>, closers: nat, closed: nat,
                           start: nat, pos: nat, taken: seq<nat>)

  datatype Event =
    | Prepare | ClientStop | ClientDec | SeekOk | SeekFail(p: nat) | Acquire | Publish | ClientClose
    | ReadBegin(i: nat) | ReadEnd(i: nat, n: nat) | ReadEof(i: nat)
    | TransportClose(i: nat) | TransportDec(i: nat)
    | BodyClose

  function Init(start: nat): System {
    System(1, true, Idle, [], 0, 0, start, start, [])
  }

  predicate Enabled(s: System, e: Event) {
    var n := |s.stoppers|;
    match e
    case Prepare => s.phase.Idle? && s.held
    case ClientStop => s.phase.Stopping? && n > 0 && !s.stoppers[n - 1].Reading?
    case ClientDec => s.phase.Decrementing? && n > 0
    case SeekOk => s.phase.Seeking?
    case SeekFail(_) => s.phase.Seeking?
    case Acquire => s.phase.Acquiring?
    case Publish => s.phase.Publishing?
    case ClientClose => s.phase.Idle? && s.held
    case ReadBegin(i) => i < n && s.stoppers[i].Open?
    case ReadEnd(i, _) => i < n && s.stoppers[i].Reading? && i < |s.taken|
    case ReadEof(i) => i < n && !s.stoppers[i].Active()
    case TransportClose(i) => i < n && !s.stoppers[i].Reading?
    case TransportDec(i) => i < n && s.stoppers[i] == Closing(false)
    case BodyClose => s.closers > 0
  }

  /** atomic.AddInt32(&ref, -1), remembering who has to close the body. */
  function Decremented(s: System): System {
    s.(ref := s.ref - 1, closers := if s.ref == 1 then s.closers + 1 else s.closers)
  }

  function Apply(s: System, e: Event): System
    requires Enabled(s, e)
  {
    var last := |s.stoppers| - 1;
    match e
    case Prepare => s.(phase := if s.stoppers == [] then Acquiring else Stopping)
    case ClientStop =>
      if s.stoppers[last].Open? then s.(stoppers := s.stoppers[last := Closing(true)], phase := Decrementing)
      else s.(phase := Seeking)
    case ClientDec => Decremented(s).(stoppers := s.stoppers[last := Released], phase := Seeking)
    case SeekOk => s.(phase := Acquiring, pos := 0)
    case SeekFail(p) => s.(phase := Idle, pos := p)
    case Acquire => s.(ref := s.ref + 1, phase := Publishing)
    case Publish => s.(stoppers := s.stoppers + [Open], taken := s.taken + [0], phase := Idle)
    case ClientClose => Decremented(s).(held := false)
    case ReadBegin(i) => s.(stoppers := s.stoppers[i := Reading])
    case ReadEnd(i, n) => s.(stoppers := s.stoppers[i := Open], pos := s.pos + n, taken := s.taken[i := s.taken[i] + n])
    case ReadEof(i) => s
    case TransportClose(i) => if s.stoppers[i].Open? then s.(stoppers := s.stoppers[i := Closing(false)]) else s
    case TransportDec(i) => Decremented(s).(stoppers := s.stoppers[i := Released])
    case BodyClose => s.(closers := s.closers - 1, closed := s.closed + 1)
  }

  predicate Run(s: System, es: seq<Event>, t: System)
    decreases |es|
  {
    if es == [] then s == t
    else Enabled(s, es[0]) && Run(Apply(s, es[0]), es[1..], t)
  }

  /** The stoppers that hold a reference. */
  function Holding(stoppers: seq<Stopper>): nat {
    if stoppers == [] then 0
    else Holding(stoppers[1..]) + if stoppers[0].Released? then 0 else 1
  }

  predicate CountOk(s: System) {
    && s.ref == Holding(s.stoppers) + (if s.held then 1 else 0) + (if s.phase.Publishing? then 1 else 0)
    && s.closers + s.closed == if s.ref == 0 then 1 else 0
  }

  predicate StoppersOk(s: System) {
    var n := |s.stoppers|;
    && (!s.phase.Idle? ==> s.held)
    && (forall i :: 0 <= i < n - 1 ==> !s.stoppers[i].Active())
    && (n > 0 && (s.phase.Decrementing? || s.phase.Seeking? || s.phase.Acquiring? || s.phase.Publishing?) ==>
          !s.stoppers[n - 1].Active())
    && (forall i :: 0 <= i < n ==> (s.stoppers[i] == Closing(true) <==> i == n - 1 && s.phase.Decrementing?))
  }

  /** Whoever may read is where the own reads have led to: from the start of the body, except that the first
      attempt begins wherever the body was. */
  predicate PositionOk(s: System) {
    && |s.taken| == |s.stoppers|
    && (s.stoppers == [] ==> s.pos == s.start && !(s.phase.Stopping? || s.phase.Decrementing? || s.phase.Seeking?))
    && (forall i :: 0 <= i < |s.stoppers| && s.stoppers[i].Active() ==> s.pos == Origin(s, i) + s.taken[i])
    && (s.phase.Acquiring? || s.phase.Publishing? ==> s.pos == Origin(s, |s.stoppers|))
  }

  function Origin(s: System, i: nat): nat {
    if i == 0 then s.start else 0
  }

  predicate Inv(s: System) {
    CountOk(s) && StoppersOk(s) && PositionOk(s)
  }

  lemma {:induction false} HoldingUpdate(ss: seq<Stopper>, i: nat, x: Stopper)
    requires i < |ss|
    ensures Holding(ss[i := x]) == Holding(ss) - (if ss[i].Released? then 0 else 1) + (if x.Released? then 0 else 1)
  {
    if i > 0 {
      HoldingUpdate(ss[1..], i - 1, x);
      assert ss[i := x][1..] == ss[1..][i - 1 := x];
    } else {
      assert ss[i := x][1..] == ss[1..];
    }
  }

  lemma {:induction false} HoldingAppend(ss: seq<Stopper>, x: Stopper)
    ensures Holding(ss + [x]) == Holding(ss) + if x.Released? then 0 else 1
  {
    if ss == [] {
      assert ss + [x] == [x];
    } else {
      HoldingAppend(ss[1..], x);
      assert (ss + [x])[1..] == ss[1..] + [x];
    }
  }

  lemma {:induction false} NoneHolding(ss: seq<Stopper>)
    ensures Holding(ss) == 0 <==> forall i :: 0 <= i < |ss| ==> ss[i].Released?
  {
    if ss != [] {
      NoneHolding(ss[1..]);
      assert forall i :: 1 <= i < |ss| ==> ss[i] == ss[1..][i - 1];
      if Holding(ss) == 0 {
        forall i | 0 <= i < |ss| ensures ss[i].Released? {
          if i > 0 { assert ss[1..][i - 1].Released?; }
        }
      }
    }
  }

  lemma StepKeepsInv(s: System, e: Event)
    requires Inv(s) && Enabled(s, e)
    ensures Inv(Apply(s, e))
  {
    StepKeepsCount(s, e);
    StepKeepsStoppers(s, e);
    StepKeepsPosition(s, e);
  }

  lemma StepKeepsPosition(s: System, e: Event)
    requires StoppersOk(s) && PositionOk(s) && Enabled(s, e)
    ensures PositionOk(Apply(s, e))
  {
    var n := |s.stoppers|;
    match e
    case Prepare => NoneActive(s);
    case Publish => NoneActive(s);
    case SeekOk => NoneActive(s);
    case SeekFail(_) => NoneActive(s);
    case _ =>
  }

  /** While the client is past stopping the last stopper, or there is none, no stopper lets reads through. */
  lemma NoneActive(s: System)
    requires StoppersOk(s)
    ensures s.stoppers == [] || !(s.phase.Idle? || s.phase.Stopping?) ==>
      forall i :: 0 <= i < |s.stoppers| ==> !s.stoppers[i].Active()
  {
  }

  lemma StepKeepsStoppers(s: System, e: Event)
    requires StoppersOk(s) && Enabled(s, e)
    ensures StoppersOk(Apply(s, e))
  {
  }

  lemma StepKeepsCount(s: System, e: Event)
    requires Inv(s) && Enabled(s, e)
    ensures CountOk(Apply(s, e))
  {
    var last := |s.stoppers| - 1;
    match e
    case ClientStop => HoldingUpdate(s.stoppers, last, Closing(true));
    case ClientDec => HoldingUpdate(s.stoppers, last, Released);
    case Publish => HoldingAppend(s.stoppers, Open);
    case ReadBegin(i) => HoldingUpdate(s.stoppers, i, Reading);
    case ReadEnd(i, _) => HoldingUpdate(s.stoppers, i, Open);
    case TransportClose(i) => HoldingUpdate(s.stoppers, i, Closing(false));
    case TransportDec(i) => HoldingUpdate(s.stoppers, i, Released);
    case _ =>
  }

  lemma {:induction false} RunKeepsInv(s: System, es: seq<Event>, t: System)
    requires Inv(s) && Run(s, es, t)
    ensures Inv(t)
    decreases |es|
  {
    if es != [] {
      StepKeepsInv(s, es[0]);
      RunKeepsInv(Apply(s, es[0]), es[1..], t);
    }
  }

  ghost predicate Reaches(s: System, t: System) {
    exists es :: Run(s, es, t)
  }

  ghost predicate Reachable(s: System) {
    exists start :: Reaches(Init(start), s)
  }

  lemma ReachableInv(s: System)
    requires Reachable(s)
    ensures Inv(s)
  {
    var start :| Reaches(Init(start), s);
    var es :| Run(Init(start), es, s);
    RunKeepsInv(Init(start), es, s);
  }

  /** The count and the closing of the body, in every interleaving: the body is closed, once, exactly
      when the client and all stoppers have let go of it. */
  lemma BodyClosedOnceWhenReleased(s: System)
    requires Reachable(s)
    ensures s.ref == Holding(s.stoppers) + (if s.held then 1 else 0) + (if s.phase.Publishing? then 1 else 0)
    ensures s.closers + s.closed <= 1
    ensures s.closers + s.closed == 1 <==> !s.held && forall i :: 0 <= i < |s.stoppers| ==> s.stoppers[i].Released?
  {
    ReachableInv(s);
    NoneHolding(s.stoppers);
  }

  /** At most one stopper lets reads through; while the client seeks, none does; and the body is neither
      read nor sought once it is closed, or about to be. */
  lemma BodyAccessIsExclusive(s: System)
    requires Reachable(s)
    ensures forall i, j :: 0 <= i < j < |s.stoppers| ==> !(s.stoppers[i].Active() && s.stoppers[j].Active())
    ensures s.phase.Seeking? ==> forall i :: 0 <= i < |s.stoppers| ==> !s.stoppers[i].Active()
    ensures s.closers + s.closed > 0 ==>
      !s.phase.Seeking? && forall i :: 0 <= i < |s.stoppers| ==> !s.stoppers[i].Active()
  {
    ReachableInv(s);
    NoneHolding(s.stoppers);
  }

  /** In every interleaving the attempt that may read has read the body without a gap: the first one from where
      the body was at first, every later one from the beginning. */
  lemma ReadsFromTheBeginning(s: System, i: nat)
    requires Reachable(s) && i < |s.stoppers| && s.stoppers[i].Active()
    ensures i < |s.taken| && s.pos == (if i == 0 then s.start else 0) + s.taken[i]
  {
    ReachableInv(s);
  }

  /** While an attempt may read, nothing but its own reads moves the position. */
  lemma OnlyOwnReadsMove(s: System, e: Event, i: nat)
    requires Reachable(s) && Enabled(s, e) && i < |s.stoppers| && s.stoppers[i].Active()
      && Apply(s, e).stoppers[i].Active()
    ensures Apply(s, e).pos == s.pos + if e.ReadEnd? && e.i == i then e.n else 0
    ensures Apply(s, e).start == s.start
  {
    ReachableInv(s);
  }

  /** Closing is final: afterwards the count stays zero and nobody reads, seeks or prepares again. */
  lemma {:induction false} ClosedIsFinal(s: System, es: seq<Event>, t: System)
    requires Inv(s) && s.ref == 0 && Run(s, es, t)
    ensures t.ref == 0 && |t.stoppers| == |s.stoppers|
    ensures forall e :: e in es ==> e.ReadEof? || e.TransportClose? || e.BodyClose?
    decreases |es|
  {
    if es != [] {
      NoneHolding(s.stoppers);
      StepKeepsInv(s, es[0]);
      ClosedIsFinal(Apply(s, es[0]), es[1..], t);
      assert forall e :: e in es ==> e == es[0] || e in es[1..];
    }
  }

  /** A stopper that was closed never lets a read through again. */
  lemma {:induction false} StoppedStaysStopped(s: System, es: seq<Event>, t: System, i: nat)
    requires Inv(s) && Run(s, es, t) && i < |s.stoppers| && !s.stoppers[i].Active()
    ensures i < |t.stoppers| && !t.stoppers[i].Active()
    ensures forall e :: e in es ==> e != ReadBegin(i)
    decreases |es|
  {
    if es != [] {
      StepKeepsInv(s, es[0]);
      StoppedStaysStopped(Apply(s, es[0]), es[1..], t, i);
      assert forall e :: e in es ==> e == es[0] || e in es[1..];
    }
  }

  // ---------- the objects ----------

  class Body {
    var pos: nat
    var closed: nat

    constructor (pos: nat)
      ensures this.pos == pos && closed == 0
    {
      this.pos, closed := pos, 0;
    }

    method Close()
      modifies this
      ensures closed == old(closed) + 1 && pos == old(pos)
    {
      closed := closed + 1;
    }
  }

  class RetryableRequest {
    var ref: int
    const body: Body
    var readStopper: ReadStopper?

    ghost const start: nat
    ghost var held: bool
    ghost var issued: seq<ReadStopper>

    ghost predicate Valid()
      reads this, issued
    {
      && readStopper == (if issued == [] then null else issued[|issued| - 1])
      && (forall i :: 0 <= i < |issued| ==> issued[i].rreq == this && (issued[i].r == null || issued[i].r == body))
      && (forall i, j :: 0 <= i < j < |issued| ==> issued[i] != issued[j])
    }

    /** The state of the protocol when no method is in progress. */
    ghost function Snapshot(): System
      reads this, issued, body
    {
      System(ref, held, Idle, States(issued), 0, body.closed, start, body.pos, Takens(issued))
    }

    constructor (body: Body)
      requires body.closed == 0
      ensures this.body == body && Valid() && Snapshot() == Init(body.pos)
    {
      ref, this.body, readStopper, start := 1, body, null, body.pos;
      held, issued := true, [];
    }

    method Close()
      modifies this`ref, body
      ensures ref == old(ref) - 1 && body.pos == old(body.pos)
      ensures body.closed == old(body.closed) + if ref == 0 then 1 else 0
    {
      ref := ref - 1;
      if ref == 0 {
        body.Close();
      }
    }

    /** The client gives up its reference. */
    method ClientClose()
      requires Valid() && held
      modifies this, body
      ensures Valid() && issued == old(issued) && !held
      ensures Reaches(old(Snapshot()), Snapshot())
    {
      ghost var after := ClientCloseRun(Snapshot());
      Close();
      held := false;
      assert Snapshot() == after;
    }

    /** Closes the i'th stopper. */
    method CloseIssued(s: ReadStopper, ghost i: nat)
      requires Valid() && i < |issued| && issued[i] == s
      modifies this`ref, body, s
      ensures Valid() && States(issued) == old(States(issued))[i := Released] && s.r == null
      ensures Takens(issued) == old(Takens(issued))
      ensures ref == if old(s.r) == null then old(ref) else old(ref) - 1
      ensures body.pos == old(body.pos)
      ensures body.closed == old(body.closed) + if old(s.r) != null && ref == 0 then 1 else 0
    {
      s.Close();
    }

    /** Stops the previous attempt: no stopper is open afterwards, and the body is not closed. */
    method StopPrevious()
      requires Valid() && readStopper != null && held && Inv(Snapshot())
      modifies this`ref, body, readStopper
      ensures Valid() && forall i :: 0 <= i < |issued| ==> issued[i].r == null
      ensures Snapshot() == LastStopped(old(Snapshot()))
    {
      ghost var before := Snapshot();
      NotLast(before);
      OnlyLastIsOpen(before);
      CloseIssued(readStopper, |issued| - 1);
      ghost var now := Snapshot();
      assert now.ref == LastStopped(before).ref && now.closed == before.closed;
      assert forall i :: 0 <= i < |issued| ==> now.stoppers[i] == StateOf(issued[i]);
    }

    method SeekToStart()
      requires Valid()
      modifies body`pos
      ensures Valid() && Snapshot() == old(Snapshot()).(pos := 0)
      ensures forall i :: 0 <= i < |issued| ==> issued[i].r == old(issued[i].r)
    {
      body.pos := 0;
    }

    /** Stops the previous attempt and seeks to the start of the body; seekOk is the outcome of that. */
    method Rewind(seekOk: bool)
      requires Valid() && readStopper != null && held && Inv(Snapshot())
      modifies this`ref, body, readStopper
      ensures Valid() && forall i :: 0 <= i < |issued| ==> issued[i].r == null
      ensures Snapshot() == Rewound(old(Snapshot()), seekOk)
    {
      StopPrevious();
      if seekOk {
        SeekToStart();
      }
    }

    /** Takes a reference for a new stopper. */
    method NewStopper() returns (s: ReadStopper)
      requires Valid()
      modifies this
      ensures Valid() && fresh(s) && issued == old(issued) + [s] && s.r == body && held == old(held)
      ensures Snapshot() == WithStopper(old(Snapshot()))
    {
      ghost var before := Snapshot();
      ref := ref + 1;
      s := new ReadStopper(this);
      readStopper := s;
      issued := issued + [s];
      assert States(issued) == before.stoppers + [Open] && Takens(issued) == before.taken + [0];
    }

    /** Reads n bytes through the i'th stopper, or none. */
    method ReadIssued(s: ReadStopper, ghost i: nat, n: nat) returns (eof: bool)
      requires Valid() && i < |issued| && issued[i] == s
      modifies body, s`taken
      ensures Valid() && (eof <==> s.r == null) && States(issued) == old(States(issued))
        && body.closed == old(body.closed)
      ensures body.pos == if eof then old(body.pos) else old(body.pos) + n
      ensures Takens(issued) == if eof then old(Takens(issued)) else old(Takens(issued))[i := old(s.taken) + n]
    {
      eof := s.Read(n);
    }

    /** The HTTP transport reads from the i'th stopper, with no other method in progress. */
    method TransportRead(s: ReadStopper, ghost i: nat, n: nat) returns (eof: bool)
      requires Valid() && i < |issued| && issued[i] == s
      modifies body, s`taken
      ensures Valid() && (eof <==> s.r == null)
      ensures Run(old(Snapshot()), if eof then [ReadEof(i)] else [ReadBegin(i), ReadEnd(i, n)], Snapshot())
    {
      ghost var before := Snapshot();
      assert before.stoppers[i] == StateOf(s) && before.taken[i] == s.taken;
      ghost var after := ReadRun(before, i, n);
      ghost var es := if before.stoppers[i].Released? then [ReadEof(i)] else [ReadBegin(i), ReadEnd(i, n)];
      assert Run(before, es, after);
      eof := ReadIssued(s, i, n);
      assert eof <==> before.stoppers[i].Released?;
      assert Takens(issued) == after.taken && States(issued) == after.stoppers && body.pos == after.pos;
    }

    /** The HTTP transport closes the i'th stopper, with no other method in progress. */
    method TransportClose(s: ReadStopper, ghost i: nat)
      requires Valid() && Inv(Snapshot()) && i < |issued| && issued[i] == s
      modifies this`ref, body, s
      ensures Valid() && Inv(Snapshot()) && s.r == null && body.pos == old(body.pos)
      ensures Run(old(Snapshot()), CloseEvents(old(Snapshot()), i), Snapshot())
    {
      ghost var before := Snapshot();
      ghost var after := CloseRun(before, i);
      assert before.stoppers[i] == StateOf(s);
      CloseIssued(s, i);
      assert before.stoppers[i].Released? ==> before.stoppers[i := Released] == before.stoppers;
      assert Snapshot() == after;
    }

    /** null stands for the error of a failed seek, which happens only from the second attempt on. */
    method Prepare(seekOk: bool) returns (s: ReadStopper?)
      requires Valid() && held && Inv(Snapshot())
      modifies this, body, issued
      ensures Valid() && held
      ensures Reaches(old(Snapshot()), Snapshot())
      ensures s == null <==> old(issued) != [] && !seekOk
      ensures s != null ==> fresh(s) && issued == old(issued) + [s] && s.r == body
      ensures s != null && old(issued) != [] ==> body.pos == 0
      ensures forall t :: t in old(issued) ==> t.r == null
    {
      ghost var after := PrepareRun(Snapshot(), seekOk);
      if readStopper != null {
        Rewind(seekOk);
        if !seekOk {
          return null;
        }
      }
      s := NewStopper();
    }
  }

  /** Inside prepare the client still holds its reference. */
  lemma NotLast(s: System)
    requires Inv(s) && s.held && s.stoppers != []
    ensures LastStopped(s).ref > 0
  {
    HoldingUpdate(s.stoppers, |s.stoppers| - 1, Released);
  }

  /** Closing the last stopper leaves none open. */
  lemma OnlyLastIsOpen(s: System)
    requires StoppersOk(s) && s.stoppers != []
    requires forall i :: 0 <= i < |s.stoppers| ==> s.stoppers[i].Open? || s.stoppers[i].Released?
    ensures LastStopped(s).stoppers == s.stoppers[|s.stoppers| - 1 := Released]
    ensures forall i :: 0 <= i < |s.stoppers| ==> LastStopped(s).stoppers[i].Released?
  {
    assert forall i :: 0 <= i < |s.stoppers| - 1 ==> !s.stoppers[i].Active();
  }

  /** The state without the last stopper's reference, if it has one. */
  function LastStopped(s: System): System {
    var last := |s.stoppers| - 1;
    if s.stoppers == [] || s.stoppers[last].Released? then s
    else s.(stoppers := s.stoppers[last := Released], ref := s.ref - 1)
  }

  /** The state after stopping the last stopper and, if that works, seeking to the start. */
  function Rewound(s: System, seekOk: bool): System {
    var t := LastStopped(s);
    if seekOk then t.(pos := 0) else t
  }

  /** The state with one more stopper. */
  function WithStopper(s: System): System {
    s.(stoppers := s.stoppers + [Open], taken := s.taken + [0], ref := s.ref + 1)
  }

  /** An attempt prepared while no other goroutine touches the request. */
  lemma PrepareRun(s: System, seekOk: bool) returns (t: System)
    requires Inv(s) && s.phase.Idle? && s.held && s.closers == 0
    requires forall i :: 0 <= i < |s.stoppers| ==> s.stoppers[i].Open? || s.stoppers[i].Released?
    ensures Reaches(s, t)
    ensures t == if s.stoppers == [] then WithStopper(s)
                 else if seekOk then WithStopper(Rewound(s, seekOk)) else Rewound(s, seekOk)
  {
    var es;
    if s.stoppers == [] {
      es, t := Extend(s, [], s, Prepare);
    } else {
      HoldingUpdate(s.stoppers, |s.stoppers| - 1, Released);
      es, t := StopRun(s);
      es, t := Extend(s, es, t, if seekOk then SeekOk else SeekFail(s.pos));
    }
    if s.stoppers == [] || seekOk {
      es, t := Extend(s, es, t, Acquire);
      es, t := Extend(s, es, t, Publish);
    }
  }

  lemma StopRun(s: System) returns (es: seq<Event>, t: System)
    requires s.phase.Idle? && s.held && s.stoppers != []
    requires var last := s.stoppers[|s.stoppers| - 1]; last.Released? || (last.Open? && s.ref > 1)
    ensures Run(s, es, t) && t == LastStopped(s).(phase := Seeking)
  {
    es, t := Extend(s, [], s, Prepare);
    es, t := Extend(s, es, t, ClientStop);
    if s.stoppers[|s.stoppers| - 1].Open? {
      es, t := Extend(s, es, t, ClientDec);
    }
  }

  lemma ClientCloseRun(s: System) returns (t: System)
    requires s.phase.Idle? && s.held && s.closers == 0
    ensures Reaches(s, t)
    ensures t == s.(ref := s.ref - 1, held := false, closed := if s.ref == 1 then s.closed + 1 else s.closed)
  {
    var es;
    es, t := Extend(s, [], s, ClientClose);
    if s.ref == 1 {
      es, t := Extend(s, es, t, BodyClose);
    }
  }

  /** A Read of a stopper that is open or released, when no other step happens in between. */
  lemma ReadRun(s: System, i: nat, n: nat) returns (t: System)
    requires i < |s.stoppers| == |s.taken| && (s.stoppers[i].Open? || s.stoppers[i].Released?)
    ensures Run(s, if s.stoppers[i].Released? then [ReadEof(i)] else [ReadBegin(i), ReadEnd(i, n)], t)
    ensures t == if s.stoppers[i].Released? then s else s.(pos := s.pos + n, taken := s.taken[i := s.taken[i] + n])
  {
    var es;
    if s.stoppers[i].Released? {
      es, t := Extend(s, [], s, ReadEof(i));
      assert es == [ReadEof(i)];
    } else {
      es, t := Extend(s, [], s, ReadBegin(i));
      es, t := Extend(s, es, t, ReadEnd(i, n));
      assert es == [ReadBegin(i), ReadEnd(i, n)] && t.stoppers == s.stoppers;
    }
  }

  /** What a Close of the i'th stopper does: only the first gives up a reference, and the last of all closes the
      body. */
  function CloseEvents(s: System, i: nat): seq<Event>
    requires i < |s.stoppers|
  {
    [TransportClose(i)]
      + (if s.stoppers[i].Released? then [] else [TransportDec(i)])
      + (if !s.stoppers[i].Released? && s.ref == 1 then [BodyClose] else [])
  }

  lemma CloseRun(s: System, i: nat) returns (t: System)
    requires Inv(s) && i < |s.stoppers| && s.closers == 0 && (s.stoppers[i].Open? || s.stoppers[i].Released?)
    ensures Run(s, CloseEvents(s, i), t) && Inv(t)
    ensures t == if s.stoppers[i].Released? then s
                 else s.(stoppers := s.stoppers[i := Released], ref := s.ref - 1,
                   closed := if s.ref == 1 then s.closed + 1 else s.closed)
  {
    var es;
    es, t := Extend(s, [], s, TransportClose(i));
    if !s.stoppers[i].Released? {
      es, t := Extend(s, es, t, TransportDec(i));
      if s.ref == 1 {
        es, t := Extend(s, es, t, BodyClose);
      }
    }
    assert es == CloseEvents(s, i);
    RunKeepsInv(s, es, t);
  }

  lemma Extend(s: System, es: seq<Event>, t: System, e: Event) returns (es': seq<Event>, t': System)
    requires Run(s, es, t) && Enabled(t, e)
    ensures Run(s, es', t') && es' == es + [e] && t' == Apply(t, e)
  {
    RunExtend(s, es, t, e);
    es', t' := es + [e], Apply(t, e);
  }

  lemma {:induction false} RunExtend(s: System, es: seq<Event>, t: System, e: Event)
    requires Run(s, es, t) && Enabled(t, e)
    ensures Run(s, es + [e], Apply(t, e))
    decreases |es|
  {
    if es == [] {
      assert [] + [e] == [e] && [e][1..] == [];
    } else {
      RunExtend(Apply(s, es[0]), es[1..], t, e);
      assert (es + [e])[1..] == es[1..] + [e];
    }
  }

  ghost function StateOf(s: ReadStopper): Stopper
    reads s
  {
    if s.r == null then Released else Open
  }

  ghost function States(issued: seq<ReadStopper>): (r: seq<Stopper>)
    reads issued
    ensures |r| == |issued| && forall i :: 0 <= i < |r| ==> r[i] == StateOf(issued[i])
  {
    seq(|issued|, i requires 0 <= i < |issued| reads issued => StateOf(issued[i]))
  }

  ghost function Takens(issued: seq<ReadStopper>): (r: seq<nat>)
    reads issued
    ensures |r| == |issued| && forall i :: 0 <= i < |r| ==> r[i] == issued[i].taken
  {
    seq(|issued|, i requires 0 <= i < |issued| reads issued => issued[i].taken)
  }

  class ReadStopper {
    const rreq: RetryableRequest
    var r: Body?
    /** How much has been read through it. */
    ghost var taken: nat

    constructor (rreq: RetryableRequest)
      ensures this.rreq == rreq && r == rreq.body && taken == 0
    {
      this.rreq, r, taken := rreq, rreq.body, 0;
    }

    /** Reports end of file once the stopper is closed; otherwise it reads n bytes of the body. */
    method Read(n: nat) returns (eof: bool)
      modifies r, `taken
      ensures eof <==> r == null
      ensures !eof ==> r.pos == old(r.pos) + n && r.closed == old(r.closed)
      ensures taken == if eof then old(taken) else old(taken) + n
    {
      if r == null {
        return true;
      }
      r.pos := r.pos + n;
      taken := taken + n;
      return false;
    }

    method Close()
      modifies `r, rreq`ref, rreq.body
      ensures r == null && rreq.body.pos == old(rreq.body.pos)
      ensures old(r) == null ==> rreq.ref == old(rreq.ref) && rreq.body.closed == old(rreq.body.closed)
      ensures old(r) != null ==>
        rreq.ref == old(rreq.ref) - 1 && rreq.body.closed == old(rreq.body.closed) + if rreq.ref == 0 then 1 else 0
    {
      var alreadyClosed := r == null;
      r := null;
      if alreadyClosed {
        return;
      }
      rreq.Close();
    }
  }
}
