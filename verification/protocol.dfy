/**
 Sequences of calls on one controller. A call of close(), sendCommand()
 or switchGripper() before the first connect() dereferences a port that
 was never assigned and ends the sequence with an exception; every other
 call is a step of the controller. Over every such sequence started from
 construction the model shows that at most one port handle is ever live
 when every close inside connect() succeeds, that a failed close lets a
 second handle go live and that no later call releases it, that a
 corrected connect() keeps one handle live at most whatever the port
 answers, and it pins down the alternation of the gripper.
 */
module Protocol {
  import opened Wrappers
  import opened Transport
  import opened RobotArm
  import FixedPoint

  /** One public call on the controller, with the port's answers it depends on. */
  datatype Op =
    | CallConnect(closes: bool, opens: bool, staysOpen: bool)
    | CallClose(closes: bool)
    | CallSendCommand(command: string)
    | CallSwitchGripper
    | CallSetPort(port: string)
    | CallSetCommands(commands: string)
    | CallSetSpeed(speed: int)
    | CallSetAxis(axis: Axis, value: int)

  /** Whether the call uses the port handle itself. */
  predicate UsesPort(op: Op)
  {
    op.CallClose? || op.CallSendCommand? || op.CallSwitchGripper?
  }

  /**
   What each call is seen to do: the events it appends to the trace, what
   becomes of the link, and which setting it changes (the setters change
   only their own field).
   */
  ghost predicate Effect(s: Controller, op: Op, r: Controller)
  {
    match op
    case CallConnect(closes, opens, staysOpen) =>
      && r.trace == s.trace + ConnectEvents(s.IsLive(), closes, s.port, opens, staysOpen)
      && (r.IsLive() <==> opens && staysOpen) && r.link.Assigned?
      && SameSettings(s, r)
    case CallClose(closes) =>
      && r.trace == s.trace + [CloseCallEvent(s.IsLive(), closes)]
      && (r.IsLive() <==> s.IsLive() && !closes) && r.link.Assigned?
      && SameSettings(s, r)
    case CallSendCommand(command) =>
      r.trace == s.trace + [Write(command), Await] && r.link == s.link && SameSettings(s, r)
    case CallSwitchGripper =>
      && r.trace == s.trace + [Write(if s.gripperOpen then GRIPPER[0] else GRIPPER[1]), Await]
      && r.gripperOpen == !s.gripperOpen && r.link == s.link && SameExcept(s, r, Gripper)
    case CallSetPort(port) => r.port == port && OnlyChanged(s, r, Port)
    case CallSetCommands(commands) => r.commands == commands && OnlyChanged(s, r, Commands)
    case CallSetSpeed(speed) => r.speed == speed && OnlyChanged(s, r, Speed)
    case CallSetAxis(axis, value) => AxisOf(r, axis) == value && OnlyChanged(s, r, Position(axis))
  }

  /** One call: None stands for the exception raised by using a never-assigned port. */
  function Step(s: Controller, op: Op): (r: Option<Controller>)
    ensures r.None? <==> UsesPort(op) && s.link.Unassigned?
    ensures r.Some? && !op.CallConnect? && !op.CallClose? ==> r.value.link == s.link
    ensures r.Some? ==> |r.value.trace| >= |s.trace| && r.value.trace[..|s.trace|] == s.trace
    ensures r.Some? ==> r.value.gripperOpen == (s.gripperOpen != op.CallSwitchGripper?)
    ensures r.Some? && op.CallSwitchGripper? ==>
      r.value.trace == s.trace + [Write(if s.gripperOpen then GRIPPER[0] else GRIPPER[1]), Await]
    ensures r.Some? ==> Effect(s, op, r.value)
  {
    match op
    case CallConnect(closes, opens, staysOpen) => Some(Connect(s, closes, opens, staysOpen).1)
    case CallClose(closes) => if s.link.Unassigned? then None else Some(RobotArm.Close(s, closes).1)
    case CallSendCommand(command) => if s.link.Unassigned? then None else Some(SendCommand(s, command))
    case CallSwitchGripper => if s.link.Unassigned? then None else Some(SwitchGripper(s))
    case CallSetPort(port) => Some(SetPort(s, port))
    case CallSetCommands(commands) => Some(SetCommands(s, commands))
    case CallSetSpeed(speed) => Some(SetSpeed(s, speed))
    case CallSetAxis(axis, value) => Some(SetAxis(s, axis, value))
  }

  /** A sequence of calls, stopping at the first exception. */
  function Run(s: Controller, ops: seq<Op>): Option<Controller>
    decreases |ops|
  {
    if |ops| == 0 then Some(s)
    else
      var s' :- Step(s, ops[0]);
      Run(s', ops[1..])
  }

  /** A run of calls with one more call at the end: run the first ones, then step the last. */
  lemma {:induction false} RunSnoc(s: Controller, ops: seq<Op>, op: Op)
    ensures Run(s, ops + [op]) == (if Run(s, ops).Some? then Step(Run(s, ops).value, op) else None)
    decreases |ops|
  {
    if |ops| == 0 {
      assert ops + [op] == [op];
      assert [op][1..] == [];
    } else {
      assert (ops + [op])[0] == ops[0];
      assert (ops + [op])[1..] == ops[1..] + [op];
      if Step(s, ops[0]).Some? {
        RunSnoc(Step(s, ops[0]).value, ops[1..], op);
      }
    }
  }

  /** The number of switchGripper() calls among ops. */
  function SwitchCalls(ops: seq<Op>): (n: nat)
    ensures n <= |ops|
  {
    if |ops| == 0 then 0
    else (if ops[0].CallSwitchGripper? then 1 else 0) + SwitchCalls(ops[1..])
  }

  /** Whether ops holds an odd number of switchGripper() calls. */
  function SwitchOdd(ops: seq<Op>): bool
  {
    if |ops| == 0 then false else ops[0].CallSwitchGripper? != SwitchOdd(ops[1..])
  }

  /** The parity is that of the count of switch calls. */
  lemma {:induction false} SwitchOddParity(ops: seq<Op>)
    ensures SwitchOdd(ops) == (SwitchCalls(ops) % 2 == 1)
    decreases |ops|
  {
    if |ops| > 0 {
      SwitchOddParity(ops[1..]);
    }
  }

  /** Whatever else is called, the gripper flag flips once per switchGripper() call and only then. */
  lemma RunGripperFlag(s: Controller, ops: seq<Op>)
    ensures Run(s, ops).Some? ==>
      Run(s, ops).value.gripperOpen == (s.gripperOpen != (SwitchCalls(ops) % 2 == 1))
  {
    RunFlagOdd(s, ops);
    SwitchOddParity(ops);
  }

  lemma {:induction false} RunFlagOdd(s: Controller, ops: seq<Op>)
    ensures Run(s, ops).Some? ==> Run(s, ops).value.gripperOpen == (s.gripperOpen != SwitchOdd(ops))
    decreases |ops|
  {
    if |ops| > 0 && Step(s, ops[0]).Some? {
      RunFlagOdd(Step(s, ops[0]).value, ops[1..]);
    }
  }

  /**
   From construction, whatever else is called in between, the gripper is
   open exactly when switchGripper() has been called an odd number of times.
   */
  lemma RunGripperFromConstruction(port: string, ops: seq<Op>)
    ensures Run(Init(port), ops).Some? ==> Run(Init(port), ops).value.gripperOpen == (SwitchCalls(ops) % 2 == 1)
  {
    RunGripperFlag(Init(port), ops);
  }

  /**
   From construction, whatever else is called in between: a
   switchGripper() call that follows an even number of earlier ones (the
   1st, 3rd, ...) writes the opening string GRIPPER[1], one that follows
   an odd number writes the closing string GRIPPER[0], each followed by
   a wait.
   */
  lemma RunGripperAlternates(port: string, ops: seq<Op>, i: nat)
    requires i < |ops| && ops[i].CallSwitchGripper?
    ensures Run(Init(port), ops[..i + 1]).Some? ==>
      && Run(Init(port), ops[..i]).Some?
      && Run(Init(port), ops[..i + 1]).value.trace == Run(Init(port), ops[..i]).value.trace
           + [Write(if SwitchCalls(ops[..i]) % 2 == 0 then GRIPPER[1] else GRIPPER[0]), Await]
  {
    SwitchCallWrites(Init(port), ops, i);
  }

  /** The switchGripper() call at position i writes according to the flag the earlier calls left. */
  lemma SwitchCallWrites(s: Controller, ops: seq<Op>, i: nat)
    requires i < |ops| && ops[i].CallSwitchGripper?
    ensures Run(s, ops[..i + 1]).Some? ==>
      && Run(s, ops[..i]).Some?
      && Run(s, ops[..i + 1]).value.trace == Run(s, ops[..i]).value.trace
           + [Write(if s.gripperOpen != (SwitchCalls(ops[..i]) % 2 == 1) then GRIPPER[0] else GRIPPER[1]), Await]
  {
    RunGripperFlag(s, ops[..i]);
    assert ops[..i + 1] == ops[..i] + [ops[i]];
    RunSnoc(s, ops[..i], ops[i]);
  }

  /** The port link and the trace agree: the trace leaves one handle live exactly when the link is live, and never two. */
  ghost predicate LinkInvariant(s: Controller)
  {
    NeverTwoLive(s.trace) && LiveHandles(s.trace) == LiveCount(s)
  }

  /** The number of live handles the controller's link stands for. */
  function LiveCount(s: Controller): nat
  {
    if s.IsLive() then 1 else 0
  }

  lemma InitLinkInvariant(port: string)
    ensures LinkInvariant(Init(port))
  {
  }

  /** A call that appends u to the trace keeps the invariant when replaying u keeps the count right. */
  lemma ExtendKeepsLinkInvariant(s: Controller, r: Controller, u: seq<Event>)
    requires LinkInvariant(s)
    requires r.trace == s.trace + u
    requires StaysSingle(LiveCount(s), u) && Replay(LiveCount(s), u) == LiveCount(r)
    ensures LinkInvariant(r)
  {
    ExtendTrace(s.trace, u);
  }

  /** Writes, waits, failed closes and closes of a port that is not open leave the live count alone. */
  lemma {:induction false} QuietEvents(n: nat, u: seq<Event>)
    requires forall i :: 0 <= i < |u| ==> u[i].Write? || u[i].Await? || u[i].CloseFailed? || u[i].CloseIdle?
    ensures (n <= 1 ==> StaysSingle(n, u)) && Replay(n, u) == n
    decreases |u|
  {
    if |u| > 0 {
      QuietEvents(n, u[1..]);
    }
  }

  /**
   Every call keeps the link invariant, provided a connect() that finds a
   live port manages to close it.
   */
  lemma StepKeepsLinkInvariant(s: Controller, op: Op)
    requires LinkInvariant(s)
    requires Step(s, op).Some?
    requires op.CallConnect? && s.IsLive() ==> op.closes
    ensures LinkInvariant(Step(s, op).value)
  {
    match op
    case CallConnect(closes, opens, staysOpen) =>
      assert Step(s, op).value == Connect(s, closes, opens, staysOpen).1;
      ConnectKeepsLinkInvariant(s, closes, opens, staysOpen);
    case CallClose(closes) =>
      assert Step(s, op).value == RobotArm.Close(s, closes).1;
      CloseKeepsLinkInvariant(s, closes);
    case CallSendCommand(command) =>
      assert Step(s, op).value == SendCommand(s, command);
      SendKeepsLinkInvariant(s, command);
    case CallSwitchGripper =>
      assert Step(s, op).value == SwitchGripper(s);
      SwitchKeepsLinkInvariant(s);
    case _ =>
      assert Step(s, op).value.trace == s.trace && Step(s, op).value.link == s.link;
  }

  lemma ConnectKeepsLinkInvariant(s: Controller, closes: bool, opens: bool, staysOpen: bool)
    requires LinkInvariant(s)
    requires s.IsLive() ==> closes
    ensures LinkInvariant(Connect(s, closes, opens, staysOpen).1)
  {
    ConnectEventsSingle(s.IsLive(), closes, s.port, opens, staysOpen);
    ExtendKeepsLinkInvariant(s, Connect(s, closes, opens, staysOpen).1, ConnectEvents(s.IsLive(), closes, s.port, opens, staysOpen));
  }

  /** close() keeps the invariant whatever closePort() answers. */
  lemma CloseKeepsLinkInvariant(s: Controller, closes: bool)
    requires LinkInvariant(s) && s.link.Assigned?
    ensures LinkInvariant(RobotArm.Close(s, closes).1)
  {
    var u := [CloseCallEvent(s.IsLive(), closes)];
    assert u[1..] == [];
    if !(s.IsLive() && closes) {
      QuietEvents(LiveCount(s), u);
    }
    ExtendKeepsLinkInvariant(s, RobotArm.Close(s, closes).1, u);
  }

  lemma SendKeepsLinkInvariant(s: Controller, command: string)
    requires LinkInvariant(s) && s.link.Assigned?
    ensures LinkInvariant(SendCommand(s, command))
  {
    QuietEvents(LiveCount(s), [Write(command), Await]);
    ExtendKeepsLinkInvariant(s, SendCommand(s, command), [Write(command), Await]);
  }

  lemma SwitchKeepsLinkInvariant(s: Controller)
    requires LinkInvariant(s) && s.link.Assigned?
    ensures LinkInvariant(SwitchGripper(s))
  {
    var w := if s.gripperOpen then GRIPPER[0] else GRIPPER[1];
    QuietEvents(LiveCount(s), [Write(w), Await]);
    ExtendKeepsLinkInvariant(s, SwitchGripper(s), [Write(w), Await]);
  }

  /**
   connect() from one live handle or none never makes two, and leaves one
   exactly on success, when the live handle (if any) closes.
   */
  lemma ConnectEventsSingle(wasLive: bool, closes: bool, name: string, opens: bool, staysOpen: bool)
    requires wasLive ==> closes
    ensures var n := if wasLive then 1 else 0;
      var u := ConnectEvents(wasLive, closes, name, opens, staysOpen);
      StaysSingle(n, u) && Replay(n, u) == (if opens && staysOpen then 1 else 0)
  {
    var u := ConnectEvents(wasLive, closes, name, opens, staysOpen);
    var attempt := AttemptEvents(name, opens, staysOpen);
    AttemptSingle(name, opens, staysOpen);
    if wasLive {
      assert u == [Transport.Close] + attempt;
      assert u[0] == Transport.Close && u[1..] == attempt;
    } else {
      assert u == attempt;
    }
  }

  /** Opening the port from no live handle: at most one, and one left exactly on success. */
  lemma AttemptSingle(name: string, opens: bool, staysOpen: bool)
    ensures var u := AttemptEvents(name, opens, staysOpen);
      StaysSingle(0, u) && Replay(0, u) == (if opens && staysOpen then 1 else 0)
  {
    var u := AttemptEvents(name, opens, staysOpen);
    if !opens {
      assert u[1..] == [];
    } else if !staysOpen {
      assert u[1..] == [Dropped];
      DroppedReleases();
    } else {
      assert u[1..] == [Await, Write(HOMING), Await];
      QuietEvents(1, u[1..]);
    }
  }

  /** A drop releases the one live handle. */
  lemma DroppedReleases()
    ensures StaysSingle(1, [Dropped]) && Replay(1, [Dropped]) == 0
  {
    assert [Dropped][1..] == [];
  }

  /** Every close that a connect() of ops attempts succeeds. */
  predicate ConnectClosesSucceed(ops: seq<Op>)
  {
    forall i :: 0 <= i < |ops| && ops[i].CallConnect? ==> ops[i].closes
  }

  /** Every run of calls whose connect() closes all succeed keeps the link invariant. */
  lemma {:induction false} RunKeepsLinkInvariant(s: Controller, ops: seq<Op>)
    requires LinkInvariant(s)
    requires ConnectClosesSucceed(ops)
    ensures Run(s, ops).Some? ==> LinkInvariant(Run(s, ops).value)
    decreases |ops|
  {
    if |ops| > 0 && Step(s, ops[0]).Some? {
      assert ops[0].CallConnect? ==> ops[0].closes;
      StepKeepsLinkInvariant(s, ops[0]);
      assert forall i :: 0 <= i < |ops[1..]| ==> ops[1..][i] == ops[i + 1];
      RunKeepsLinkInvariant(Step(s, ops[0]).value, ops[1..]);
    }
  }

  /**
   From construction, whatever calls are made and whatever the port
   answers, as long as each close inside connect() succeeds: no point of
   the trace has two port handles live, and a handle is live at the end
   exactly when the controller believes it is connected.
   */
  lemma NeverTwoHandles(port: string, ops: seq<Op>)
    ensures ConnectClosesSucceed(ops) && Run(Init(port), ops).Some? ==>
      var r := Run(Init(port), ops).value;
      && (forall k :: 0 <= k <= |r.trace| ==> LiveHandles(r.trace[..k]) <= 1)
      && (r.IsLive() <==> LiveHandles(r.trace) == 1)
  {
    if ConnectClosesSucceed(ops) {
      InitLinkInvariant(port);
      RunKeepsLinkInvariant(Init(port), ops);
      if Run(Init(port), ops).Some? {
        NeverTwoLivePrefixes(Run(Init(port), ops).value.trace);
      }
    }
  }

  /**
   connect() ignores closePort()'s answer: two connect() calls that both
   open the port, the second finding that the first port will not close,
   leave two handles live.
   */
  lemma TwoHandlesAfterFailedClose(port: string)
    ensures var ops := [CallConnect(true, true, true), CallConnect(false, true, true)];
      && Run(Init(port), ops).Some?
      && LiveHandles(Run(Init(port), ops).value.trace) == 2
  {
    var a := AttemptEvents(port, true, true);
    var b := a + [CloseFailed];
    TwoConnectsTrace(port);
    assert LiveHandles(a) == 1 by {
      AttemptReplay(0, port, true, true);
      ExtendTrace([], a);
      assert [] + a == a;
    }
    assert LiveHandles(b) == 1 by {
      QuietEvents(1, [CloseFailed]);
      ExtendTrace(a, [CloseFailed]);
    }
    assert LiveHandles(b + a) == 2 by {
      AttemptReplay(1, port, true, true);
      ExtendTrace(b, a);
    }
  }

  /** The trace of two successful connect() calls whose second close fails. */
  lemma TwoConnectsTrace(port: string)
    ensures var ops := [CallConnect(true, true, true), CallConnect(false, true, true)];
      var a := AttemptEvents(port, true, true);
      Run(Init(port), ops).Some? && Run(Init(port), ops).value.trace == a + [CloseFailed] + a
  {
    var ops := [CallConnect(true, true, true), CallConnect(false, true, true)];
    var a := AttemptEvents(port, true, true);
    var s1 := Connect(Init(port), true, true, true).1;
    var s2 := Connect(s1, false, true, true).1;
    assert s1.trace == [] + a;
    assert s2.trace == s1.trace + ([CloseFailed] + a);
    assert Step(Init(port), ops[0]) == Some(s1);
    assert Step(s1, ops[1]) == Some(s2);
    assert ops[1..][1..] == [];
    assert Run(s1, ops[1..]) == Run(s2, []);
  }

  /** An attempt to open adds one live handle when it succeeds and none otherwise. */
  lemma AttemptReplay(n: nat, name: string, opens: bool, staysOpen: bool)
    ensures Replay(n, AttemptEvents(name, opens, staysOpen)) == n + (if opens && staysOpen then 1 else 0)
  {
    var a := AttemptEvents(name, opens, staysOpen);
    if !opens {
      assert a[1..] == [];
    } else if !staysOpen {
      assert a[1..] == [Dropped] && [Dropped][1..] == [];
      assert Replay(n + 1, [Dropped]) == Replay(n, []);
    } else {
      assert a[1..] == [Await, Write(HOMING), Await];
      QuietEvents(n + 1, a[1..]);
    }
  }

  /** One connect() from n live handles: the close of a live port (if any), then the attempt. */
  lemma ConnectReplay(n: nat, wasLive: bool, closes: bool, name: string, opens: bool, staysOpen: bool)
    ensures Replay(n, ConnectEvents(wasLive, closes, name, opens, staysOpen))
      == (if wasLive then Count(n, CloseEvent(closes)) else n) + (if opens && staysOpen then 1 else 0)
  {
    var u := ConnectEvents(wasLive, closes, name, opens, staysOpen);
    var attempt := AttemptEvents(name, opens, staysOpen);
    if wasLive {
      assert u == [CloseEvent(closes)] + attempt;
      assert u[0] == CloseEvent(closes) && u[1..] == attempt;
      AttemptReplay(Count(n, CloseEvent(closes)), name, opens, staysOpen);
    } else {
      assert u == attempt;
      AttemptReplay(n, name, opens, staysOpen);
    }
  }

  /**
   The live handles the trace counts beyond the controller's own port:
   handles that no call can reach any more.
   */
  function Leaked(s: Controller): int
  {
    LiveHandles(s.trace) - LiveCount(s)
  }

  /** No call releases a leaked handle: close() and connect() only ever close the controller's own port. */
  lemma StepKeepsLeak(s: Controller, op: Op)
    requires Step(s, op).Some?
    ensures Leaked(Step(s, op).value) >= Leaked(s)
  {
    EffectKeepsLeak(s, op, Step(s, op).value);
  }

  /** The case analysis of StepKeepsLeak, read off each call's effect. */
  lemma EffectKeepsLeak(s: Controller, op: Op, r: Controller)
    requires Effect(s, op, r)
    ensures Leaked(r) >= Leaked(s)
  {
    match op
    case CallConnect(closes, opens, staysOpen) =>
      ConnectKeepsLeak(s, r, closes, opens, staysOpen);
    case CallClose(closes) =>
      CloseKeepsLeak(s, r, closes);
    case CallSendCommand(command) =>
      QuietKeepsLeak(s, r, [Write(command), Await]);
    case CallSwitchGripper =>
      QuietKeepsLeak(s, r, [Write(if s.gripperOpen then GRIPPER[0] else GRIPPER[1]), Await]);
    case _ =>
      assert r.trace == s.trace && r.link == s.link;
  }

  lemma ConnectKeepsLeak(s: Controller, r: Controller, closes: bool, opens: bool, staysOpen: bool)
    requires r.trace == s.trace + ConnectEvents(s.IsLive(), closes, s.port, opens, staysOpen)
    requires r.IsLive() <==> opens && staysOpen
    ensures Leaked(r) >= Leaked(s)
  {
    ConnectReplay(LiveHandles(s.trace), s.IsLive(), closes, s.port, opens, staysOpen);
    ExtendTrace(s.trace, ConnectEvents(s.IsLive(), closes, s.port, opens, staysOpen));
  }

  lemma CloseKeepsLeak(s: Controller, r: Controller, closes: bool)
    requires r.trace == s.trace + [CloseCallEvent(s.IsLive(), closes)]
    requires r.IsLive() <==> s.IsLive() && !closes
    ensures Leaked(r) >= Leaked(s)
  {
    var u := [CloseCallEvent(s.IsLive(), closes)];
    assert u[1..] == [];
    ExtendTrace(s.trace, u);
  }

  lemma QuietKeepsLeak(s: Controller, r: Controller, u: seq<Event>)
    requires forall i :: 0 <= i < |u| ==> u[i].Write? || u[i].Await?
    requires r.trace == s.trace + u && r.link == s.link
    ensures Leaked(r) >= Leaked(s)
  {
    QuietEvents(LiveHandles(s.trace), u);
    ExtendTrace(s.trace, u);
  }

  /** No sequence of calls releases a leaked handle. */
  lemma {:induction false} RunKeepsLeak(s: Controller, ops: seq<Op>)
    ensures Run(s, ops).Some? ==> Leaked(Run(s, ops).value) >= Leaked(s)
    decreases |ops|
  {
    if |ops| > 0 && Step(s, ops[0]).Some? {
      StepKeepsLeak(s, ops[0]);
      RunKeepsLeak(Step(s, ops[0]).value, ops[1..]);
    }
  }

  /** Running two sequences one after the other is running their concatenation. */
  lemma {:induction false} RunAppend(s: Controller, a: seq<Op>, b: seq<Op>)
    ensures Run(s, a + b) == (if Run(s, a).Some? then Run(Run(s, a).value, b) else None)
    decreases |a|
  {
    if |a| == 0 {
      assert a + b == b;
    } else {
      assert (a + b)[0] == a[0];
      assert (a + b)[1..] == a[1..] + b;
      if Step(s, a[0]).Some? {
        RunAppend(Step(s, a[0]).value, a[1..], b);
      }
    }
  }

  /**
   A connect() that finds its live port will not close leaves that port
   live beyond the controller's reach, whatever the new port answers.
   */
  lemma FailedCloseLeaks(s: Controller, opens: bool, staysOpen: bool)
    requires LinkInvariant(s) && s.IsLive()
    ensures Step(s, CallConnect(false, opens, staysOpen)).Some?
    ensures Leaked(Step(s, CallConnect(false, opens, staysOpen)).value) >= 1
  {
    var u := ConnectEvents(true, false, s.port, opens, staysOpen);
    ConnectReplay(1, true, false, s.port, opens, staysOpen);
    ExtendTrace(s.trace, u);
  }

  /**
   The port leaked by a failed close stays open for good: after a
   successful connect() and a second connect() whose close fails, whatever
   the new port answers, whatever calls follow and whatever the port
   answers to them, a handle is live beyond the controller's own, so at
   least one is live.
   */
  lemma LeakNeverReleased(port: string, opens: bool, staysOpen: bool, more: seq<Op>)
    ensures var ops := [CallConnect(true, true, true), CallConnect(false, opens, staysOpen)] + more;
      Run(Init(port), ops).Some? ==>
        var r := Run(Init(port), ops).value;
        LiveHandles(r.trace) >= 1 && LiveHandles(r.trace) >= LiveCount(r) + 1
  {
    var c1, c2 := CallConnect(true, true, true), CallConnect(false, opens, staysOpen);
    var s1 := Step(Init(port), c1).value;
    InitLinkInvariant(port);
    StepKeepsLinkInvariant(Init(port), c1);
    FailedCloseLeaks(s1, opens, staysOpen);
    var s2 := Step(s1, c2).value;
    assert [c1, c2][1..] == [c2] && [c2][1..] == [];
    assert Run(s1, [c2]) == Run(s2, []) == Some(s2);
    assert Run(Init(port), [c1, c2]) == Run(s1, [c2]);
    RunAppend(Init(port), [c1, c2], more);
    RunKeepsLeak(s2, more);
  }

  /**
   With connect() guarded as intended (ConnectGuarded), every call keeps
   the link invariant whatever closePort() answers.
   */
  lemma GuardedConnectKeepsLinkInvariant(s: Controller, closes: bool, opens: bool, staysOpen: bool)
    requires LinkInvariant(s)
    ensures LinkInvariant(ConnectGuarded(s, closes, opens, staysOpen).1)
  {
    if s.IsLive() && !closes {
      QuietEvents(LiveCount(s), [CloseFailed]);
      ExtendKeepsLinkInvariant(s, ConnectGuarded(s, closes, opens, staysOpen).1, [CloseFailed]);
    } else {
      ConnectKeepsLinkInvariant(s, closes, opens, staysOpen);
    }
  }
  /**
   One call with connect() corrected (RobotArm.ConnectGuarded): it agrees
   with Step except when connect() finds a live port that will not close,
   where it only records the failed close.
   */
  function GuardedStep(s: Controller, op: Op): (r: Option<Controller>)
    ensures !(op.CallConnect? && s.IsLive() && !op.closes) ==> r == Step(s, op)
    ensures op.CallConnect? && s.IsLive() && !op.closes ==>
      r == Some(s.(trace := s.trace + [CloseFailed]))
  {
    if op.CallConnect? then Some(ConnectGuarded(s, op.closes, op.opens, op.staysOpen).1)
    else Step(s, op)
  }

  /** A sequence of calls with connect() corrected, stopping at the first exception. */
  function RunGuarded(s: Controller, ops: seq<Op>): Option<Controller>
    decreases |ops|
  {
    if |ops| == 0 then Some(s)
    else
      var s' :- GuardedStep(s, ops[0]);
      RunGuarded(s', ops[1..])
  }

  lemma GuardedStepKeepsLinkInvariant(s: Controller, op: Op)
    requires LinkInvariant(s)
    requires GuardedStep(s, op).Some?
    ensures LinkInvariant(GuardedStep(s, op).value)
  {
    if op.CallConnect? {
      GuardedConnectKeepsLinkInvariant(s, op.closes, op.opens, op.staysOpen);
    } else {
      StepKeepsLinkInvariant(s, op);
    }
  }

  lemma {:induction false} RunGuardedKeepsLinkInvariant(s: Controller, ops: seq<Op>)
    requires LinkInvariant(s)
    ensures RunGuarded(s, ops).Some? ==> LinkInvariant(RunGuarded(s, ops).value)
    decreases |ops|
  {
    if |ops| > 0 && GuardedStep(s, ops[0]).Some? {
      GuardedStepKeepsLinkInvariant(s, ops[0]);
      RunGuardedKeepsLinkInvariant(GuardedStep(s, ops[0]).value, ops[1..]);
    }
  }

  /**
   With connect() corrected, from construction, whatever calls are made
   and whatever the port answers: no point of the trace has two port
   handles live, and a handle is live at the end exactly when the
   controller believes it is connected.
   */
  lemma NeverTwoHandlesGuarded(port: string, ops: seq<Op>)
    ensures RunGuarded(Init(port), ops).Some? ==>
      var r := RunGuarded(Init(port), ops).value;
      && (forall k :: 0 <= k <= |r.trace| ==> LiveHandles(r.trace[..k]) <= 1)
      && (r.IsLive() <==> LiveHandles(r.trace) == 1)
  {
    InitLinkInvariant(port);
    RunGuardedKeepsLinkInvariant(Init(port), ops);
    if RunGuarded(Init(port), ops).Some? {
      NeverTwoLivePrefixes(RunGuarded(Init(port), ops).value.trace);
    }
  }


  /** n calls of switchGripper() in a row. */
  function SwitchTimes(s: Controller, n: nat): (r: Controller)
    requires s.link.Assigned?
    ensures r.link == s.link
    ensures |r.trace| == |s.trace| + 2 * n
    decreases n
  {
    if n == 0 then s else SwitchTimes(SwitchGripper(s), n - 1)
  }

  /**
   The events of n switchGripper() calls starting with the gripper open
   (open) or closed: each call writes GRIPPER[0], the closing string, if
   the gripper is open before it and GRIPPER[1] otherwise, then waits.
   */
  function GripperSchedule(open: bool, n: nat): (t: seq<Event>)
    ensures |t| == 2 * n
    decreases n
  {
    if n == 0 then []
    else [Write(if open then GRIPPER[0] else GRIPPER[1]), Await] + GripperSchedule(!open, n - 1)
  }

  /** Call j (from 0) of the schedule finds the gripper open when j is even for an open start, odd for a closed one. */
  lemma GripperScheduleAt(open: bool, n: nat, j: nat)
    requires j < n
    ensures GripperSchedule(open, n)[2 * j]
      == Write(if open != (j % 2 == 1) then GRIPPER[0] else GRIPPER[1])
  {
    GripperScheduleOdd(open, n, j);
    OddParity(j);
  }

  lemma {:induction false} GripperScheduleOdd(open: bool, n: nat, j: nat)
    requires j < n
    ensures GripperSchedule(open, n)[2 * j] == Write(if open != Odd(j) then GRIPPER[0] else GRIPPER[1])
    decreases n
  {
    if j > 0 {
      GripperScheduleOdd(!open, n - 1, j - 1);
      ScheduleOddStep(open, n, j);
    } else {
      ScheduleHead(open, n);
    }
  }

  /** The inductive step of GripperScheduleOdd: one switch earlier, the flag and the parity both flip. */
  lemma ScheduleOddStep(open: bool, n: nat, j: nat)
    requires 0 < j < n
    requires GripperSchedule(!open, n - 1)[2 * (j - 1)] == Write(if !open != Odd(j - 1) then GRIPPER[0] else GRIPPER[1])
    ensures GripperSchedule(open, n)[2 * j] == Write(if open != Odd(j) then GRIPPER[0] else GRIPPER[1])
  {
    ScheduleStep(open, n, j);
    assert Odd(j) == !Odd(j - 1);
  }

  /** The first call of a schedule writes by the starting flag. */
  lemma ScheduleHead(open: bool, n: nat)
    requires n > 0
    ensures GripperSchedule(open, n)[0] == Write(if open then GRIPPER[0] else GRIPPER[1])
  {
    var w := Write(if open then GRIPPER[0] else GRIPPER[1]);
    assert GripperSchedule(open, n) == [w, Await] + GripperSchedule(!open, n - 1);
  }

  /** Call j of a schedule is call j - 1 of the schedule that starts after the first switch. */
  lemma ScheduleStep(open: bool, n: nat, j: nat)
    requires 0 < j < n
    ensures GripperSchedule(open, n)[2 * j] == GripperSchedule(!open, n - 1)[2 * (j - 1)]
  {
    var w := Write(if open then GRIPPER[0] else GRIPPER[1]);
    var rest := GripperSchedule(!open, n - 1);
    assert GripperSchedule(open, n) == [w, Await] + rest;
    AfterPair(w, Await, rest, 2 * j);
    assert 2 * j - 2 == 2 * (j - 1);
  }

  /** Whether n is odd, counted one step at a time. */
  function Odd(n: nat): bool
  {
    if n == 0 then false else !Odd(n - 1)
  }

  lemma {:induction false} OddParity(n: nat)
    ensures Odd(n) == (n % 2 == 1)
    decreases n
  {
    if n > 0 {
      OddParity(n - 1);
    }
  }

  /** Every call of the schedule is a write followed by a wait. */
  lemma {:induction false} GripperScheduleWaits(open: bool, n: nat, j: nat)
    requires j < n
    ensures GripperSchedule(open, n)[2 * j + 1] == Await
    decreases n
  {
    var w := Write(if open then GRIPPER[0] else GRIPPER[1]);
    var rest := GripperSchedule(!open, n - 1);
    assert GripperSchedule(open, n) == [w, Await] + rest;
    if j > 0 {
      GripperScheduleWaits(!open, n - 1, j - 1);
      AfterPair(w, Await, rest, 2 * j + 1);
    }
  }

  /**
   Starting closed, the k-th switch of a schedule writes GRIPPER[1] when
   k is odd and GRIPPER[0] when k is even, and is followed by a wait.
   */
  lemma ScheduleFromClosed(n: nat, k: nat)
    requires 1 <= k <= n
    ensures GripperSchedule(false, n)[2 * (k - 1)] == Write(GRIPPER[1]) <==> k % 2 == 1
    ensures GripperSchedule(false, n)[2 * (k - 1)] == Write(GRIPPER[0]) <==> k % 2 == 0
    ensures GripperSchedule(false, n)[2 * (k - 1) + 1] == Await
  {
    SwitchWriteFromClosed(n, k);
    GripperScheduleWaits(false, n, k - 1);
  }

  /** The write half of ScheduleFromClosed. */
  lemma SwitchWriteFromClosed(n: nat, k: nat)
    requires 1 <= k <= n
    ensures GripperSchedule(false, n)[2 * (k - 1)] == Write(GRIPPER[1]) <==> k % 2 == 1
    ensures GripperSchedule(false, n)[2 * (k - 1)] == Write(GRIPPER[0]) <==> k % 2 == 0
  {
    GripperScheduleAt(false, n, k - 1);
    SwitchByParity(k, GripperSchedule(false, n));
  }

  /** The write of the k-th switch from a closed gripper, told apart by the parity of k. */
  lemma SwitchByParity(k: nat, g: seq<Event>)
    requires 1 <= k && 2 * (k - 1) + 1 < |g|
    requires g[2 * (k - 1)] == Write(if false != ((k - 1) % 2 == 1) then GRIPPER[0] else GRIPPER[1])
    ensures (g[2 * (k - 1)] == Write(GRIPPER[1]) <==> k % 2 == 1)
    ensures (g[2 * (k - 1)] == Write(GRIPPER[0]) <==> k % 2 == 0)
  {
    ParityStep(k);
    assert |GRIPPER[0]| != |GRIPPER[1]|;
  }

  /** After n switches the flag has flipped n times and the trace follows the schedule. */
  lemma SwitchTimesEffect(s: Controller, n: nat)
    requires s.link.Assigned?
    ensures SwitchTimes(s, n).gripperOpen == (s.gripperOpen != (n % 2 == 1))
    ensures SwitchTimes(s, n).trace == s.trace + GripperSchedule(s.gripperOpen, n)
  {
    SwitchTimesFlag(s, n);
    SwitchTimesTrace(s, n);
  }

  lemma SwitchTimesFlag(s: Controller, n: nat)
    requires s.link.Assigned?
    ensures SwitchTimes(s, n).gripperOpen == (s.gripperOpen != (n % 2 == 1))
  {
    SwitchTimesOdd(s, n);
    OddParity(n);
  }

  lemma {:induction false} SwitchTimesOdd(s: Controller, n: nat)
    requires s.link.Assigned?
    ensures SwitchTimes(s, n).gripperOpen == (s.gripperOpen != Odd(n))
    decreases n
  {
    if n > 0 {
      var s' := SwitchGripper(s);
      assert SwitchTimes(s, n) == SwitchTimes(s', n - 1);
      SwitchTimesOdd(s', n - 1);
    }
  }

  lemma {:induction false} SwitchTimesTrace(s: Controller, n: nat)
    requires s.link.Assigned?
    ensures SwitchTimes(s, n).trace == s.trace + GripperSchedule(s.gripperOpen, n)
    decreases n
  {
    if n > 0 {
      var s' := SwitchGripper(s);
      SwitchTimesTrace(s', n - 1);
      ScheduleAppend(s.trace, s.gripperOpen, s'.gripperOpen, n, s'.trace, SwitchTimes(s', n - 1).trace);
      assert SwitchTimes(s, n) == SwitchTimes(s', n - 1);
    }
  }

  /** A trace that grows by one switch and then by the rest of the schedule grows by the whole schedule. */
  lemma ScheduleAppend(t0: seq<Event>, open: bool, flipped: bool, n: nat, t1: seq<Event>, t: seq<Event>)
    requires n > 0 && flipped == !open
    requires t1 == t0 + [Write(if open then GRIPPER[0] else GRIPPER[1]), Await]
    requires t == t1 + GripperSchedule(flipped, n - 1)
    ensures t == t0 + GripperSchedule(open, n)
  {
    var w := Write(if open then GRIPPER[0] else GRIPPER[1]);
    assert GripperSchedule(open, n) == [w, Await] + GripperSchedule(!open, n - 1);
    AppendAssociates(t0, [w, Await], GripperSchedule(!open, n - 1));
  }

  lemma AppendAssociates(a: seq<Event>, b: seq<Event>, c: seq<Event>)
    ensures (a + b) + c == a + (b + c)
  {
  }

  /** Parity flips from one number to the next. */
  lemma ParityStep(n: nat)
    requires n > 0
    ensures (n % 2 == 1) == !((n - 1) % 2 == 1)
  {
  }

  /** Switching the gripper any number of times leaves every other setting alone. */
  lemma {:induction false} SwitchTimesSettings(s: Controller, n: nat)
    requires s.link.Assigned?
    ensures SameExcept(s, SwitchTimes(s, n), Gripper)
    decreases n
  {
    if n > 0 {
      SwitchTimesSettings(SwitchGripper(s), n - 1);
      SameExceptTransitive(s, SwitchGripper(s), SwitchTimes(s, n), Gripper);
    }
  }

  /**
   Starting with the gripper closed, as after construction: after n calls
   of switchGripper() the flag is "n is odd", and the k-th call writes
   the opening string GRIPPER[1] exactly when k is odd, the closing
   string GRIPPER[0] otherwise, each followed by a wait.
   */
  lemma GripperAlternates(s: Controller, n: nat, k: nat)
    requires s.link.Assigned? && !s.gripperOpen
    requires 1 <= k <= n
    ensures var r := SwitchTimes(s, n);
      && r.gripperOpen == (n % 2 == 1)
      && (r.trace[|s.trace| + 2 * (k - 1)] == Write(GRIPPER[1]) <==> k % 2 == 1)
      && (r.trace[|s.trace| + 2 * (k - 1)] == Write(GRIPPER[0]) <==> k % 2 == 0)
      && r.trace[|s.trace| + 2 * (k - 1) + 1] == Await
  {
    SwitchTimesEffect(s, n);
    ScheduleFromClosed(n, k);
    var g := GripperSchedule(false, n);
    AfterPrefix(s.trace, g, 2 * (k - 1));
    AfterPrefix(s.trace, g, 2 * (k - 1) + 1);
  }

  /** Construction leaves the gripper closed, and any connect() assigns the port and keeps it closed. */
  lemma ConnectedFromConstruction(port: string, closes: bool, opens: bool, staysOpen: bool)
    ensures var s := Connect(Init(port), closes, opens, staysOpen).1;
      s.link.Assigned? && !s.gripperOpen
  {
  }

  /** With the default speed, formatting the initial pose under "G90 G01" gives INITPOSITION. */
  lemma InitPositionFormatted(port: string)
    ensures FormatterAt(Init(port), "G90 G01", 10500, 2500, -5500, 17000, 3000, 0) == INITPOSITION
  {
    var l := GCode.Line("G90 G01", 10500, 2500, -5500, 17000, 3000, 0, DEFAULT_SPEED);
    assert FormatterAt(Init(port), "G90 G01", 10500, 2500, -5500, 17000, 3000, 0) == GCode.Render(l);
    InitPositionRender(l);
  }

  lemma InitPositionRender(l: GCode.Line)
    requires l == GCode.Line("G90 G01", 10500, 2500, -5500, 17000, 3000, 0, DEFAULT_SPEED)
    ensures GCode.Render(l) == INITPOSITION
  {
    GCode.RenderSpelled(l);
    InitPositionFields();
    InitPositionPieces();
  }

  lemma InitPositionPieces()
    ensures "G90 G01" + (" X105.00" + " Y25.00" + " Z-55.00" + " A170.00"
      + " B30.00" + " C0.00" + " F2000.00") + "\r\n" == INITPOSITION
  {
    PrefixRegroups("G90 G01", " X105.00", " Y25.00", " Z-55.00", " A170.00", " B30.00", " C0.00", " F2000.00");
    InitPositionHead();
    InitPositionTail();
  }

  /** The first three fields appended to the prefix, one at a time. */
  lemma InitPositionHead()
    ensures "G90 G01" + " X105.00" + " Y25.00" + " Z-55.00" == "G90 G01 X105.00 Y25.00 Z-55.00"
  {
    assert "G90 G01" + " X105.00" == "G90 G01 X105.00";
    assert "G90 G01 X105.00" + " Y25.00" == "G90 G01 X105.00 Y25.00";
    assert "G90 G01 X105.00 Y25.00" + " Z-55.00" == "G90 G01 X105.00 Y25.00 Z-55.00";
  }

  /** The last four fields and CRLF appended, one at a time. */
  lemma InitPositionTail()
    ensures "G90 G01 X105.00 Y25.00 Z-55.00" + " A170.00" + " B30.00" + " C0.00" + " F2000.00" + "\r\n" == INITPOSITION
  {
    assert "G90 G01 X105.00 Y25.00 Z-55.00" + " A170.00" == "G90 G01 X105.00 Y25.00 Z-55.00 A170.00";
    assert "G90 G01 X105.00 Y25.00 Z-55.00 A170.00" + " B30.00"
      == "G90 G01 X105.00 Y25.00 Z-55.00 A170.00 B30.00";
    assert "G90 G01 X105.00 Y25.00 Z-55.00 A170.00 B30.00" + " C0.00"
      == "G90 G01 X105.00 Y25.00 Z-55.00 A170.00 B30.00 C0.00";
    assert "G90 G01 X105.00 Y25.00 Z-55.00 A170.00 B30.00 C0.00" + " F2000.00"
      == "G90 G01 X105.00 Y25.00 Z-55.00 A170.00 B30.00 C0.00 F2000.00";
  }

  lemma PrefixRegroups(p: string, a: string, b: string, c: string, d: string, e: string, f: string, g: string)
    ensures p + (a + b + c + d + e + f + g) == p + a + b + c + d + e + f + g
  {
  }

  lemma InitPositionFields()
    ensures GCode.Field('X', 10500) == " X105.00"
    ensures GCode.Field('Y', 2500) == " Y25.00"
    ensures GCode.Field('Z', -5500) == " Z-55.00"
    ensures GCode.Field('A', 17000) == " A170.00"
    ensures GCode.Field('B', 3000) == " B30.00"
    ensures GCode.Field('C', 0) == " C0.00"
    ensures GCode.Field('F', DEFAULT_SPEED) == " F2000.00"
  {
    FieldX();
    FieldY();
    FieldZ();
    FieldA();
    FieldB();
    FieldC();
    FieldF();
  }

  lemma FieldX()
    ensures GCode.Field('X', 10500) == " X105.00"
  {
    Digits105();
    FixedPoint.Fixed2Whole(105, "105");
    assert FixedPoint.Fixed2(10500) == "105.00";
  }

  lemma FieldY()
    ensures GCode.Field('Y', 2500) == " Y25.00"
  {
    Digits25();
    FixedPoint.Fixed2Whole(25, "25");
  }

  lemma FieldZ()
    ensures GCode.Field('Z', -5500) == " Z-55.00"
  {
    Digits55();
    FixedPoint.Fixed2Whole(55, "55");
    FixedPoint.Fixed2Negative(-5500, 5500);
  }

  lemma FieldA()
    ensures GCode.Field('A', 17000) == " A170.00"
  {
    Digits170();
    FixedPoint.Fixed2Whole(170, "170");
    assert FixedPoint.Fixed2(17000) == "170.00";
  }

  lemma FieldB()
    ensures GCode.Field('B', 3000) == " B30.00"
  {
    Digits30();
    FixedPoint.Fixed2Whole(30, "30");
  }

  lemma FieldC()
    ensures GCode.Field('C', 0) == " C0.00"
  {
    FixedPoint.Fixed2Whole(0, "0");
  }

  lemma FieldF()
    ensures GCode.Field('F', DEFAULT_SPEED) == " F2000.00"
  {
    Digits2000();
    FixedPoint.Fixed2Whole(2000, "2000");
    assert FixedPoint.Fixed2(200000) == "2000.00";
  }

  lemma Digits105()
    ensures FixedPoint.Digits(105) == "105"
  {
    FixedPoint.DigitsSnoc(1, 0);
    FixedPoint.DigitsSnoc(10, 5);
  }

  lemma Digits25()
    ensures FixedPoint.Digits(25) == "25"
  {
    FixedPoint.DigitsSnoc(2, 5);
  }

  lemma Digits55()
    ensures FixedPoint.Digits(55) == "55"
  {
    FixedPoint.DigitsSnoc(5, 5);
  }

  lemma Digits170()
    ensures FixedPoint.Digits(170) == "170"
  {
    FixedPoint.DigitsSnoc(1, 7);
    FixedPoint.DigitsSnoc(17, 0);
  }

  lemma Digits30()
    ensures FixedPoint.Digits(30) == "30"
  {
    FixedPoint.DigitsSnoc(3, 0);
  }

  lemma Digits2000()
    ensures FixedPoint.Digits(2000) == "2000"
  {
    FixedPoint.DigitsSnoc(2, 0);
    FixedPoint.DigitsSnoc(20, 0);
    FixedPoint.DigitsSnoc(200, 0);
  }
}
