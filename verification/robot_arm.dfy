/**
 The robot arm controller: its protocol constants, its state record, and
 one pure step function per public operation. A step takes the state and
 returns the new state, whose trace has the operation's transport events
 appended. What the port does that the controller cannot see (whether
 closing succeeds, whether opening succeeds, whether the port is still
 open after set-up) is a parameter of the step.

 Axis values and the speed are fixed-point numbers of hundredths (see
 FixedPoint), so a speed of 2000.0 is 200000.
 */
module RobotArm {
  import opened Wrappers
  import opened Transport
  import GCode

  const HOMING: string := "$h\r\n"
  const SINGLEMOVING: string := "$HH\r\n"
  const RESET: string := "!\r\n"
  const INITPOSITION: string := "G90 G01 X105.00 Y25.00 Z-55.00 A170.00 B30.00 C0.00 F2000.00\r\n"
  const ZEROPOSITION: string := "M21G90G01X0Y0Z0A0B0C0\r\n"

  /** GRIPPER[0] is sent to close an open gripper, GRIPPER[1] to open a closed one. */
  const GRIPPER: seq<string> := ["M3S1000M4E65\r\n", "M3S0M4E40\r\n"]

  const DEFAULT_SPEED: int := 200000
  const DEFAULT_COMMANDS: string := "G90 G01"

  /** The serial port handle: never assigned before the first connect, then live or not. */
  datatype Link = Unassigned | Assigned(live: bool)

  datatype Axis = X | Y | Z | A | B | C

  /** The controller's fields plus the trace of everything done to the port. */
  datatype Controller = Controller(
    port: string,
    x: int, y: int, z: int, a: int, b: int, c: int,
    speed: int,
    gripperOpen: bool,
    link: Link,
    commands: string,
    trace: seq<Event>)
  {
    predicate IsLive() {
      link == Assigned(true)
    }
  }

  function AxisOf(s: Controller, ax: Axis): int
  {
    match ax
    case X => s.x
    case Y => s.y
    case Z => s.z
    case A => s.a
    case B => s.b
    case C => s.c
  }

  /** The state fields a caller can set, one per setter. */
  datatype Field = Port | Commands | Speed | Gripper | Position(axis: Axis)

  predicate FieldAgrees(s: Controller, r: Controller, f: Field)
  {
    match f
    case Port => r.port == s.port
    case Commands => r.commands == s.commands
    case Speed => r.speed == s.speed
    case Gripper => r.gripperOpen == s.gripperOpen
    case Position(ax) => AxisOf(r, ax) == AxisOf(s, ax)
  }

  /** Every settable field other than f is equal in s and r. */
  ghost predicate SameExcept(s: Controller, r: Controller, f: Field)
  {
    forall g :: g != f ==> FieldAgrees(s, r, g)
  }

  lemma SameExceptTransitive(s: Controller, p: Controller, r: Controller, f: Field)
    requires SameExcept(s, p, f) && SameExcept(p, r, f)
    ensures SameExcept(s, r, f)
  {
    forall g | g != f
      ensures FieldAgrees(s, r, g)
    {
      assert FieldAgrees(s, p, g) && FieldAgrees(p, r, g);
    }
  }

  /** r differs from s at most in field f: the port link and trace are untouched too. */
  ghost predicate OnlyChanged(s: Controller, r: Controller, f: Field)
  {
    SameExcept(s, r, f) && r.link == s.link && r.trace == s.trace
  }

  /** Axes, speed, command prefix, gripper flag and port name are all equal. */
  predicate SameSettings(s: Controller, r: Controller)
  {
    && r.port == s.port && r.commands == s.commands && r.speed == s.speed
    && r.gripperOpen == s.gripperOpen
    && r.x == s.x && r.y == s.y && r.z == s.z && r.a == s.a && r.b == s.b && r.c == s.c
  }

  /** A new controller bound to the named port: nothing is opened yet. */
  function Init(port: string): (r: Controller)
    ensures r.port == port && !r.gripperOpen && r.link == Unassigned && r.trace == []
    ensures forall ax :: AxisOf(r, ax) == 0
    ensures r.speed == DEFAULT_SPEED && r.commands == DEFAULT_COMMANDS
  {
    Controller(port, 0, 0, 0, 0, 0, 0, DEFAULT_SPEED, false, Unassigned, DEFAULT_COMMANDS, [])
  }

  /** The event of closing the current port, by whether closePort() succeeds. */
  function CloseEvent(closes: bool): Event
  {
    if closes then Transport.Close else CloseFailed
  }

  /**
   The event of one close() call: closing the controller's live port
   succeeds or fails; a port that is not open has nothing to release,
   whatever closePort() answers.
   */
  function CloseCallEvent(wasLive: bool, closes: bool): Event
  {
    if wasLive then CloseEvent(closes) else CloseIdle
  }

  /**
   close(): closes the controller's own port and returns closePort()'s
   answer, closes. A live port that closes is no longer live; one that
   fails to close stays as it was; a port that is not open releases
   nothing. A port never assigned is the caller's error.
   */
  function Close(s: Controller, closes: bool): (r: (bool, Controller))
    requires s.link.Assigned?
    ensures r.0 == closes
    ensures closes ==> !r.1.IsLive() && r.1.link.Assigned?
    ensures !closes ==> r.1.link == s.link
    ensures !s.IsLive() ==> r.1.link == s.link && r.1.trace == s.trace + [CloseIdle]
    ensures s.IsLive() ==> r.1.trace == s.trace + [CloseEvent(closes)]
    ensures SameSettings(s, r.1)
  {
    var released := s.IsLive() && closes;
    (closes, s.(link := if released then Assigned(false) else s.link, trace := s.trace + [CloseCallEvent(s.IsLive(), closes)]))
  }

  /** sendCommand(command): one write of the command, then one wait for the device. */
  function SendCommand(s: Controller, command: string): (r: Controller)
    requires s.link.Assigned?
    ensures r.trace == s.trace + [Write(command), Await]
    ensures Writes(r.trace) == Writes(s.trace) + [command]
    ensures SameSettings(s, r) && r.link == s.link
  {
    WritesAppend(s.trace, [Write(command), Await]);
    s.(trace := s.trace + [Write(command), Await])
  }

  /**
   The events of connect()'s attempt to open the port named name: the
   open fails, or it opens a port that reports itself closed after
   set-up, or it opens, waits for the device and sends HOMING (as one
   sendCommand: a write and a wait).
   */
  function AttemptEvents(name: string, opens: bool, staysOpen: bool): (t: seq<Event>)
    ensures |t| >= 1
  {
    if !opens then [OpenFailed(name)]
    else if !staysOpen then [Open(name), Dropped]
    else [Open(name), Await, Write(HOMING), Await]
  }

  /**
   The events of one connect(): when a port was live, the attempt to
   close it (whose answer connect() ignores), then the attempt to open.
   */
  function ConnectEvents(wasLive: bool, closes: bool, name: string, opens: bool, staysOpen: bool): (t: seq<Event>)
    ensures |t| >= 1
  {
    var closing: seq<Event> := if wasLive then [CloseEvent(closes)] else [];
    closing + AttemptEvents(name, opens, staysOpen)
  }

  /**
   connect(): closes a live port (closes is closePort()'s answer, which
   connect() does not look at), then opens the named port, and when it
   is open (opens) and still open after set-up (staysOpen) waits for the
   device and sends HOMING. Returns whether the new port is connected.
   */
  function Connect(s: Controller, closes: bool, opens: bool, staysOpen: bool): (r: (bool, Controller))
    ensures r.0 <==> opens && staysOpen
    ensures r.1.IsLive() <==> r.0
    ensures r.1.link.Assigned?
    ensures SameSettings(s, r.1)
    ensures r.1.trace == s.trace + ConnectEvents(s.IsLive(), closes, s.port, opens, staysOpen)
  {
    var ok := opens && staysOpen;
    (ok, s.(link := Assigned(ok), trace := s.trace + ConnectEvents(s.IsLive(), closes, s.port, opens, staysOpen)))
  }

  /**
   connect() as its closing step evidently intends: when the live port
   fails to close, it keeps that port and reports failure instead of
   opening a second one.
   */
  function ConnectGuarded(s: Controller, closes: bool, opens: bool, staysOpen: bool): (r: (bool, Controller))
    ensures r.0 <==> (!s.IsLive() || closes) && opens && staysOpen
    ensures s.IsLive() && !closes ==> r.1.link == s.link && r.1.trace == s.trace + [CloseFailed]
    ensures !s.IsLive() || closes ==> r == Connect(s, closes, opens, staysOpen)
    ensures SameSettings(s, r.1)
  {
    if s.IsLive() && !closes then (false, s.(trace := s.trace + [CloseFailed]))
    else Connect(s, closes, opens, staysOpen)
  }

  /**
   What connect() does to the port: HOMING is its only write and is sent
   exactly when it reports success; a live port is closed first and only
   then; a failed open is the last event; a success ends with the open,
   a wait, HOMING and a wait, in that order.
   */
  lemma ConnectProtocol(s: Controller, closes: bool, opens: bool, staysOpen: bool)
    ensures var r := Connect(s, closes, opens, staysOpen);
      && |r.1.trace| > |s.trace| && r.1.trace[..|s.trace|] == s.trace
      && Writes(r.1.trace) == Writes(s.trace) + (if r.0 then [HOMING] else [])
      && ((r.1.trace[|s.trace|] == CloseEvent(closes)) <==> s.IsLive())
      && (!opens ==> r.1.trace[|r.1.trace| - 1] == OpenFailed(s.port))
      && (r.0 ==> |r.1.trace| >= |s.trace| + 4
                  && r.1.trace[|r.1.trace| - 4..] == [Open(s.port), Await, Write(HOMING), Await])
  {
    ConnectTraceWrites(s, closes, opens, staysOpen);
    ConnectTraceStart(s, closes, opens, staysOpen);
    ConnectFailedOpenLast(s, closes, opens, staysOpen);
    ConnectSucceededLast(s, closes, opens, staysOpen);
  }

  lemma ConnectTraceWrites(s: Controller, closes: bool, opens: bool, staysOpen: bool)
    ensures var r := Connect(s, closes, opens, staysOpen);
      Writes(r.1.trace) == Writes(s.trace) + (if r.0 then [HOMING] else [])
  {
    var t := ConnectEvents(s.IsLive(), closes, s.port, opens, staysOpen);
    ConnectEventsWrites(s.IsLive(), closes, s.port, opens, staysOpen);
    WritesAppend(s.trace, t);
  }

  lemma ConnectTraceStart(s: Controller, closes: bool, opens: bool, staysOpen: bool)
    ensures var r := Connect(s, closes, opens, staysOpen);
      && |r.1.trace| > |s.trace| && r.1.trace[..|s.trace|] == s.trace
      && ((r.1.trace[|s.trace|] == CloseEvent(closes)) <==> s.IsLive())
  {
    var t := ConnectEvents(s.IsLive(), closes, s.port, opens, staysOpen);
    assert Connect(s, closes, opens, staysOpen).1.trace == s.trace + t;
    ConnectEventsShape(s.IsLive(), closes, s.port, opens, staysOpen);
    AppendEnds(s.trace, t);
  }

  lemma ConnectFailedOpenLast(s: Controller, closes: bool, opens: bool, staysOpen: bool)
    ensures var r := Connect(s, closes, opens, staysOpen);
      !opens ==> r.1.trace[|r.1.trace| - 1] == OpenFailed(s.port)
  {
    var t := ConnectEvents(s.IsLive(), closes, s.port, opens, staysOpen);
    assert Connect(s, closes, opens, staysOpen).1.trace == s.trace + t;
    ConnectEventsShape(s.IsLive(), closes, s.port, opens, staysOpen);
    AppendEnds(s.trace, t);
  }

  lemma ConnectSucceededLast(s: Controller, closes: bool, opens: bool, staysOpen: bool)
    ensures var r := Connect(s, closes, opens, staysOpen);
      r.0 ==> |r.1.trace| >= |s.trace| + 4
              && r.1.trace[|r.1.trace| - 4..] == [Open(s.port), Await, Write(HOMING), Await]
  {
    var t := ConnectEvents(s.IsLive(), closes, s.port, opens, staysOpen);
    assert Connect(s, closes, opens, staysOpen).1.trace == s.trace + t;
    ConnectEventsShape(s.IsLive(), closes, s.port, opens, staysOpen);
    AppendEnds(s.trace, t);
  }

  /** The first and last events of one connect(). */
  lemma ConnectEventsShape(wasLive: bool, closes: bool, name: string, opens: bool, staysOpen: bool)
    ensures var t := ConnectEvents(wasLive, closes, name, opens, staysOpen);
      && ((t[0] == CloseEvent(closes)) <==> wasLive)
      && (!opens ==> t[|t| - 1] == OpenFailed(name))
      && (opens && staysOpen ==> |t| >= 4 && t[|t| - 4..] == [Open(name), Await, Write(HOMING), Await])
  {
    var attempt := AttemptEvents(name, opens, staysOpen);
    if wasLive {
      assert ConnectEvents(wasLive, closes, name, opens, staysOpen) == [CloseEvent(closes)] + attempt;
    } else {
      assert ConnectEvents(wasLive, closes, name, opens, staysOpen) == attempt;
    }
  }

  lemma ConnectEventsWrites(wasLive: bool, closes: bool, name: string, opens: bool, staysOpen: bool)
    ensures Writes(ConnectEvents(wasLive, closes, name, opens, staysOpen)) == (if opens && staysOpen then [HOMING] else [])
  {
    var closing: seq<Event> := if wasLive then [CloseEvent(closes)] else [];
    var attempt := AttemptEvents(name, opens, staysOpen);
    WritesAppend(closing, attempt);
    WritesNone(closing);
    if opens && staysOpen {
      assert attempt == [Open(name), Await] + [Write(HOMING)] + [Await];
      WritesAppend([Open(name), Await] + [Write(HOMING)], [Await]);
      WritesAppend([Open(name), Await], [Write(HOMING)]);
      WritesNone([Open(name), Await]);
      WritesNone([Await]);
    } else {
      WritesNone(attempt);
    }
  }

  /** switchGripper(): sends the string that flips the gripper, then flips the flag. */
  function SwitchGripper(s: Controller): (r: Controller)
    requires s.link.Assigned?
    ensures r.gripperOpen == !s.gripperOpen
    ensures r.trace == s.trace + [Write(if s.gripperOpen then GRIPPER[0] else GRIPPER[1]), Await]
    ensures SameExcept(s, r, Gripper) && r.link == s.link
  {
    var cmd := if s.gripperOpen then GRIPPER[0] else GRIPPER[1];
    SendCommand(s, cmd).(gripperOpen := !s.gripperOpen)
  }

  /**
   formatter(gCodeCommand, axisX, ..., axisC): the prefix, then the
   explicit values and the stored speed, each as a space, its letter and
   its value in hundredths with two decimals, then CRLF.
   */
  function FormatterAt(s: Controller, command: string, x: int, y: int, z: int, a: int, b: int, c: int): (r: string)
    ensures r == command + (GCode.Field('X', x) + GCode.Field('Y', y) + GCode.Field('Z', z)
      + GCode.Field('A', a) + GCode.Field('B', b) + GCode.Field('C', c) + GCode.Field('F', s.speed)) + GCode.CRLF
    ensures GCode.Parse(r) == Some(GCode.Line(command, x, y, z, a, b, c, s.speed))
  {
    var l := GCode.Line(command, x, y, z, a, b, c, s.speed);
    GCode.RenderSpelled(l);
    GCode.ParseRender(l);
    GCode.Render(l)
  }

  /** formatter(gCodeCommand): the stored axes and speed under the given prefix. */
  function FormatterWith(s: Controller, command: string): (r: string)
    ensures r == command + (GCode.Field('X', s.x) + GCode.Field('Y', s.y) + GCode.Field('Z', s.z)
      + GCode.Field('A', s.a) + GCode.Field('B', s.b) + GCode.Field('C', s.c) + GCode.Field('F', s.speed)) + GCode.CRLF
    ensures GCode.Parse(r) == Some(GCode.Line(command, s.x, s.y, s.z, s.a, s.b, s.c, s.speed))
  {
    var l := GCode.Line(command, s.x, s.y, s.z, s.a, s.b, s.c, s.speed);
    GCode.RenderSpelled(l);
    GCode.ParseRender(l);
    GCode.Render(l)
  }

  /** formatter(): the whole stored state as one motion line under the stored prefix. */
  function Formatter(s: Controller): (r: string)
    ensures r == s.commands + (GCode.Field('X', s.x) + GCode.Field('Y', s.y) + GCode.Field('Z', s.z)
      + GCode.Field('A', s.a) + GCode.Field('B', s.b) + GCode.Field('C', s.c) + GCode.Field('F', s.speed)) + GCode.CRLF
    ensures GCode.Parse(r) == Some(GCode.Line(s.commands, s.x, s.y, s.z, s.a, s.b, s.c, s.speed))
  {
    var l := GCode.Line(s.commands, s.x, s.y, s.z, s.a, s.b, s.c, s.speed);
    GCode.RenderSpelled(l);
    GCode.ParseRender(l);
    GCode.Render(l)
  }

  /**
   The three formatter overloads agree: formatter() is formatter(commands),
   and formatter(command) is the explicit form at the stored axes.
   */
  lemma FormattersAgree(s: Controller, command: string)
    ensures FormatterWith(s, command) == FormatterAt(s, command, s.x, s.y, s.z, s.a, s.b, s.c)
    ensures Formatter(s) == FormatterWith(s, s.commands)
  {
  }

  function SetPort(s: Controller, port: string): (r: Controller)
    ensures r.port == port && OnlyChanged(s, r, Port)
  {
    s.(port := port)
  }

  function SetCommands(s: Controller, commands: string): (r: Controller)
    ensures r.commands == commands && OnlyChanged(s, r, Commands)
  {
    s.(commands := commands)
  }

  function SetSpeed(s: Controller, speed: int): (r: Controller)
    ensures r.speed == speed && OnlyChanged(s, r, Speed)
  {
    s.(speed := speed)
  }

  function SetAxisX(s: Controller, v: int): (r: Controller)
    ensures AxisOf(r, X) == v && OnlyChanged(s, r, Position(X))
  {
    s.(x := v)
  }

  function SetAxisY(s: Controller, v: int): (r: Controller)
    ensures AxisOf(r, Y) == v && OnlyChanged(s, r, Position(Y))
  {
    s.(y := v)
  }

  function SetAxisZ(s: Controller, v: int): (r: Controller)
    ensures AxisOf(r, Z) == v && OnlyChanged(s, r, Position(Z))
  {
    s.(z := v)
  }

  function SetAxisA(s: Controller, v: int): (r: Controller)
    ensures AxisOf(r, A) == v && OnlyChanged(s, r, Position(A))
  {
    s.(a := v)
  }

  function SetAxisB(s: Controller, v: int): (r: Controller)
    ensures AxisOf(r, B) == v && OnlyChanged(s, r, Position(B))
  {
    s.(b := v)
  }

  function SetAxisC(s: Controller, v: int): (r: Controller)
    ensures AxisOf(r, C) == v && OnlyChanged(s, r, Position(C))
  {
    s.(c := v)
  }

  /** The setter of the given axis: setAxisX through setAxisC. */
  function SetAxis(s: Controller, ax: Axis, v: int): (r: Controller)
    ensures AxisOf(r, ax) == v && OnlyChanged(s, r, Position(ax))
  {
    match ax
    case X => SetAxisX(s, v)
    case Y => SetAxisY(s, v)
    case Z => SetAxisZ(s, v)
    case A => SetAxisA(s, v)
    case B => SetAxisB(s, v)
    case C => SetAxisC(s, v)
  }
}
