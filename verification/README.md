# Wlkata Mirobot controller, modelled in Dafny

This project models `RobotArm`, the controller class of a small Java driver for the
Wlkata Mirobot six-axis arm. The controller holds the arm's settings: six axis positions,
the feed speed, the G-code command prefix, the gripper flag and the port name. It
sequences a short text protocol over a serial port:

- `connect()` closes a live port, opens the named port and sends the homing command;
- `sendCommand()` writes one command and waits for the device;
- `switchGripper()` toggles the gripper;
- `close()` releases the port and returns whether that worked;
- three `formatter` overloads build the motion line
  `"<prefix> X<x> Y<y> Z<z> A<a> B<b> C<c> F<speed>\r\n"`.

The model is functional. The controller is an immutable record, `RobotArm.Controller`.
Every operation is a pure function from one record to the next. The serial port is an
abstract transport: each record carries the trace of everything done to the port, as
`Open`, `OpenFailed`, `Dropped`, `Close`, `CloseFailed`, `CloseIdle`, `Write(data)` and `Await` events
(`Transport.Event`). When an operation depends on an answer from the port, that answer
is a parameter of the step. These answers are whether `closePort()` succeeds, whether
opening succeeds, and whether the port still reports itself open after set-up.

`connect()` asks `p.isOpen()` before closing (RobotArm.java line 55). The model reads
that answer from the controller's own link flag: the port is open exactly when the last
`connect()` succeeded and no `close()` has released it since. A port that closes on its
own between calls (a cable pulled, say) is outside the model.

Numbers are fixed-point values in hundredths, so `105.00` is `10500`. `FixedPoint`
renders them the way `%.2f` does under the root locale: an optional minus sign, the
whole part, a `.` and exactly two digits. It also parses them back.

`GCode` renders a motion line and parses it back, which proves the layout is unambiguous.

`Protocol` models arbitrary sequences of calls, `Protocol.Op`, from construction. Over
these sequences it proves:

- at most one port handle is ever live, provided every close that `connect()` attempts
  succeeds. The code as written opens a second handle when such a close fails (see
  "## Findings"). The second handle then stays live for good, because `close()` and
  `connect()` only ever close the controller's own port. A corrected `connect()` that
  keeps the old port in that case keeps the invariant with no proviso;
- the gripper flag is "an odd number of switchGripper() calls so far", whatever other
  calls come in between;
- each switchGripper() call writes the opening string after an even number of earlier
  switches, and the closing string after an odd number.

Modules, in dependency order:

- `Wrappers`: the `Option` type;
- `FixedPoint`: two-decimal rendering and parsing;
- `GCode`: the motion-line layout;
- `Transport`: events, the written strings, and the live-handle count;
- `RobotArm`: constants, state and one step per operation;
- `Protocol`: call sequences.

After configuring the link, `connect()` checks `isOpen()` again (RobotArm.java lines
81-82). If the port no longer reports itself open, `connect()` returns false without
waiting or writing. The model has an explicit `staysOpen` answer for this, and a
`Dropped` event records that the handle is gone.

## Model

| member | source | states |
|---|---|---|
| RobotArm.Init | src/main/java/org/example/RobotArm.java:22-43 | The constructor binds the given port name. No port is assigned, the trace is empty, the gripper is closed, every axis is 0, the speed is 2000.00 and the prefix is "G90 G01". |
| RobotArm.Close | src/main/java/org/example/RobotArm.java:104-106 | close() needs an assigned port, acts on the controller's own port only, and returns closePort()'s answer. A live port that closes is no longer live and one Close event is appended. A live port that fails to close keeps its link and one CloseFailed event is appended. A port that is not open keeps its link and only a CloseIdle event is appended, which releases no handle. Every setting is kept. |
| RobotArm.SendCommand | src/main/java/org/example/RobotArm.java:112-117 | sendCommand(c) appends exactly Write(c) then Await. The written strings grow by exactly c. No axis, speed, prefix, gripper flag, port name or link changes. |
| RobotArm.Connect | src/main/java/org/example/RobotArm.java:54-90 | connect() returns true exactly when the port opens and still reports itself open after set-up, whatever closing the old port answered. The port is live afterwards exactly when it returned true. The handle is assigned and the settings are unchanged. The trace grows by the reference event list ConnectEvents: the close attempt when a port was live, then the open attempt. |
| RobotArm.ConnectProtocol | src/main/java/org/example/RobotArm.java:55-89 | connect() only extends the trace. HOMING is the only string written, and it is written exactly when connect() returns true. The first new event is the close attempt (Close or CloseFailed, by closePort()'s answer) exactly when a port was live. A failed open is the last event. A success ends with Open, Await, Write(HOMING), Await, in that order. |
| RobotArm.ConnectEventsWrites | src/main/java/org/example/RobotArm.java:58-87 | The events of one connect() write nothing on failure and exactly HOMING on success. |
| RobotArm.SwitchGripper | src/main/java/org/example/RobotArm.java:122-129 | switchGripper() writes GRIPPER[0] when the gripper is open and GRIPPER[1] when it is closed, each followed by Await. It then flips the flag. Every other setting and the link are unchanged. |
| RobotArm.FormatterAt | src/main/java/org/example/RobotArm.java:163-166 | formatter(cmd, x..c) is cmd, then the fields " X", " Y", " Z", " A", " B", " C" with the given axes and " F" with the stored speed, each a two-decimal numeral, then CRLF. The line parses back to exactly cmd, the given axes and the stored speed. |
| RobotArm.FormatterWith | src/main/java/org/example/RobotArm.java:146-150 | formatter(cmd) is cmd, the seven fields of the stored axes and speed, then CRLF. It parses back to cmd, the stored axes and the stored speed. |
| RobotArm.Formatter | src/main/java/org/example/RobotArm.java:135-139 | formatter() is the stored prefix, the seven fields of the stored axes and speed, then CRLF. It parses back to the stored prefix, axes and speed. |
| RobotArm.FormattersAgree | src/main/java/org/example/RobotArm.java:135-166 | The three overloads agree: formatter() equals formatter(commands), and formatter(cmd) equals formatter(cmd, stored axes). |
| RobotArm.SetPort | src/main/java/org/example/RobotArm.java:185-187 | setPort sets the port name. Every other field, the link and the trace are unchanged. |
| RobotArm.SetCommands | src/main/java/org/example/RobotArm.java:201-203 | setCommands sets the prefix. Every other field, the link and the trace are unchanged. |
| RobotArm.SetAxisX | src/main/java/org/example/RobotArm.java:217-219 | setAxisX sets X. Every other field, the link and the trace are unchanged. |
| RobotArm.SetAxisY | src/main/java/org/example/RobotArm.java:233-235 | setAxisY sets Y. Every other field, the link and the trace are unchanged. |
| RobotArm.SetAxisZ | src/main/java/org/example/RobotArm.java:249-251 | setAxisZ sets Z. Every other field, the link and the trace are unchanged. |
| RobotArm.SetAxisA | src/main/java/org/example/RobotArm.java:265-267 | setAxisA sets A. Every other field, the link and the trace are unchanged. |
| RobotArm.SetAxisB | src/main/java/org/example/RobotArm.java:281-283 | setAxisB sets B. Every other field, the link and the trace are unchanged. |
| RobotArm.SetAxisC | src/main/java/org/example/RobotArm.java:297-299 | setAxisC sets C. Every other field, the link and the trace are unchanged. |
| RobotArm.SetSpeed | src/main/java/org/example/RobotArm.java:313-315 | setSpeed sets the speed. Every other field, the link and the trace are unchanged. |
| FixedPoint.Fixed2 | src/main/java/org/example/RobotArm.java:137 | A "%.2f" numeral starts with '-' exactly when the value is negative. After the sign it is a whole part with no leading zero (unless the whole part is "0"), a '.', and exactly two digits. |
| FixedPoint.Fixed2Unique | src/main/java/org/example/RobotArm.java:137 | The shape above pins the numeral down: any text with that shape that parses to v is exactly Fixed2(v). So "0105.00" or "-0.00" cannot stand for a value. |
| FixedPoint.Unsigned2Unique | src/main/java/org/example/RobotArm.java:137 | An unsigned numeral with no leading zero and two decimals is the rendering of the value it parses to. |
| FixedPoint.Fixed2RoundTrip | src/main/java/org/example/RobotArm.java:137 | Every rendered value parses back to itself. |
| FixedPoint.Fixed2Injective | src/main/java/org/example/RobotArm.java:137 | Distinct values render as distinct numerals. |
| GCode.RenderSpelled | src/main/java/org/example/RobotArm.java:136-138 | A motion line is the prefix, then " X", " Y", " Z", " A", " B", " C", " F" fields in that order, each a tag and a two-decimal numeral, then CRLF. |
| GCode.ParseRender | src/main/java/org/example/RobotArm.java:136-138 | Reading a rendered motion line from its right-hand end gives back its prefix, six axes and speed, whatever the prefix holds. |
| GCode.RenderInjective | src/main/java/org/example/RobotArm.java:136-138 | Two motion lines are equal text only if prefix, axes and speed are all equal. |
| Protocol.Step | src/main/java/org/example/RobotArm.java:54-315 | A call fails exactly when close(), sendCommand() or switchGripper() uses a port never assigned. Every other call succeeds, only extends the trace, and has the effect `Effect` states for it. connect() appends the close attempt (if a port was live) and the open attempt, and is live afterwards exactly when the port opens and stays open. close() appends the close event of its own port and is live afterwards exactly when a live port failed to close. sendCommand(c) appends Write(c) then Await. switchGripper() appends the write for the old flag and a wait, and flips the flag. Each setter sets its own field and changes nothing else, not the link and not the trace. No call other than a switch changes the gripper flag, and none other than connect() and close() changes the link. |
| RobotArm.SetAxis | src/main/java/org/example/RobotArm.java:217-299 | The setter of the named axis (setAxisX through setAxisC) sets that axis. Every other field, the link and the trace are unchanged. |
| Protocol.RunGripperFlag | src/main/java/org/example/RobotArm.java:122-129 | For any sequence of calls, the gripper flag ends as the starting flag flipped once per switchGripper() call. |
| Protocol.SwitchCallWrites | src/main/java/org/example/RobotArm.java:122-129 | A switchGripper() call anywhere in a sequence writes GRIPPER[0] if the flag left by the earlier calls is open and GRIPPER[1] if it is closed, then waits. |
| Protocol.RunGripperFromConstruction | src/main/java/org/example/RobotArm.java:122-129 | From construction (line 30), for any sequence of calls, the gripper is open exactly when an odd number of switchGripper() calls were made. |
| Protocol.RunGripperAlternates | src/main/java/org/example/RobotArm.java:122-129 | From construction (line 30), for any sequence of calls, a switchGripper() call after an even number of earlier switches writes the opening string GRIPPER[1]; after an odd number it writes GRIPPER[0]; each is followed by a wait. |
| Protocol.StepKeepsLinkInvariant | src/main/java/org/example/RobotArm.java:54-117 | Every call preserves the link invariant, provided a connect() that finds a live port manages to close it: no prefix of the trace has two live handles, and the trace leaves one live exactly when the controller's link is live. A close() whose closePort() fails keeps the invariant too. |
| Protocol.RunKeepsLinkInvariant | src/main/java/org/example/RobotArm.java:54-117 | Any sequence of calls whose connect() closes all succeed preserves the link invariant. |
| Protocol.NeverTwoHandles | src/main/java/org/example/RobotArm.java:55-58 | From construction, for every sequence of calls and port answers in which each close inside connect() succeeds, no point of the trace has two live handles. A handle is live at the end exactly when the controller is connected. |
| Protocol.TwoHandlesAfterFailedClose | src/main/java/org/example/RobotArm.java:55-58 | connect() ignores close()'s answer: connect() twice, with the second close failing and both opens succeeding, leaves two handles live. |
| Protocol.StepKeepsLeak | src/main/java/org/example/RobotArm.java:54-106 | No call releases a handle beyond the controller's own port: the live handles minus the controller's own (if live) never decrease, because close() and connect() only ever close `p`. |
| Protocol.RunKeepsLeak | src/main/java/org/example/RobotArm.java:54-106 | Over any sequence of calls and port answers, the number of live handles beyond the controller's own never decreases. |
| Protocol.FailedCloseLeaks | src/main/java/org/example/RobotArm.java:55-58 | On a connected controller whose trace agrees with its link, connect() with a failing close always succeeds and leaves at least one live handle beyond the controller's own, whether or not the new port opens. |
| Protocol.LeakNeverReleased | src/main/java/org/example/RobotArm.java:55-58 | After a successful connect() and then a connect() whose close fails, with the second port opening or not, whatever calls follow and whatever the port answers, a live handle remains beyond the controller's own, so at least one handle is live at the end. |
| RobotArm.ConnectGuarded | src/main/java/org/example/RobotArm.java:55-58 | The corrected connect(): when the live port fails to close, it reports false, keeps the old port and records only the failed close. Otherwise it is connect(). It succeeds exactly when the old port (if any) closed and the new one opens and stays open. |
| Protocol.GuardedConnectKeepsLinkInvariant | src/main/java/org/example/RobotArm.java:55-58 | The corrected connect() keeps the link invariant whatever closePort() answers. |
| Protocol.GuardedStep | src/main/java/org/example/RobotArm.java:55-58 | A call with the corrected connect() agrees with Step, except when connect() finds a live port that will not close; then only the failed close is recorded and nothing else changes. |
| Protocol.NeverTwoHandlesGuarded | src/main/java/org/example/RobotArm.java:55-58 | With the corrected connect(), from construction, for every sequence of calls and every port answer, no point of the trace has two live handles, and a handle is live at the end exactly when the controller is connected. |
| Protocol.SwitchTimesEffect | src/main/java/org/example/RobotArm.java:122-129 | After n consecutive switchGripper() calls the flag is the starting flag flipped n times. The trace grows by the reference gripper schedule. |
| Protocol.GripperScheduleAt | src/main/java/org/example/RobotArm.java:122-129 | In the schedule, call j writes GRIPPER[0] exactly when the gripper is open before it: j even from an open start, or j odd from a closed one. |
| Protocol.GripperScheduleWaits | src/main/java/org/example/RobotArm.java:115-116 | In the schedule, every write is followed by a wait. |
| Protocol.SwitchTimesSettings | src/main/java/org/example/RobotArm.java:122-129 | Any number of gripper switches changes no setting other than the gripper flag. |
| Protocol.GripperAlternates | src/main/java/org/example/RobotArm.java:122-129 | From a closed gripper, as after construction (line 30), after n consecutive switchGripper() calls the flag is "n is odd". The k-th call writes the opening string GRIPPER[1] exactly when k is odd and the closing string GRIPPER[0] exactly when k is even, each followed by Await. |
| Protocol.ConnectedFromConstruction | src/main/java/org/example/RobotArm.java:30 | connect() on a new controller assigns a port and leaves the gripper closed. |
| Protocol.InitPositionFormatted | src/main/java/org/example/RobotArm.java:163-166 | With the default speed 2000.00 (line 29), formatter("G90 G01", 105, 25, -55, 170, 30, 0) is the INITPOSITION constant (line 17), character for character. |
| Transport.WritesContents | src/main/java/org/example/RobotArm.java:113 | A string is among those written exactly when the trace holds a Write of it. |
| Transport.NeverTwoLivePrefixes | src/main/java/org/example/RobotArm.java:55-58 | The recursive at-most-one-live-handle check agrees with its direct reading: after every prefix of the trace, at most one handle is live. |

## Left out

- Serial link configuration: baud rate, framing, timeouts, DTR and RTS (RobotArm.java lines 63-66). These are calls into the serial library and hold no logic of the controller.
- The write-completion listener (lines 68-79). It only prints a message.
- Busy-waits: each `while (bytesAvailable() == 0) sleep(20)` loop (lines 84-85, 115-116) is one `Await` event. The loops are unbounded and time-based, and the model does not say how long they last or whether they end.
- The no-argument constructor (lines 45-47). It takes the first port the operating system enumerates, which is environment input.
- Java's rounding of arbitrary doubles under `%.2f`. Axis values and the speed are exact hundredths, so a value such as 0.005 or a negative value that rounds to -0.00 is outside the model.
- `toString`, `equals` and `hashCode` (lines 329-383) are boilerplate over the fields.
- Getters (lines 177-322) are the fields of `RobotArm.Controller`.
- `isOpen()` (lines 96-98) reports the port's own state. In the model that state is the `live` flag of `RobotArm.Link`, and `Protocol.NeverTwoHandles` ties it to the trace.
- The protocol constants SINGLEMOVING, RESET and ZEROPOSITION are declared with their values, but no operation of the class sends them.
- RobotArm.Close: when `closePort()` fails, the model keeps the link as it was. The serial library does not say what state such a port is in. On a port that is not open, the model records only `CloseIdle` and passes `closePort()`'s answer through, whatever it is.
- Protocol.NeverTwoHandles: holds only when every close inside `connect()` succeeds (see "## Findings"). It also relies on line 55's `p.isOpen()` being read from the controller's link flag, so a port that closes on its own between calls is not covered.
- RobotArm.Close, RobotArm.SendCommand and RobotArm.SwitchGripper: using a port that was never assigned dereferences a null reference in the source and raises an exception. These functions require an assigned port instead. `Protocol.Step` models the exception as `None`, which ends the call sequence.
- RobotArm.SendCommand: writing to a port that is assigned but closed is recorded like any other write. The serial library's refusal to write is not modelled.
- RobotArm.SendCommand: `command.getBytes()` (line 113) encodes with the platform's default charset. The model records the characters of the command, not the encoded bytes.
- RobotArm.SendCommand: `writeBytes` returns how many bytes it wrote. Under the 3000 ms write timeout (line 64) that can be fewer than asked, or -1. The model records the whole command as written.
- RobotArm.SendCommand: the wait (lines 115-116) can be interrupted. Then the command has been written but no answer was awaited, and the call ends with an exception. The model records the write and an `Await` in every case.
- RobotArm.SendCommand, RobotArm.SetCommands and RobotArm.SetPort: model strings are never null. In Java, `sendCommand(null)` throws at line 113 before writing; `setCommands(null)` makes every formatter line start with the text "null" (`%s` at line 137); `setPort(null)` reaches the serial library at line 58.
- RobotArm.SwitchGripper: the wait can be interrupted (`InterruptedException` from `Thread.sleep`). Then the string has been written but line 128 never runs, and the device and the flag disagree. The model has no state for an interrupted call.
- RobotArm.Connect: an interrupt during the wait before HOMING (lines 84-85) leaves a live port and no homing command. An interrupt during the wait inside the HOMING `sendCommand` (line 87) leaves a live port with HOMING written, but `connect()` throws instead of returning true. The model has no state for an interrupted call and reports true in the second case.
- App.java is an entry point with a hard-coded port name and sleeps. It is not part of this model.

## Findings

| source | as written | input that shows it | evidently intended | confidence | as-written member | corrected member |
|---|---|---|---|---|---|---|
| src/main/java/org/example/RobotArm.java:55-58 | `connect()` calls `close()` on a live port, ignores the boolean it returns, and replaces `p` with a newly opened port | `connect()` succeeds; a second `connect()` finds the port live, `closePort()` returns false, and the new `openPort()` succeeds: two ports are open and the first can no longer be reached | when the live port fails to close, keep it and return false instead of opening another | medium, not executed | Protocol.TwoHandlesAfterFailedClose | RobotArm.ConnectGuarded |

`Protocol.Step` and `Protocol.Run` keep `connect()` as written, so that they describe the
code. `Protocol.LeakNeverReleased` shows that no later call closes the leaked port. `Protocol.GuardedStep` and `Protocol.RunGuarded` use `RobotArm.ConnectGuarded`
instead, and `Protocol.NeverTwoHandlesGuarded` proves the invariant for them with no
proviso on the port's answers.
