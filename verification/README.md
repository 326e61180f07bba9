# RDPKeepAlive, modelled in Dafny

RDPKeepAlive keeps a Remote Desktop session from idling out. Every minute it
looks through the top-level windows for a Remote Desktop client (MSTSC or
RDCMan, recognised by window class). It brings the client to the front, sends
it one absolute mouse move at the current cursor position, and then gives the
focus back to the window that had it. This project models that core with
these pieces:

- **Desktop.** The window manager is an immutable `Desktop` record: the
  Z-order (a sequence of handles, topmost first), the foreground window,
  class, title and process id for each live handle, and the log of inputs
  queued so far.
- **Native calls.** Every native call the tool makes becomes a pure function
  on that record. Each follows the call's documented contract (module
  `WindowManager`).
- **Environment.** The cursor position, the screen metrics and whether
  `SendInput` accepts the event are an `Env` parameter, because they come
  from outside the program.

The repository has two revisions of the detection logic, and both are
modelled:

- **`KeepAlive`** (`KeepAlive.cs`, module `KeepAlive`, with the path-by-path
  results in `KeepAliveCycle`):
  - it matches the class exactly, letter case included;
  - it stops at the first client;
  - `Execute` then runs a snapshot / raise / send / restore cycle, which
    includes the backward Z-order walk to the window in front of the client.
- **`Program`** (`Program.cs`, module `Program`):
  - it matches case-insensitively through `ExtensionMethods.Contains`;
  - it nudges every client it meets during the enumeration;
  - its main loop is modelled as a function over per-cycle outcomes.

`Revisions` relates the two. The helpers are modelled in their own modules:

- `ExtensionMethods.Contains`;
- `Rect` (module `Rects`) and the `Monitor` constructor (module `Monitors`);
- C# `int` arithmetic (module `Int32`): unchecked wrap-around, truncating
  division, `DivideByZeroException` and `OverflowException`;
- ASCII case folding (module `Ascii`);
- decimal rendering (module `Decimal`).

Four behaviours of the code worth knowing:

- **Coordinates.** They are truncated, not rounded: `(x * 65535) / width`
  on C# `int`.
- **No window in front.** `GetWindowInFront` does not give up when no window
  is in front of the client. `GetWindow` returns NULL above the topmost
  window and for NULL itself. `GetWindowThreadProcessId` fails on NULL and
  leaves `pidNext` as it was, which is then 0 or the client's id, so the loop
  runs forever. The model calls this `Diverges` / `Hangs`.
- **Restore order.** `RestoreSnapshot` gives the focus back first and then
  repositions the client with `SetWindowPos`.
- **Rejected input.** When `SendInput` is rejected, `Execute` throws after
  the client was raised, so the restore never runs.

## Model

| member | source | states |
|---|---|---|
| Int32.Wrap | src/RDPKeepAlive/Rect.cs:21-22 | unchecked int arithmetic yields the unique int32 congruent to the exact result modulo 2^32, and the exact result itself when that fits |
| Int32.TruncDivRoundsTowardZero | src/RDPKeepAlive/KeepAlive.cs:204-205 | C# integer division never overshoots the dividend in magnitude and falls short of it by less than one divisor |
| Int32.TruncDivSign | src/RDPKeepAlive/KeepAlive.cs:204-205 | a non-zero quotient is positive exactly when dividend and divisor have the same sign |
| Int32.QuotientFits | src/RDPKeepAlive/KeepAlive.cs:204-205 | apart from int.MinValue / -1 the quotient of two ints is an int |
| Int32.Divide | src/RDPKeepAlive/KeepAlive.cs:204-205 | `/` throws DivideByZero exactly for a zero divisor and Overflow exactly for int.MinValue / -1; otherwise the quotient is the truncated quotient `TruncDiv`: it undershoots the dividend in magnitude by less than one divisor, a non-zero quotient is positive exactly when the operands share a sign, and on non-negative operands it equals the Euclidean quotient |
| Ascii.EqualsIgnoreCaseIffDifferOnlyInCase | src/RDPKeepAlive/ExtensionMethods.cs:34 | the ordinal case-insensitive comparison holds exactly between strings that differ only in the case of letters |
| Ascii.EqualsIgnoreCaseIsEquivalence | src/RDPKeepAlive/ExtensionMethods.cs:34 | the case-insensitive comparison is reflexive, symmetric and transitive |
| Decimal.ParseIntOfIntToString | src/RDPKeepAlive/Rect.cs:27 | the decimal rendering of any int parses back to that int |
| Decimal.SplitAtFirstSeparator | src/RDPKeepAlive/Rect.cs:27 | splitting text at a separator yields the part before the first separator, then the split of the rest |
| ExtensionMethods.FirstMatch | src/RDPKeepAlive/ExtensionMethods.cs:32-39 | the foreach loop returns at the first element equal to the item and at no earlier one; it runs to the end exactly when no element is equal |
| ExtensionMethods.Contains | src/RDPKeepAlive/ExtensionMethods.cs:23-40 | a null collection raises ArgumentNull("collection"); otherwise a null or empty item raises ArgumentNullOrEmpty("item"); otherwise the answer is true iff some element equals the item under the comparison |
| ExtensionMethods.ContainsOfEmptyCollection | src/RDPKeepAlive/ExtensionMethods.cs:32-39 | an empty collection contains no valid item |
| ExtensionMethods.ContainsIgnoresOrderAndDuplicates | src/RDPKeepAlive/ExtensionMethods.cs:32-39 | two collections with the same elements give the same answer for every item, whatever the order and repetitions |
| ExtensionMethods.ContainsFindsCaseVariant | src/RDPKeepAlive/ExtensionMethods.cs:23 | under the default OrdinalIgnoreCase comparison an item that differs from an element only in letter case is found |
| ExtensionMethods.OrdinalComparisonIsCaseSensitive | src/RDPKeepAlive/ExtensionMethods.cs:23 | "abc" is not in ["ABC"] under Ordinal but is under OrdinalIgnoreCase |
| Rects.New | src/RDPKeepAlive/Rect.cs:17-23 | the constructor keeps left and top; right and bottom are left + width and top + height, wrapped to int |
| Rects.NewFromEdgesRoundTrip | src/RDPKeepAlive/Rect.cs:17-23 | building a rect from its left, top and unchecked right - left and bottom - top gives back the same four edges, even across overflow |
| Rects.WidthAndHeightRecovered | src/RDPKeepAlive/Rect.cs:17-23 | right - left and bottom - top of a constructed rect, computed unchecked, are the width and height it was built with |
| Rects.Equals | src/RDPKeepAlive/Rect.cs:30-33 | Equals(Rect) holds exactly when the two rects are the same value |
| Rects.EqualsIsEquivalence | src/RDPKeepAlive/Rect.cs:30-33 | Equals is reflexive, symmetric and transitive |
| Rects.EqualsObject | src/RDPKeepAlive/Rect.cs:35-38 | Equals(object) holds exactly for a boxed rect with the same edges; null and other types are unequal |
| Rects.OpEquality | src/RDPKeepAlive/Rect.cs:45-48 | `==` agrees with both Equals overloads |
| Rects.OpInequality | src/RDPKeepAlive/Rect.cs:50-53 | `!=` is the exact negation of `==` |
| Rects.EqualRectsHashAlike | src/RDPKeepAlive/Rect.cs:40-43 | equal rects hash alike under every combining function |
| Rects.ParseOfToString | src/RDPKeepAlive/Rect.cs:25-28 | ToString writes the four edges in order: parsing its comma-separated text recovers the rect |
| Monitors.LowBitIsParity | src/RDPKeepAlive/Monitor.cs:24 | bit 0x1 of a two's-complement int is set exactly when the int is odd, negative values included |
| Monitors.TrimEnd | src/RDPKeepAlive/Monitor.cs:25 | TrimEnd gives a prefix of the buffer that does not end in the trimmed character, and only that character was removed |
| Monitors.New | src/RDPKeepAlive/Monitor.cs:12-27 | Bounds and WorkingArea equal rcMonitor and rcWork edge for edge; IsPrimary iff dwFlags has bit 0x1; Name is szDevice without trailing NULs; when GetMonitorInfo fails the fresh record is used |
| Monitors.UnreadMonitorIsBlank | src/RDPKeepAlive/Monitor.cs:14-15 | a monitor whose information could not be read has empty rects, is not primary and has an empty name |
| ZOrder.RemoveInserted | src/RDPKeepAlive/NativeMethods.cs:218-221 | taking a window that was put below another back out restores the order it was inserted into |
| ZOrder.InsertKeepsDistinct | src/RDPKeepAlive/NativeMethods.cs:218-221 | placing a new window below another keeps every handle in the Z-order unique |
| ZOrder.ReinsertUnderNeighbour | src/RDPKeepAlive/NativeMethods.cs:218-221 | taking a window out and putting it back below its upper neighbour gives the same Z-order |
| ZOrder.RaiseTopmost | src/RDPKeepAlive/NativeMethods.cs:197-208 | raising the topmost window leaves the Z-order unchanged |
| WindowManager.CopyText | src/RDPKeepAlive/NativeMethods.cs:67-83 | a read copies at most capacity - 1 characters of the text into the buffer, NUL-fills the rest and returns the count copied |
| WindowManager.PreviousWindow | src/RDPKeepAlive/NativeMethods.cs:120-138 | GetWindow(GW_HWNDPREV) is the window directly above, and NULL for the topmost window or a handle not in the Z-order |
| WindowManager.FindWindowEx | src/RDPKeepAlive/NativeMethods.cs:46-65 | the result is the topmost window whose class and title match ignoring case, and NULL exactly when none matches |
| WindowManager.SetForegroundWindow | src/RDPKeepAlive/NativeMethods.cs:197-208 | a stacked window is raised to the top and given the focus, with the others keeping their order; NULL or an unknown handle changes nothing |
| WindowManager.SetWindowPos | src/RDPKeepAlive/NativeMethods.cs:210-244 | the window is taken out and put directly below hWndInsertAfter, the others keeping their order; the focus moves only without NoActivate; nothing changes unless both are distinct stacked windows |
| WindowManager.SendInput | src/RDPKeepAlive/NativeMethods.cs:179-195 | an accepted input is appended to the queue with the current foreground window, and nothing else changes |
| MouseMovement.Normalize | src/RDPKeepAlive/KeepAlive.cs:204-205 | one axis fails with DivideByZero exactly for a zero dimension and with Overflow exactly when the dimension is -1 and the wrapped product is int.MinValue; otherwise it is the wrapped product divided by the dimension, truncated toward zero |
| MouseMovement.NormalizeOnScreen | src/RDPKeepAlive/KeepAlive.cs:204-205 | for 0 <= x < w with x <= 32768 the result is exactly x * 65535 / w and lies in 0..65534 |
| MouseMovement.NormalizeBeforeScreen | src/RDPKeepAlive/KeepAlive.cs:204-205 | for a negative x with -x < w and x >= -32768 the result is -((-x) * 65535 / w), in -65534..0: truncated toward zero, not floored |
| MouseMovement.NormalizeOverflowsPast32768 | src/RDPKeepAlive/KeepAlive.cs:204-205 | at x = 32769 the product wraps and a cursor on screen yields a negative coordinate (-65531 on a 32770-pixel screen) |
| MouseMovement.GetMouseMovement | src/RDPKeepAlive/Program.cs:202-214 | the input is a mouse input with flags MOVE, ABSOLUTE (0x8001) and both axes normalised; it fails exactly when one axis fails, and a zero width fails with DivideByZero |
| MouseMovement.MovementOnScreen | src/RDPKeepAlive/Program.cs:211-212 | a cursor on a screen of at most 32769 pixels each way always yields a move inside 0..65534 on both axes |
| KeepAlive.DecodeBuffer | src/RDPKeepAlive/KeepAlive.cs:209-230 | a read fails iff the native call returned 0; otherwise the text is the buffer's prefix before the first NUL, holds no NUL, is shorter than the buffer and is empty when the first character is NUL |
| KeepAlive.ReadRecoversText | src/RDPKeepAlive/KeepAlive.cs:209-253 | reading text through a 128-character buffer fails exactly for empty text and otherwise yields the text cut to 127 characters |
| KeepAlive.WindowReadsRecoverText | src/RDPKeepAlive/KeepAlive.cs:209-253 | class and title reads of a dead handle fail, those of a live window yield its cut text, and the no-terminator path never arises |
| KeepAlive.MatchesAny | src/RDPKeepAlive/KeepAlive.cs:117-124 | the foreach returns true iff the name is one of the listed names |
| KeepAlive.IsRdpClientClass | src/RDPKeepAlive/KeepAlive.cs:115-125 | a class is a client class iff it equals one of the two known names exactly |
| KeepAlive.ClassMatchIsCaseSensitive | src/RDPKeepAlive/KeepAlive.cs:115-125 | "TscShellContainerClass" is a client class and "tscshellcontainerclass" is not |
| KeepAlive.EnumRdpWindowsFrom | src/RDPKeepAlive/KeepAlive.cs:89-100 | the enumeration stops at the first window whose class and title read and whose class is known, and runs to the end exactly when there is none |
| KeepAlive.TryGetRDPClient | src/RDPKeepAlive/KeepAlive.cs:66-74 | when nothing is found the client handed back is the one left from before |
| KeepAlive.TryGetRDPClientSucceedsIffClient | src/RDPKeepAlive/KeepAlive.cs:66-74 | the result is true iff some top-level window has a readable class and title and a known class |
| KeepAlive.TryGetRDPClientFindsFirst | src/RDPKeepAlive/KeepAlive.cs:89-100 | on success the client is the class and title of the first such window in enumeration order |
| KeepAlive.UntitledClientIsSkipped | src/RDPKeepAlive/KeepAlive.cs:92 | a window with a known class but an empty title is not taken as the client |
| KeepAlive.WalkUp | src/RDPKeepAlive/KeepAlive.cs:102-113 | the walk GetWindowInFront means: a found window is strictly above the start, its owner reads as neither 0 nor the client's id, and every window in between is skipped; the walk diverges exactly when every window above is skipped |
| KeepAlive.CarriedPidWalkIsWalkUp | src/RDPKeepAlive/KeepAlive.cs:104-111 | the loop as written, carrying `pidNext` through queries that fail and leave it unchanged, ends or runs forever exactly as the reference walk does |
| KeepAlive.GetWindowInFront | src/RDPKeepAlive/KeepAlive.cs:102-113 | the loop started with `pidNext = 0` at the client is the reference walk up from the client |
| KeepAlive.TakeSnapshot | src/RDPKeepAlive/KeepAlive.cs:162-177 | the snapshot keeps the current foreground and marks the client as not topmost iff it lacks the focus; only then is the window in front looked up, and the snapshot never completes iff that walk diverges |
| KeepAlive.ProcessMouseMovement | src/RDPKeepAlive/KeepAlive.cs:127-140 | a client without the focus is first raised to the top and given it, otherwise focus and Z-order stay; an accepted input is queued for the window then holding the focus and the call returns; a rejected one throws SendInputRejected with nothing queued |
| KeepAlive.RestoreSnapshot | src/RDPKeepAlive/KeepAlive.cs:142-160 | with the client topmost at snapshot time nothing is restored; otherwise the focus goes back to the original window when it is stacked, and the client then sits directly below the recorded window in front, the other windows in the order the refocus left them; no input is queued |
| KeepAlive.TryGetMouseMovementParams | src/RDPKeepAlive/KeepAlive.cs:179-207 | fails with CursorUnavailable exactly when the cursor cannot be read; otherwise it yields the normalised move or the arithmetic exception the division raises |
| KeepAlive.Execute | src/RDPKeepAlive/KeepAlive.cs:36-55 | a cycle, however it ends, leaves a valid desktop with the same windows |
| KeepAliveCycle.ClientMissingChangesNothing | src/RDPKeepAlive/KeepAlive.cs:39-43 | when FindWindowEx finds no window, Execute returns and the desktop is unchanged |
| KeepAliveCycle.UnreadableCursorThrowsFirst | src/RDPKeepAlive/KeepAlive.cs:45-48 | an unreadable cursor throws before any snapshot, focus change or input |
| KeepAliveCycle.ZeroScreenWidthThrows | src/RDPKeepAlive/KeepAlive.cs:204 | a zero screen width throws DivideByZero before anything changes |
| KeepAliveCycle.NoNeighbourHangs | src/RDPKeepAlive/KeepAlive.cs:102-113 | a background client with only NULL-owned or same-process windows above it makes Execute hang before anything changes |
| KeepAliveCycle.ForegroundClientCycle | src/RDPKeepAlive/KeepAlive.cs:127-147 | a client that already has the focus gets exactly one input, with Z-order and focus unchanged; a rejected input throws with nothing changed |
| KeepAliveCycle.RejectedInputSkipsRestore | src/RDPKeepAlive/KeepAlive.cs:136-139 | a rejected input for a background client throws after the client was raised: it keeps the focus on top and nothing is queued |
| KeepAliveCycle.CycledZOrder | src/RDPKeepAlive/KeepAlive.cs:142-160 | raising, sending, refocusing and repositioning ends with the original focus, the client directly below the neighbour, one input queued and the windows untouched |
| KeepAliveCycle.BackgroundCycleIsCycled | src/RDPKeepAlive/KeepAlive.cs:36-55 | the successful background path of Execute is exactly raise, send, refocus and reposition, in that order |
| KeepAliveCycle.BackgroundClientCycle | src/RDPKeepAlive/KeepAlive.cs:142-160 | a successful background cycle queues one input while the client has the focus, restores the original focus, and leaves the client directly below the recorded window in front, the rest keeping their order below the refocused window |
| KeepAliveCycle.UnfocusedDesktopCycle | src/RDPKeepAlive/KeepAlive.cs:142-160 | with no foreground window to begin with, the client keeps the focus after its one input and is slid back under the recorded window in front; when that is its upper neighbour the Z-order is as it started |
| KeepAliveCycle.CycleRestoresZOrderExactly | src/RDPKeepAlive/KeepAlive.cs:142-160 | when the original foreground was topmost and the window in front is the client's upper neighbour, the cycle leaves the Z-order and focus exactly as they were and only queues the input |
| Program.BuilderText | src/RDPKeepAlive/Program.cs:122 | a StringBuilder filled by the native call holds the NUL-free prefix of the buffer |
| Program.BuilderHoldsTruncatedText | src/RDPKeepAlive/Program.cs:118-129 | a builder filled from NUL-free text holds that text cut to 127 characters |
| Program.ReadNames | src/RDPKeepAlive/Program.cs:121-137 | the class read fails iff the window is dead or classless; the title read then fails iff the title is empty; otherwise both names are the cut text and never empty |
| Program.CallbackSearchesForReadText | src/RDPKeepAlive/Program.cs:136-139 | the "[NoClass]"/"[NoTitle]" stand-ins are never used after two successful reads, and Contains never throws on the class |
| Program.Nudge | src/RDPKeepAlive/Program.cs:180-194 | one input is queued for the client exactly when SendInput accepts it; the focus returns to the original foreground window, accepted or not; with no original foreground the client keeps the focus, on top; the windows are unchanged |
| Program.NudgeLeavesClientSecond | src/RDPKeepAlive/Program.cs:180-194 | this revision does not restore the client's place: it ends directly below the refocused window, the rest keeping their order |
| Program.NudgeClient | src/RDPKeepAlive/Program.cs:157-197 | after a match the callback never stops the enumeration; it throws only when building the move divides badly; otherwise the windows are unchanged |
| Program.Callback | src/RDPKeepAlive/Program.cs:112-200 | stops iff the class cannot be read; a readable non-client continues with nothing changed; a client is a match or a throw; a throw is always arithmetic |
| Program.UnreadCursorChangesNothing | src/RDPKeepAlive/Program.cs:171-176 | with the cursor unreadable a matched client is counted and the desktop left as it was |
| Program.CallbackRestoresFocus | src/RDPKeepAlive/Program.cs:149-194 | once a move is built the focus is back with the window that had it, accepted or not |
| Program.LongTitledClientIsNotNudged | src/RDPKeepAlive/Program.cs:157-159 | a client titled beyond the buffer is counted as found but not nudged when no window has a 127-character title |
| Program.EnumPass | src/RDPKeepAlive/Program.cs:61 | a pass sets found iff some window qualifies before the first unreadable class; it completes iff no window stopped it and nothing threw; the windows are unchanged |
| Program.FindsClientIffQualifyingBeforeStop | src/RDPKeepAlive/Program.cs:122-145 | the reference reading agrees with "some window qualifies before the first window whose class cannot be read" |
| Program.PassFindsFirstQualifying | src/RDPKeepAlive/Program.cs:139-145 | a pass ends with found set exactly when some window qualifies before the enumeration is stopped |
| Program.PassWithoutClientChangesNothing | src/RDPKeepAlive/Program.cs:139-143 | with no qualifying window the pass leaves the desktop as it was, finds nothing and does not throw |
| Program.PassNeverCrashes | src/RDPKeepAlive/Program.cs:171-178 | when every move can be built a pass never throws |
| Program.ClientPassKeepsClient | src/RDPKeepAlive/Program.cs:145-199 | on a desktop with a client and only readable classes a pass finds it, does not throw, and the client is still there afterwards |
| Program.MainLoop | src/RDPKeepAlive/Program.cs:58-81 | the loop reports an exit only in a cycle at or after the one it starts from |
| Program.LoopEndsAtFirstEndingCycle | src/RDPKeepAlive/Program.cs:58-81 | the loop ends in the first cycle with a stop request, a throw or no client; the kind of exit says which, with a stop checked first; it runs on iff no cycle ends it |
| Program.LoopIgnoresEnumFailure | src/RDPKeepAlive/Program.cs:61-65 | whether EnumWindows reported failure in any cycle does not change how the loop ends |
| Program.Run | src/RDPKeepAlive/Program.cs:58-72 | a run yields one outcome per cycle, with that cycle's stop request; a stopped cycle reports no pass; the first pass finds a client iff one qualifies before an unreadable class, and succeeds iff it neither stops nor throws |
| Program.RunStep | src/RDPKeepAlive/Program.cs:58-72 | a cycle without a stop request runs one pass and the next cycle starts from the desktop that pass left; after a stop the next cycle sees the same desktop |
| Program.NoClientEndsFirstCycle | src/RDPKeepAlive/Program.cs:66-70 | on a desktop without a client the loop exits with "no client found" right after its first pass |
| Program.RunKeepsFindingClient | src/RDPKeepAlive/Program.cs:58-81 | on a desktop with a client, no cycle of a run without stops or failing moves ends the loop |
| Program.LoopRunsWhileClientPresent | src/RDPKeepAlive/Program.cs:58-81 | with a client present, readable classes, working moves and no stop request, the loop never ends on its own |
| Revisions.KeepAliveMatchIsProgramMatch | src/RDPKeepAlive/Program.cs:139 | every window the exact-match revision takes as the client is also a client to the case-insensitive one |
| Revisions.CaseVariantOnlyMatchedByProgram | src/RDPKeepAlive/Program.cs:139-143 | a known class in other letter case is a client only to the Program revision |

## Left out

- Concurrency and timing are not modelled: the single-instance mutex, the
  keypress thread, the `volatile` stop flag and the 60 × 1 s sleep. A stop
  request appears only as a flag at the head of each cycle.
- Console output, `Debug.WriteLine`, the verbose flag and its parsing,
  timestamps and `GetErrorMessage` have no effect on the modelled state. So
  has Program's read of the original foreground window's title, which only
  feeds a log line.
- The P/Invoke declarations, struct layout and marshalling are not modelled:
  `cbSize`, the 40-byte INPUT and the `MonitorInfoEx.cbSize` header.
- `SetForegroundWindow` is taken to always succeed. Windows' foreground-lock
  refusals are operating-system policy.
- The cursor, the screen metrics and the answer of `SendInput` are fixed for
  one `Execute` or one enumeration pass (`Env`), not re-read for each
  client. Each is a single OS read per client in the source.
- `string.Equals` with OrdinalIgnoreCase, and the case-insensitive match of
  `FindWindowEx`, fold only ASCII letters. Full Unicode case mapping is a
  runtime-library and window-manager table.
- `HashCode.Combine` is a parameter of `Rects.GetHashCode`, because its
  per-process seed is unknown.
- `Rect.ToString` is stated through its parser (`Rects.ParseOfToString`),
  and invariant-culture formatting is assumed.
- `Monitor.AllMonitors`, `MonitorEnumCallback`, the monitor lookup helpers
  and `Monitor.ToString` are native enumeration and lookup wrappers, so they
  are not modelled. `MONITOR_DEFAULTTOPRIMARY` is taken as bit 0x1.
- Null strings or collections elements inside `Contains` are not modelled.
  Only a null collection or a null item is, because the callers never pass a
  null element.
- `KeepAlive.TryGetWindowClass`/`TryGetWindowTitle` have a no-terminator
  path (slicing with index -1 throws). It is modelled as
  `ReadFault.NoTerminator` and proved unreachable, because the native call
  always writes a terminator.
- `KeepAlive._windowInFront` is a static field, and it keeps its value from
  an earlier cycle when the client is topmost. The model uses NULL there,
  since `RestoreSnapshot` does not read it in that case.
- KeepAlive.TryGetRDPClient: the function's own contract only states the
  stale-client case. The detection property is in
  `TryGetRDPClientSucceedsIffClient` and `TryGetRDPClientFindsFirst`.
- KeepAlive.Execute: the function's contract only states validity and that
  the windows are unchanged. The behaviour on each path is proved in the
  `KeepAliveCycle` lemmas.
- KeepAlive.Execute: the client's class and title are always strings. The
  default `_client` (KeepAlive.cs:22) has null fields, and
  `FindWindowExW(0, 0, null, null)` would pick the topmost window of any
  class. That case is not modelled, because nothing in the repository calls
  `Execute`, and `_client` holds strings once a detection has set it
  (KeepAlive.cs:95).
- Program.MainLoop: the function's contract only bounds the exit cycle. The
  exit behaviour is proved in `LoopEndsAtFirstEndingCycle` and
  `LoopIgnoresEnumFailure`.
- Program.Run: a cycle with a stop request makes no pass, and its
  `enumSucceeded` field is set to false. Its value is irrelevant by
  `LoopIgnoresEnumFailure`.
- Program.EnumPass: a thrown exception is recorded as ending the pass with
  `found` set. The only exception reachable there is arithmetic, and it is
  thrown after `found = true`.
