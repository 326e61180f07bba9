/**
 * The `Program` revision: every top-level window is visited by the
 * enumeration callback, matched case-insensitively against the known client
 * classes, and a matching client is raised, sent one mouse move, and the
 * focus handed back. The main loop repeats such passes until one finds no
 * client, a stop is requested, or a pass crashes.
 */
module Program {
  import opened Wrappers
  import opened Int32
  import opened ZOrder
  import opened WindowManager
  import opened Clients
  import opened ExtensionMethods
  import MouseMovement

  const ClassNameCapacity: nat := 128
  const WindowTitleCapacity: nat := 128

  /** Stand-ins the callback uses when a read succeeded but produced no text. */
  const NoClass: string := "[NoClass]"
  const NoTitle: string := "[NoTitle]"

  /** What a StringBuilder holds after the native call filled its buffer: everything before the first NUL. */
  function BuilderText(read: NativeRead): (s: string)
    ensures NoNul(s) && |s| <= |read.buffer| && s == read.buffer[..|s|]
    ensures |s| < |read.buffer| ==> read.buffer[|s|] == NUL
  {
    var k := IndexOfNul(read.buffer);
    if k < 0 then read.buffer else read.buffer[..k]
  }

  /** A builder filled from NUL-free text holds the text cut to one less than the capacity. */
  lemma BuilderHoldsTruncatedText(text: string, capacity: nat)
    requires capacity > 1 && NoNul(text)
    ensures BuilderText(CopyText(text, capacity)) == Truncate(text, capacity - 1)
  {
    var read := CopyText(text, capacity);
    var n := read.count;
    assert read.buffer[..n] == text[..n];
    assert NUL !in read.buffer[..n] by {
      assert forall c :: c in text[..n] ==> c in text;
    }
    assert read.buffer[n] == NUL;
  }

  /** The window's class as the callback reads it: readable when it is live and its class is not empty. */
  predicate ClassReadable(w: map<Handle, Window>, h: Handle) {
    h in w && w[h].className != []
  }

  predicate Titled(w: map<Handle, Window>, h: Handle) {
    h in w && w[h].title != []
  }

  /** The callback treats `h` as a client: both reads succeed and its (cut) class equals a known client class up to case. */
  predicate Qualifies(w: map<Handle, Window>, h: Handle) {
    && ClassReadable(w, h)
    && Titled(w, h)
    && exists e :: e in RdpClients && StringEquals(e, Truncate(w[h].className, ClassNameCapacity - 1), OrdinalIgnoreCase)
  }

  /** How one callback invocation ends: continue (with whether it matched), stop the enumeration, or an exception. */
  datatype Step = Continue(desktop: Desktop, matched: bool) | Stop | Crash(fault: Fault)

  /** The move a matched client is sent, or why none is built; `None` when the cursor is unavailable. */
  function MovementFor(env: Env): Option<Result<Input, ArithmeticFault>> {
    match env.cursor
    case None => None
    case Some(p) => Some(MouseMovement.GetMouseMovement(p, env.screenWidth, env.screenHeight))
  }

  /**
   * Raise the client, send the move if the system accepts it, then give the
   * focus back. The one input queued goes to the client; the window that had
   * the focus gets it back, and with no such window the client keeps it, on
   * top.
   */
  function Nudge(d: Desktop, target: Handle, input: Input, accepted: bool): (d': Desktop)
    requires Valid(d)
    ensures Valid(d') && SameWindows(d, d')
    ensures target in d.zorder && accepted ==> d'.inputs == d.inputs + [Submission(input, target)]
    ensures !accepted ==> d'.inputs == d.inputs
    ensures target in d.zorder && d.foreground != NullHandle ==> d'.foreground == d.foreground
    ensures target in d.zorder && d.foreground == NullHandle ==>
      d'.foreground == target && d'.zorder == [target] + Remove(d.zorder, target)
  {
    var original := d.foreground;
    var raised := SetForegroundWindow(d, target);
    assert original in d.zorder ==> original in raised.zorder;
    var sent := if accepted then SendInput(raised, input) else raised;
    SetForegroundWindow(sent, original)
  }

  /** The callback once `clsName` is known to be a client class: find the window, build the move, nudge it. */
  function NudgeClient(d: Desktop, clsName: string, wndTitle: string, env: Env): (r: Step)
    requires Valid(d)
    ensures r.Crash? ==> r.fault.Arithmetic? && MovementFor(env).Some? && MovementFor(env).value.Failure?
    ensures r.Continue? ==> r.matched && Valid(r.desktop) && SameWindows(d, r.desktop)
    ensures !r.Stop?
  {
    var target := FindWindowEx(d, clsName, wndTitle);
    if target == NullHandle then Continue(d, true)
    else
      match MovementFor(env)
      case None => Continue(d, true)
      case Some(Failure(f)) => Crash(Arithmetic(f))
      case Some(Success(input)) => Continue(Nudge(d, target, input, env.sendInputSucceeds), true)
  }

  /** The two reads at the head of the callback: the class fails, the title fails, or both names as used. */
  datatype Names = ClassUnread | TitleUnread | Names(clsName: string, wndTitle: string)

  /** Read the class and title of `h`, substituting the stand-ins for empty text. */
  function ReadNames(d: Desktop, h: Handle): (r: Names)
    requires Valid(d)
    ensures r.ClassUnread? <==> !ClassReadable(d.windows, h)
    ensures r.TitleUnread? <==> ClassReadable(d.windows, h) && !Titled(d.windows, h)
    ensures r.Names? ==>
      && r.clsName == Truncate(d.windows[h].className, ClassNameCapacity - 1) != []
      && r.wndTitle == Truncate(d.windows[h].title, WindowTitleCapacity - 1) != []
  {
    var cls := GetClassName(d, h, ClassNameCapacity);
    if cls.count == 0 then ClassUnread
    else
      var title := GetWindowText(d, h, WindowTitleCapacity);
      if title.count == 0 then TitleUnread
      else
        CallbackSearchesForReadText(d, h);
        var clsName := if |BuilderText(cls)| > 0 then BuilderText(cls) else NoClass;
        var wndTitle := if |BuilderText(title)| > 0 then BuilderText(title) else NoTitle;
        Names(clsName, wndTitle)
  }

  /** `EnumRDPWindowsProc` for window `h`. */
  function Callback(d: Desktop, h: Handle, env: Env): (r: Step)
    requires Valid(d)
    ensures r.Stop? <==> !ClassReadable(d.windows, h)
    ensures ClassReadable(d.windows, h) && !Qualifies(d.windows, h) ==> r == Continue(d, false)
    ensures Qualifies(d.windows, h) ==> r.Crash? || (r.Continue? && r.matched)
    ensures r.Crash? ==> r.fault.Arithmetic? && MovementFor(env).Some? && MovementFor(env).value.Failure?
    ensures r.Continue? ==> Valid(r.desktop) && SameWindows(d, r.desktop)
  {
    match ReadNames(d, h)
    case ClassUnread => Stop
    case TitleUnread => Continue(d, false)
    case Names(clsName, wndTitle) =>
      match Contains(Some(RdpClients), Some(clsName))
      case Failure(_) => Crash(InvalidArgument)
      case Success(isClient) =>
        if !isClient then Continue(d, false) else NudgeClient(d, clsName, wndTitle, env)
  }

  /** What the callback hands to FindWindowEx: the class and title as read, never a stand-in. */
  lemma CallbackSearchesForReadText(d: Desktop, h: Handle)
    requires Valid(d) && ClassReadable(d.windows, h) && Titled(d.windows, h)
    ensures |BuilderText(GetClassName(d, h, ClassNameCapacity))| > 0
    ensures |BuilderText(GetWindowText(d, h, WindowTitleCapacity))| > 0
    ensures BuilderText(GetClassName(d, h, ClassNameCapacity)) == Truncate(d.windows[h].className, ClassNameCapacity - 1)
    ensures BuilderText(GetWindowText(d, h, WindowTitleCapacity)) == Truncate(d.windows[h].title, WindowTitleCapacity - 1)
    ensures Contains(Some(RdpClients), Some(BuilderText(GetClassName(d, h, ClassNameCapacity)))).Success?
  {
    BuilderHoldsTruncatedText(d.windows[h].className, ClassNameCapacity);
    BuilderHoldsTruncatedText(d.windows[h].title, WindowTitleCapacity);
  }

  /**
   * The client is left directly below the window that gets the focus back:
   * this revision does not restore the client's place in the Z-order.
   */
  lemma NudgeLeavesClientSecond(d: Desktop, target: Handle, input: Input, accepted: bool)
    requires Valid(d) && target in d.zorder
    requires d.foreground != NullHandle && d.foreground != target
    ensures Nudge(d, target, input, accepted).zorder == [d.foreground, target] + Remove(Remove(d.zorder, target), d.foreground)
  {
    var raised := SetForegroundWindow(d, target);
    var sent := if accepted then SendInput(raised, input) else raised;
    RefocusBelow(sent, target, d.foreground, Remove(d.zorder, target));
  }

  /** Raising `f` over a stack topped by `target` leaves `target` second. */
  lemma RefocusBelow(s: Desktop, target: Handle, f: Handle, rest: seq<Handle>)
    requires Valid(s) && s.zorder == [target] + rest && f in rest
    ensures SetForegroundWindow(s, f).zorder == [f, target] + Remove(rest, f)
  {
    assert f != target;
    assert Remove(s.zorder, f) == [target] + Remove(rest, f) by {
      RemoveConcat([target], rest, f);
      assert Remove([target], f) == [target];
    }
  }

  /** With the cursor unavailable the callback returns before touching the focus or the Z-order. */
  lemma UnreadCursorChangesNothing(d: Desktop, h: Handle, env: Env)
    requires Valid(d) && Qualifies(d.windows, h) && env.cursor.None?
    ensures Callback(d, h, env) == Continue(d, true)
  {
    var names := ReadNames(d, h);
    assert Contains(Some(RdpClients), Some(names.clsName)) == Success(true);
  }

  /** Once a move is built, the focus goes back to the window that had it, accepted or not. */
  lemma CallbackRestoresFocus(d: Desktop, h: Handle, env: Env)
    requires Valid(d) && Qualifies(d.windows, h) && d.foreground != NullHandle
    requires MovementFor(env).Some? && MovementFor(env).value.Success?
    ensures Callback(d, h, env).Continue? && Callback(d, h, env).desktop.foreground == d.foreground
  {
    var names := ReadNames(d, h);
    assert Contains(Some(RdpClients), Some(names.clsName)) == Success(true);
  }

  /**
   * A client whose title is longer than the buffer is counted as found but
   * never nudged: FindWindowEx is asked for the cut title, which no window
   * has when none is exactly 127 characters long.
   */
  lemma LongTitledClientIsNotNudged(d: Desktop, h: Handle, env: Env)
    requires Valid(d) && Qualifies(d.windows, h) && |d.windows[h].title| >= WindowTitleCapacity
    requires forall x :: x in d.windows ==> |d.windows[x].title| != WindowTitleCapacity - 1
    ensures Callback(d, h, env) == Continue(d, true)
  {
    var names := ReadNames(d, h);
    assert |names.wndTitle| == WindowTitleCapacity - 1;
    assert Contains(Some(RdpClients), Some(names.clsName)) == Success(true);
    assert FindWindowEx(d, names.clsName, names.wndTitle) == NullHandle;
  }

  /** The pass the main loop makes in one cycle: visit `handles` in order until the callback stops or throws. */
  datatype Pass = Pass(desktop: Desktop, found: bool, completed: bool, crash: Option<Fault>)

  /** No window before position `i` stopped the enumeration. */
  predicate ReadableBefore(w: map<Handle, Window>, handles: seq<Handle>, i: nat)
    requires i <= |handles|
  {
    forall j :: 0 <= j < i ==> ClassReadable(w, handles[j])
  }

  /**
   * A reference reading of what a pass finds: walking `handles` in order,
   * a client turns up before a window whose class cannot be read.
   */
  predicate FindsClient(w: map<Handle, Window>, handles: seq<Handle>)
    decreases |handles|
  {
    && handles != []
    && ClassReadable(w, handles[0])
    && (Qualifies(w, handles[0]) || FindsClient(w, handles[1..]))
  }

  lemma SameWindowsTransitive(a: Desktop, b: Desktop, c: Desktop)
    requires SameWindows(a, b) && SameWindows(b, c)
    ensures SameWindows(a, c)
  {
  }

  /** `EnumWindows(EnumRDPWindowsProc)` over the handles collected when the call began. */
  function EnumPass(d: Desktop, handles: seq<Handle>, env: Env, found: bool): (p: Pass)
    requires Valid(d)
    ensures Valid(p.desktop) && SameWindows(d, p.desktop)
    ensures p.found <==> found || FindsClient(d.windows, handles)
    ensures p.completed ==> p.crash.None?
    ensures p.completed <==> p.crash.None? && ReadableBefore(d.windows, handles, |handles|)
    decreases |handles|
  {
    if handles == [] then Pass(d, found, true, None)
    else
      match Callback(d, handles[0], env)
      case Stop => Pass(d, found, false, None)
      case Crash(f) => Pass(d, true, false, Some(f))
      case Continue(d', matched) =>
        var p := EnumPass(d', handles[1..], env, found || matched);
        ReadableBeforeShift(d.windows, handles, |handles|);
        SameWindowsTransitive(d, d', p.desktop);
        p
  }

  /** Dropping a readable first window shifts `ReadableBefore` by one. */
  lemma ReadableBeforeShift(w: map<Handle, Window>, handles: seq<Handle>, i: nat)
    requires 0 < i <= |handles|
    ensures ReadableBefore(w, handles, i) <==> ClassReadable(w, handles[0]) && ReadableBefore(w, handles[1..], i - 1)
  {
    assert forall j :: 0 < j < i ==> handles[j] == handles[1..][j - 1];
  }

  /** The reference reading agrees with "some window qualifies before the first unreadable one". */
  lemma {:induction false} FindsClientIffQualifyingBeforeStop(w: map<Handle, Window>, handles: seq<Handle>)
    ensures FindsClient(w, handles) <==>
      exists i :: 0 <= i < |handles| && Qualifies(w, handles[i]) && ReadableBefore(w, handles, i)
    decreases |handles|
  {
    if handles != [] {
      FindsClientIffQualifyingBeforeStop(w, handles[1..]);
      if FindsClient(w, handles) {
        if Qualifies(w, handles[0]) {
          assert ReadableBefore(w, handles, 0);
        } else {
          var i :| 0 <= i < |handles| - 1 && Qualifies(w, handles[1..][i]) && ReadableBefore(w, handles[1..], i);
          ReadableBeforeShift(w, handles, i + 1);
          assert Qualifies(w, handles[i + 1]);
        }
      } else {
        forall i | 0 <= i < |handles| && Qualifies(w, handles[i])
          ensures !ReadableBefore(w, handles, i)
        {
          if i > 0 {
            ReadableBeforeShift(w, handles, i);
            assert handles[i] == handles[1..][i - 1];
          }
        }
      }
    }
  }

  /**
   * A pass ends with `found` set exactly when some window qualifies before
   * the first window whose class cannot be read.
   */
  lemma PassFindsFirstQualifying(d: Desktop, handles: seq<Handle>, env: Env, found: bool)
    requires Valid(d)
    ensures EnumPass(d, handles, env, found).found <==>
      found || exists i :: 0 <= i < |handles| && Qualifies(d.windows, handles[i]) && ReadableBefore(d.windows, handles, i)
  {
    FindsClientIffQualifyingBeforeStop(d.windows, handles);
  }

  /** What one cycle of the main loop saw: a stop request at its head, then what its pass reported. */
  datatype CycleOutcome = CycleOutcome(stopRequested: bool, enumSucceeded: bool, found: bool, crash: Option<Fault>)

  /** Why the main loop ended, and in which cycle. */
  datatype Exit =
    | NoClientFound(cycle: nat)
    | Interrupted(cycle: nat)
    | Crashed(cycle: nat, fault: Fault)
    | StillRunning

  /** A cycle after which the loop does not go on. */
  predicate EndsLoop(c: CycleOutcome) {
    c.stopRequested || c.crash.Some? || !c.found
  }

  /**
   * The `while (!gShouldStop)` loop from cycle `k` on: a stop request ends
   * it before the pass, a pass that throws ends the process, a pass that
   * found no client ends it; otherwise `found` is cleared and the next
   * cycle starts. A failed enumeration is only reported.
   */
  function MainLoop(cycles: seq<CycleOutcome>, k: nat): (r: Exit)
    requires k <= |cycles|
    ensures !r.StillRunning? ==> k <= r.cycle < |cycles|
    decreases |cycles| - k
  {
    if k == |cycles| then StillRunning
    else
      var c := cycles[k];
      if c.stopRequested then Interrupted(k)
      else if c.crash.Some? then Crashed(k, c.crash.value)
      else if !c.found then NoClientFound(k)
      else MainLoop(cycles, k + 1)
  }

  /** The loop ends in the first cycle that ends it, and the kind of exit says why. */
  lemma {:induction false} LoopEndsAtFirstEndingCycle(cycles: seq<CycleOutcome>, k: nat)
    requires k <= |cycles|
    ensures var r := MainLoop(cycles, k);
      && (r.StillRunning? <==> forall j :: k <= j < |cycles| ==> !EndsLoop(cycles[j]))
      && (!r.StillRunning? ==> EndsLoop(cycles[r.cycle]) && forall j :: k <= j < r.cycle ==> !EndsLoop(cycles[j]))
      && (r.Interrupted? <==> !r.StillRunning? && cycles[r.cycle].stopRequested)
      && (r.Crashed? ==> !cycles[r.cycle].stopRequested && cycles[r.cycle].crash == Some(r.fault))
      && (r.NoClientFound? <==>
            !r.StillRunning? && !cycles[r.cycle].stopRequested && cycles[r.cycle].crash.None? && !cycles[r.cycle].found)
    decreases |cycles| - k
  {
    if k < |cycles| && !EndsLoop(cycles[k]) {
      LoopEndsAtFirstEndingCycle(cycles, k + 1);
    }
  }

  /** Whether EnumWindows reported failure in any cycle makes no difference to how the loop ends. */
  lemma {:induction false} LoopIgnoresEnumFailure(cycles: seq<CycleOutcome>, k: nat, j: nat, succeeded: bool)
    requires k <= |cycles| && j < |cycles|
    ensures MainLoop(cycles[j := cycles[j].(enumSucceeded := succeeded)], k) == MainLoop(cycles, k)
    decreases |cycles| - k
  {
    if k < |cycles| {
      LoopIgnoresEnumFailure(cycles, k + 1, j, succeeded);
    }
  }

  /** What happens outside the model before a cycle: whether a stop was requested, and the environment the pass sees. */
  datatype Tick = Tick(stopRequested: bool, env: Env)

  /**
   * The cycles from `k` on, each pass starting from the desktop the
   * previous one left; a cycle with a stop request makes no pass.
   */
  function Run(d: Desktop, ticks: seq<Tick>, k: nat): (r: seq<CycleOutcome>)
    requires Valid(d) && k <= |ticks|
    ensures |r| == |ticks| - k
    ensures forall j :: 0 <= j < |r| ==> r[j].stopRequested == ticks[k + j].stopRequested
    ensures forall j :: 0 <= j < |r| && r[j].stopRequested ==> !r[j].enumSucceeded && !r[j].found && r[j].crash.None?
    ensures k < |ticks| && !ticks[k].stopRequested ==>
      && (r[0].found <==> FindsClient(d.windows, d.zorder))
      && (r[0].enumSucceeded <==> r[0].crash.None? && ReadableBefore(d.windows, d.zorder, |d.zorder|))
    decreases |ticks| - k
  {
    if k == |ticks| then []
    else if ticks[k].stopRequested then [CycleOutcome(true, false, false, None)] + Run(d, ticks, k + 1)
    else
      var p := EnumPass(d, d.zorder, ticks[k].env, false);
      [CycleOutcome(false, p.completed, p.found, p.crash)] + Run(p.desktop, ticks, k + 1)
  }

  /** No window qualifies: a pass leaves the desktop as it was and finds nothing. */
  lemma {:induction false} PassWithoutClientChangesNothing(d: Desktop, handles: seq<Handle>, env: Env)
    requires Valid(d)
    requires forall i :: 0 <= i < |handles| ==> !Qualifies(d.windows, handles[i])
    ensures var p := EnumPass(d, handles, env, false);
      p.desktop == d && !p.found && p.crash.None?
    decreases |handles|
  {
    if handles != [] {
      assert forall i :: 0 <= i < |handles| - 1 ==> handles[1..][i] == handles[i + 1];
      PassWithoutClientChangesNothing(d, handles[1..], env);
    }
  }

  /** With no client on the desktop the loop ends in its first cycle unless a stop came first. */
  lemma NoClientEndsFirstCycle(d: Desktop, ticks: seq<Tick>)
    requires Valid(d) && |ticks| > 0 && !ticks[0].stopRequested
    requires forall h :: h in d.zorder ==> !Qualifies(d.windows, h)
    ensures MainLoop(Run(d, ticks, 0), 0) == NoClientFound(0)
  {
    PassWithoutClientChangesNothing(d, d.zorder, ticks[0].env);
  }

  /** When the environment always yields a move (or no cursor), no callback throws. */
  lemma {:induction false} PassNeverCrashes(d: Desktop, handles: seq<Handle>, env: Env, found: bool)
    requires Valid(d)
    requires MovementFor(env).None? || MovementFor(env).value.Success?
    ensures EnumPass(d, handles, env, found).crash.None?
    decreases |handles|
  {
    if handles != [] {
      match Callback(d, handles[0], env)
      case Stop =>
      case Crash(f) =>
        assert false;
      case Continue(d', matched) =>
        PassNeverCrashes(d', handles[1..], env, found || matched);
    }
  }

  /** Every stacked window has a readable class and some stacked window is a client. */
  ghost predicate ClientStacked(d: Desktop) {
    && (forall h :: h in d.zorder ==> ClassReadable(d.windows, h))
    && (exists h :: h in d.zorder && Qualifies(d.windows, h))
  }

  /** When every window is readable, a qualifying window anywhere is found. */
  lemma {:induction false} ReadableHandlesFindClient(w: map<Handle, Window>, handles: seq<Handle>, h: Handle)
    requires forall x :: x in handles ==> ClassReadable(w, x)
    requires h in handles && Qualifies(w, h)
    ensures FindsClient(w, handles)
    decreases |handles|
  {
    if handles[0] != h {
      assert h in handles[1..];
      ReadableHandlesFindClient(w, handles[1..], h);
    }
  }

  /** One cycle on such a desktop finds the client, does not crash, and leaves a desktop of which the same holds. */
  lemma ClientPassKeepsClient(d: Desktop, env: Env)
    requires Valid(d) && ClientStacked(d)
    requires MovementFor(env).None? || MovementFor(env).value.Success?
    ensures var p := EnumPass(d, d.zorder, env, false);
      p.found && p.crash.None? && ClientStacked(p.desktop)
  {
    var h :| h in d.zorder && Qualifies(d.windows, h);
    ReadableHandlesFindClient(d.windows, d.zorder, h);
    PassNeverCrashes(d, d.zorder, env, false);
    var p := EnumPass(d, d.zorder, env, false);
    assert h in p.desktop.zorder;
  }

  /**
   * A cycle without a stop request runs one pass and hands its desktop to the
   * next cycle; a cycle with one hands on the desktop it was given.
   */
  lemma RunStep(d: Desktop, ticks: seq<Tick>, k: nat)
    requires Valid(d) && k < |ticks|
    ensures !ticks[k].stopRequested ==> var p := EnumPass(d, d.zorder, ticks[k].env, false);
      Run(d, ticks, k) == [CycleOutcome(false, p.completed, p.found, p.crash)] + Run(p.desktop, ticks, k + 1)
    ensures ticks[k].stopRequested ==> Run(d, ticks, k)[1..] == Run(d, ticks, k + 1)
  {
  }

  /** No cycle in `cycles` ends the loop. */
  predicate NoneEnds(cycles: seq<CycleOutcome>) {
    forall j :: 0 <= j < |cycles| ==> !EndsLoop(cycles[j])
  }

  lemma NoneEndsCons(c: CycleOutcome, tail: seq<CycleOutcome>)
    requires !EndsLoop(c) && NoneEnds(tail)
    ensures NoneEnds([c] + tail)
  {
  }

  /** A cycle on a desktop with a client, without a stop request or a failing move, finds it and keeps it. */
  lemma {:induction false} ClientCycle(d: Desktop, ticks: seq<Tick>, k: nat)
    requires Valid(d) && ClientStacked(d) && k < |ticks| && !ticks[k].stopRequested
    requires MovementFor(ticks[k].env).None? || MovementFor(ticks[k].env).value.Success?
    ensures var p := EnumPass(d, d.zorder, ticks[k].env, false);
      && Valid(p.desktop) && ClientStacked(p.desktop)
      && exists c :: !EndsLoop(c) && Run(d, ticks, k) == [c] + Run(p.desktop, ticks, k + 1)
  {
    var p := EnumPass(d, d.zorder, ticks[k].env, false);
    ClientPassKeepsClient(d, ticks[k].env);
    RunStep(d, ticks, k);
    var c := CycleOutcome(false, p.completed, p.found, p.crash);
    assert !EndsLoop(c);
  }

  /** On a desktop with a client, every cycle of a run without stop requests or failing moves finds it. */
  lemma {:induction false} RunKeepsFindingClient(d: Desktop, ticks: seq<Tick>, k: nat)
    requires Valid(d) && ClientStacked(d) && k <= |ticks|
    requires forall j :: k <= j < |ticks| ==> !ticks[j].stopRequested
    requires forall j :: k <= j < |ticks| ==> MovementFor(ticks[j].env).None? || MovementFor(ticks[j].env).value.Success?
    ensures NoneEnds(Run(d, ticks, k))
    decreases |ticks| - k
  {
    if k < |ticks| {
      ClientCycle(d, ticks, k);
      var next := EnumPass(d, d.zorder, ticks[k].env, false).desktop;
      var c :| !EndsLoop(c) && Run(d, ticks, k) == [c] + Run(next, ticks, k + 1);
      RunKeepsFindingClient(next, ticks, k + 1);
      NoneEndsCons(c, Run(next, ticks, k + 1));
    }
  }

  /**
   * As long as every stacked window has a readable class, some stacked
   * window is a client, and every cycle yields a move or no cursor, the
   * loop never ends on its own.
   */
  lemma LoopRunsWhileClientPresent(d: Desktop, ticks: seq<Tick>)
    requires Valid(d) && ClientStacked(d)
    requires forall j :: 0 <= j < |ticks| ==> !ticks[j].stopRequested
    requires forall j :: 0 <= j < |ticks| ==> MovementFor(ticks[j].env).None? || MovementFor(ticks[j].env).value.Success?
    ensures MainLoop(Run(d, ticks, 0), 0) == StillRunning
  {
    RunKeepsFindingClient(d, ticks, 0);
    assert NoneEnds(Run(d, ticks, 0));
    LoopEndsAtFirstEndingCycle(Run(d, ticks, 0), 0);
  }
}
