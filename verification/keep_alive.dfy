/**
 * The `KeepAlive` revision: detect the client by an exact class match, then
 * run one snapshot / raise / send / restore cycle against it.
 */
module KeepAlive {
  import opened Wrappers
  import opened Int32
  import opened ZOrder
  import opened WindowManager
  import opened Clients
  import MouseMovement

  const ClassNameCapacity: nat := 128
  const WindowTitleCapacity: nat := 128

  /** The flags RestoreSnapshot passes to SetWindowPos: change the Z-order only. */
  const RestoreFlags: bv32 := NoMove | NoSize | NoActivate

  /** Why a text read produced no text: the native call returned 0, or the buffer held no NUL and slicing it threw. */
  datatype ReadFault = ReadReturnedZero | NoTerminator

  /** The saved desktop state: who had the focus, whether the client lacked it, and the window it sat below. */
  datatype Snapshot = Snapshot(originalForeground: Handle, clientIsNotTopmost: bool, windowInFront: Handle)

  /** How a call ends: normally, by throwing, or never (the desktop as it was when the call stopped making progress). */
  datatype Outcome = Returned(desktop: Desktop) | Threw(fault: Fault, desktop: Desktop) | Hangs(desktop: Desktop)

  /** Result of the walk toward the top of the Z-order. */
  datatype Walk = Found(window: Handle) | Diverges

  /**
   * The tail of TryGetWindowClass / TryGetWindowTitle once the native call
   * has filled the cleared buffer: failure when it returned 0, otherwise
   * the characters before the first NUL.
   */
  function DecodeBuffer(read: NativeRead): (r: Result<string, ReadFault>)
    ensures r == Failure(ReadReturnedZero) <==> read.count == 0
    ensures r == Failure(NoTerminator) <==> read.count != 0 && NUL !in read.buffer
    ensures r.Success? ==>
      && NoNul(r.value)
      && |r.value| < |read.buffer|
      && r.value == read.buffer[..|r.value|]
      && read.buffer[|r.value|] == NUL
    ensures r.Success? && read.buffer[0] == NUL ==> r.value == ""
  {
    if read.count == 0 then Failure(ReadReturnedZero)
    else
      var k := IndexOfNul(read.buffer);
      if k != 0 then
        if k < 0 then Failure(NoTerminator) else Success(read.buffer[..k])
      else Success("")
  }

  function TryGetWindowClass(d: Desktop, h: Handle): Result<string, ReadFault> {
    DecodeBuffer(GetClassName(d, h, ClassNameCapacity))
  }

  function TryGetWindowTitle(d: Desktop, h: Handle): Result<string, ReadFault> {
    DecodeBuffer(GetWindowText(d, h, WindowTitleCapacity))
  }

  /** Text read back from a 128-character buffer is the window's text cut to 127 characters, and the read fails only on empty text or a dead handle. */
  lemma ReadRecoversText(text: string, capacity: nat)
    requires capacity > 1 && NoNul(text)
    ensures text == [] ==> DecodeBuffer(CopyText(text, capacity)) == Failure(ReadReturnedZero)
    ensures text != [] ==> DecodeBuffer(CopyText(text, capacity)) == Success(Truncate(text, capacity - 1))
  {
    var read := CopyText(text, capacity);
    if text != [] {
      var n := read.count;
      assert read.buffer[..n] == text[..n];
      assert NUL !in read.buffer[..n] by {
        assert forall c :: c in text[..n] ==> c in text;
      }
      FirstNulIsFirst(read.buffer, n);
      assert n != 0;
      assert DecodeBuffer(read) == Success(read.buffer[..n]);
      assert Truncate(text, capacity - 1) == text[..n];
    }
  }

  lemma FirstNulIsFirst(buffer: seq<char>, n: nat)
    requires n < |buffer| && buffer[n] == NUL && NUL !in buffer[..n]
    ensures IndexOfNul(buffer) == n
  {
  }

  lemma WindowReadsRecoverText(d: Desktop, h: Handle)
    requires Valid(d)
    ensures h !in d.windows ==> TryGetWindowClass(d, h) == Failure(ReadReturnedZero)
    ensures h !in d.windows ==> TryGetWindowTitle(d, h) == Failure(ReadReturnedZero)
    ensures h in d.windows && d.windows[h].className != [] ==>
      TryGetWindowClass(d, h) == Success(Truncate(d.windows[h].className, ClassNameCapacity - 1))
    ensures h in d.windows && d.windows[h].title != [] ==>
      TryGetWindowTitle(d, h) == Success(Truncate(d.windows[h].title, WindowTitleCapacity - 1))
    ensures TryGetWindowClass(d, h) != Failure(NoTerminator) && TryGetWindowTitle(d, h) != Failure(NoTerminator)
  {
    if h in d.windows {
      ReadRecoversText(d.windows[h].className, ClassNameCapacity);
      ReadRecoversText(d.windows[h].title, WindowTitleCapacity);
    }
  }

  function MatchesAny(names: seq<string>, name: string): (r: bool)
    ensures r <==> name in names
  {
    if names == [] then false else names[0] == name || MatchesAny(names[1..], name)
  }

  /** `IsRdpClientClass`: ordinal, case-sensitive equality with one of the known class names. */
  function IsRdpClientClass(className: string): (r: bool)
    ensures r <==> className in RdpClients
  {
    MatchesAny(RdpClients, className)
  }

  /** Letter case matters in this revision. */
  lemma ClassMatchIsCaseSensitive()
    ensures IsRdpClientClass("TscShellContainerClass")
    ensures !IsRdpClientClass("tscshellcontainerclass")
  {
    assert "tscshellcontainerclass"[0] != "TscShellContainerClass"[0];
    assert "tscshellcontainerclass"[0] != RdpClients[1][0];
  }

  /** The callback stops at `h`: both texts read and the class is a known one. */
  predicate IsRdpWindow(d: Desktop, h: Handle) {
    && TryGetWindowClass(d, h).Success?
    && TryGetWindowTitle(d, h).Success?
    && IsRdpClientClass(TryGetWindowClass(d, h).value)
  }

  /** The client `EnumRDPWindowsProc` records for a window it stops at. */
  function ClientOf(d: Desktop, h: Handle): Client
    requires IsRdpWindow(d, h)
  {
    Client(TryGetWindowClass(d, h).value, TryGetWindowTitle(d, h).value)
  }

  /** Where EnumWindows ends when driven by `EnumRDPWindowsProc`, starting at position `from`. */
  function EnumRdpWindowsFrom(d: Desktop, from: nat): (k: Option<nat>)
    requires from <= |d.zorder|
    ensures k.Some? ==> from <= k.value < |d.zorder| && IsRdpWindow(d, d.zorder[k.value])
    ensures k.Some? ==> forall j :: from <= j < k.value ==> !IsRdpWindow(d, d.zorder[j])
    ensures k.None? <==> forall j :: from <= j < |d.zorder| ==> !IsRdpWindow(d, d.zorder[j])
    decreases |d.zorder| - from
  {
    if from == |d.zorder| then None
    else if IsRdpWindow(d, d.zorder[from]) then Some(from)
    else EnumRdpWindowsFrom(d, from + 1)
  }

  /**
   * `TryGetRDPClient`: whether some top-level window is a known client and,
   * if so, the first one in enumeration order. When nothing is found the
   * client returned is whatever an earlier call left in the static field.
   */
  function TryGetRDPClient(d: Desktop, previous: Client): (r: (bool, Client))
    ensures !r.0 ==> r.1 == previous
  {
    match EnumRdpWindowsFrom(d, 0)
    case Some(i) => (true, ClientOf(d, d.zorder[i]))
    case None => (false, previous)
  }

  /** TryGetRDPClient succeeds exactly when some top-level window is a client. */
  lemma TryGetRDPClientSucceedsIffClient(d: Desktop, previous: Client)
    ensures TryGetRDPClient(d, previous).0 <==> exists i :: 0 <= i < |d.zorder| && IsRdpWindow(d, d.zorder[i])
  {
    match EnumRdpWindowsFrom(d, 0)
    case Some(i) =>
      assert 0 <= i < |d.zorder| && IsRdpWindow(d, d.zorder[i]);
    case None =>
  }

  /** On success TryGetRDPClient reports the first client in enumeration order. */
  lemma TryGetRDPClientFindsFirst(d: Desktop, previous: Client)
    ensures var r := TryGetRDPClient(d, previous);
      r.0 ==>
        exists i ::
          && 0 <= i < |d.zorder|
          && IsRdpWindow(d, d.zorder[i])
          && (forall j :: 0 <= j < i ==> !IsRdpWindow(d, d.zorder[j]))
          && r.1 == ClientOf(d, d.zorder[i])
  {
    var k := EnumRdpWindowsFrom(d, 0);
    if k.Some? {
      var i := k.value;
      assert TryGetRDPClient(d, previous) == (true, ClientOf(d, d.zorder[i]));
    }
  }

  /** A window whose title cannot be read is passed over even when its class is a known one. */
  lemma UntitledClientIsSkipped(d: Desktop, h: Handle)
    requires Valid(d) && h in d.windows && d.windows[h].className in RdpClients && d.windows[h].title == []
    ensures !IsRdpWindow(d, h)
  {
    WindowReadsRecoverText(d, h);
  }

  /**
   * The process-id test of the walk: a window whose owner reads as 0 (a
   * fresh variable the query leaves alone) or as the client's own process is
   * stepped over.
   */
  predicate Skipped(d: Desktop, h: Handle, pidClient: nat) {
    var pid := GetWindowThreadProcessId(d, h, 0);
    pid == 0 || pid == pidClient
  }

  /**
   * The walk GetWindowInFront means: from `next` upward, the first window
   * that is not skipped. Past the top of the Z-order it never ends.
   */
  function WalkUp(d: Desktop, next: Handle, pidClient: nat): (r: Walk)
    requires Valid(d) && next in d.zorder
    ensures r.Found? ==> r.window in d.zorder && IndexOf(d.zorder, r.window) < IndexOf(d.zorder, next)
    ensures r.Found? ==> !Skipped(d, r.window, pidClient)
    ensures r.Found? ==> forall j :: IndexOf(d.zorder, r.window) < j < IndexOf(d.zorder, next) ==> Skipped(d, d.zorder[j], pidClient)
    ensures r.Diverges? <==> forall j :: 0 <= j < IndexOf(d.zorder, next) ==> Skipped(d, d.zorder[j], pidClient)
    decreases IndexOf(d.zorder, next)
  {
    var prev := PreviousWindow(d, next);
    if prev == NullHandle then Diverges
    else
      var i := IndexOf(d.zorder, next);
      IndexOfDistinct(d.zorder, i - 1);
      if Skipped(d, prev, pidClient) then
        var r := WalkUp(d, prev, pidClient);
        WalkStep(d, pidClient, i, r);
        r
      else
        WalkStops(d, pidClient, i);
        Found(prev)
  }

  /** A window that is not skipped, directly above the start, ends the walk there. */
  lemma WalkStops(d: Desktop, pidClient: nat, i: nat)
    requires Valid(d) && 0 < i < |d.zorder|
    requires !Skipped(d, d.zorder[i - 1], pidClient)
    ensures !forall j :: 0 <= j < i ==> Skipped(d, d.zorder[j], pidClient)
  {
  }

  /** One more skipped window below the part already walked extends what the walk promises. */
  lemma WalkStep(d: Desktop, pidClient: nat, i: nat, r: Walk)
    requires Valid(d) && 0 < i < |d.zorder|
    requires Skipped(d, d.zorder[i - 1], pidClient)
    requires r.Found? ==> r.window in d.zorder && IndexOf(d.zorder, r.window) < i - 1
    requires r.Found? ==> forall j :: IndexOf(d.zorder, r.window) < j < i - 1 ==> Skipped(d, d.zorder[j], pidClient)
    requires r.Diverges? <==> forall j :: 0 <= j < i - 1 ==> Skipped(d, d.zorder[j], pidClient)
    ensures r.Found? ==> forall j :: IndexOf(d.zorder, r.window) < j < i ==> Skipped(d, d.zorder[j], pidClient)
    ensures r.Diverges? <==> forall j :: 0 <= j < i ==> Skipped(d, d.zorder[j], pidClient)
  {
  }

  /**
   * The loop of GetWindowInFront as written: `pidNext` is carried from one
   * iteration to the next, and the loop goes on while it is 0 or the
   * client's. Once GetWindow returns NULL, the query on NULL fails and keeps
   * `pidNext`, GetWindow(NULL) is NULL again, and the loop never exits.
   */
  function WalkCarryingPid(d: Desktop, next: Handle, pidClient: nat, pidNext: nat): Walk
    requires Valid(d) && next in d.zorder && (pidNext == 0 || pidNext == pidClient)
    decreases IndexOf(d.zorder, next)
  {
    var prev := PreviousWindow(d, next);
    var pid := GetWindowThreadProcessId(d, prev, pidNext);
    if !(pid == 0 || pid == pidClient) then Found(prev)
    else if prev == NullHandle then Diverges
    else
      IndexOfDistinct(d.zorder, IndexOf(d.zorder, next) - 1);
      WalkCarryingPid(d, prev, pidClient, pid)
  }

  /** Carrying the previous process id through failed queries walks exactly as WalkUp does. */
  lemma {:induction false} CarriedPidWalkIsWalkUp(d: Desktop, next: Handle, pidClient: nat, pidNext: nat)
    requires Valid(d) && next in d.zorder && (pidNext == 0 || pidNext == pidClient)
    ensures WalkCarryingPid(d, next, pidClient, pidNext) == WalkUp(d, next, pidClient)
    decreases IndexOf(d.zorder, next)
  {
    var prev := PreviousWindow(d, next);
    if prev != NullHandle {
      IndexOfDistinct(d.zorder, IndexOf(d.zorder, next) - 1);
      var pid := GetWindowThreadProcessId(d, prev, pidNext);
      if Skipped(d, prev, pidClient) {
        CarriedPidWalkIsWalkUp(d, prev, pidClient, pid);
      }
    }
  }

  /**
   * `GetWindowInFront`: the nearest window above the client owned by a
   * known process other than the client's; Diverges when there is none.
   */
  function GetWindowInFront(d: Desktop, client: Handle, pidClient: nat): (r: Walk)
    requires Valid(d) && client in d.zorder
    ensures r == WalkUp(d, client, pidClient)
  {
    CarriedPidWalkIsWalkUp(d, client, pidClient, 0);
    WalkCarryingPid(d, client, pidClient, 0)
  }

  /** `TakeSnapshot`; None when GetWindowInFront never returns. */
  function TakeSnapshot(d: Desktop, client: Handle): (r: Option<Snapshot>)
    requires Valid(d) && client in d.zorder
    ensures r.Some? ==> r.value.originalForeground == d.foreground
    ensures r.Some? ==> (r.value.clientIsNotTopmost <==> d.foreground != client)
    ensures r.Some? && r.value.clientIsNotTopmost ==>
      GetWindowInFront(d, client, GetWindowThreadProcessId(d, client, 0)) == Found(r.value.windowInFront)
    ensures r.None? <==>
      d.foreground != client && GetWindowInFront(d, client, GetWindowThreadProcessId(d, client, 0)).Diverges?
  {
    var original := d.foreground;
    if original == client then Some(Snapshot(original, false, NullHandle))
    else
      match GetWindowInFront(d, client, GetWindowThreadProcessId(d, client, 0))
      case Found(w) => Some(Snapshot(original, true, w))
      case Diverges => None
  }

  /**
   * `ProcessMouseMovement`: a client without the focus is first raised to the
   * top with it; then the move is queued for the window holding the focus,
   * or, when SendInput refuses it, the cycle throws with nothing queued.
   */
  function ProcessMouseMovement(d: Desktop, client: Handle, input: Input, snapshot: Snapshot, accepted: bool): (o: Outcome)
    requires Valid(d)
    ensures Valid(o.desktop) && o.desktop.windows == d.windows
    ensures o.Returned? <==> accepted
    ensures !accepted ==> o == Threw(SendInputRejected, o.desktop) && o.desktop.inputs == d.inputs
    ensures accepted ==> o.desktop.inputs == d.inputs + [Submission(input, o.desktop.foreground)]
    ensures snapshot.clientIsNotTopmost && client in d.zorder ==>
      o.desktop.foreground == client && o.desktop.zorder == [client] + Remove(d.zorder, client)
    ensures !(snapshot.clientIsNotTopmost && client in d.zorder) ==>
      o.desktop.foreground == d.foreground && o.desktop.zorder == d.zorder
  {
    var raised := if snapshot.clientIsNotTopmost then SetForegroundWindow(d, client) else d;
    if accepted then Returned(SendInput(raised, input)) else Threw(SendInputRejected, raised)
  }

  /**
   * `RestoreSnapshot`: for a client that lacked the focus, the focus goes
   * back to the window that had it, and only then is the client slid
   * directly under its former neighbour without taking the focus.
   */
  function RestoreSnapshot(d: Desktop, client: Handle, snapshot: Snapshot): (d': Desktop)
    requires Valid(d)
    ensures Valid(d') && d'.windows == d.windows && d'.inputs == d.inputs
    ensures !snapshot.clientIsNotTopmost ==> d' == d
    ensures snapshot.clientIsNotTopmost ==>
      d'.foreground == (if snapshot.originalForeground in d.zorder then snapshot.originalForeground else d.foreground)
    ensures (snapshot.clientIsNotTopmost && client in d.zorder && snapshot.windowInFront in d.zorder
             && client != snapshot.windowInFront) ==>
      && client in d'.zorder && snapshot.windowInFront in d'.zorder
      && IndexOf(d'.zorder, client) == IndexOf(d'.zorder, snapshot.windowInFront) + 1
      && Remove(d'.zorder, client) == Remove(Refocused(d.zorder, snapshot.originalForeground), client)
  {
    if !snapshot.clientIsNotTopmost then d
    else
      var refocused := SetForegroundWindow(d, snapshot.originalForeground);
      SetWindowPos(refocused, client, snapshot.windowInFront, RestoreFlags)
  }

  /** The stacking order after the focus is handed to `f`: `f` on top when it is stacked, else unchanged. */
  function Refocused(z: seq<Handle>, f: Handle): seq<Handle> {
    if f in z then [f] + Remove(z, f) else z
  }

  /** `TryGetMouseMovementParams`: the move, or the reason there is none. */
  function TryGetMouseMovementParams(env: Env): (r: Result<Input, Fault>)
    ensures env.cursor.None? <==> r == Failure(CursorUnavailable)
    ensures env.cursor.Some? ==> match MouseMovement.GetMouseMovement(env.cursor.value, env.screenWidth, env.screenHeight)
      case Success(input) => r == Success(input)
      case Failure(f) => r == Failure(Arithmetic(f))
  {
    match env.cursor
    case None => Failure(CursorUnavailable)
    case Some(p) =>
      match MouseMovement.GetMouseMovement(p, env.screenWidth, env.screenHeight)
      case Success(input) => Success(input)
      case Failure(f) => Failure(Arithmetic(f))
  }

  /** `Execute`: one keep-alive cycle for the client found earlier. */
  function Execute(d: Desktop, client: Client, env: Env): (o: Outcome)
    requires Valid(d)
    ensures Valid(o.desktop) && o.desktop.windows == d.windows
  {
    var h := FindWindowEx(d, client.className, client.windowTitle);
    if h == NullHandle then Returned(d)
    else
      match TryGetMouseMovementParams(env)
      case Failure(f) => Threw(f, d)
      case Success(input) =>
        match TakeSnapshot(d, h)
        case None => Hangs(d)
        case Some(snapshot) =>
          match ProcessMouseMovement(d, h, input, snapshot, env.sendInputSucceeds)
          case Returned(sent) => Returned(RestoreSnapshot(sent, h, snapshot))
          case Threw(f, raised) => Threw(f, raised)
          case Hangs(stuck) => Hangs(stuck)
  }
}
