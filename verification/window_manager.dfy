/**
 * The window manager as seen through the native calls the tool makes: an
 * immutable desktop state and one pure function per call. Each function
 * follows the contract the call's documentation gives; everything else the
 * operating system does is outside the model.
 */
module WindowManager {
  import opened Wrappers
  import opened Int32
  import opened ZOrder
  import Ascii

  const NUL: char := 0 as char

  /** `InputType.INPUT_MOUSE`. */
  const InputMouse: nat := 0

  /** `MouseEventFlags`. */
  const MOVE: bv32 := 0x0001
  const ABSOLUTE: bv32 := 0x8000

  /** `SetWindowPosFlags`. */
  const NoSize: bv32 := 0x0001
  const NoMove: bv32 := 0x0002
  const NoActivate: bv32 := 0x0010

  datatype Point = Point(x: int32, y: int32)

  datatype MouseInput = MouseInput(dx: int32, dy: int32, mouseData: nat, dwFlags: bv32, time: nat, dwExtraInfo: nat)

  datatype Input = Input(inputType: nat, mi: MouseInput)

  /** What the window manager knows about one top-level window. */
  datatype Window = Window(className: string, title: string, pid: nat)

  /** An input accepted by SendInput, with the window that had the focus when it was queued. */
  datatype Submission = Submission(input: Input, foreground: Handle)

  /**
   * The desktop: the Z-order (topmost first), the foreground window (NULL
   * when none), every live window by handle, and the inputs queued so far.
   */
  datatype Desktop = Desktop(zorder: seq<Handle>, foreground: Handle, windows: map<Handle, Window>, inputs: seq<Submission>)

  /**
   * The answers of calls whose results the model takes as given: the cursor
   * position (None when GetCursorPos fails), the two screen metrics, and
   * whether SendInput accepts the event.
   */
  datatype Env = Env(cursor: Option<Point>, screenWidth: int32, screenHeight: int32, sendInputSucceeds: bool)

  predicate NoNul(s: string) {
    NUL !in s
  }

  /** Handles are unique and never NULL; the foreground is NULL or stacked; window text holds no NUL. */
  predicate Valid(d: Desktop) {
    && Distinct(d.zorder)
    && NullHandle !in d.zorder
    && NullHandle !in d.windows
    && (d.foreground == NullHandle || d.foreground in d.zorder)
    && forall h :: h in d.windows ==> NoNul(d.windows[h].className) && NoNul(d.windows[h].title)
  }

  /** The same windows exist before and after, stacked in some order. */
  ghost predicate SameWindows(d: Desktop, d': Desktop) {
    && d'.windows == d.windows
    && forall x :: x in d'.zorder <==> x in d.zorder
  }

  function IndexOfNulFrom(buffer: seq<char>, from: nat): (k: int)
    requires from <= |buffer|
    ensures k == -1 <==> NUL !in buffer[from..]
    ensures k != -1 ==> from <= k < |buffer| && buffer[k] == NUL && NUL !in buffer[from..k]
    decreases |buffer| - from
  {
    if from == |buffer| then -1
    else if buffer[from] == NUL then from
    else
      var k := IndexOfNulFrom(buffer, from + 1);
      assert buffer[from..] == [buffer[from]] + buffer[from + 1..];
      assert k != -1 ==> buffer[from..k] == [buffer[from]] + buffer[from + 1..k];
      k
  }

  /** `Array.IndexOf(buffer, '\0')`: the first NUL, or -1 when there is none. */
  function IndexOfNul(buffer: seq<char>): (k: int)
    ensures k == -1 <==> NUL !in buffer
    ensures k != -1 ==> 0 <= k < |buffer| && buffer[k] == NUL && NUL !in buffer[..k]
  {
    assert buffer[0..] == buffer;
    IndexOfNulFrom(buffer, 0)
  }

  /** The first `n` characters of `text`, or all of it when shorter. */
  function Truncate(text: string, n: nat): string {
    if |text| <= n then text else text[..n]
  }

  /** The answer of GetClassName or GetWindowText: the returned count and the caller's buffer afterwards. */
  datatype NativeRead = NativeRead(count: nat, buffer: seq<char>)

  /**
   * Copying window text into a cleared buffer of `capacity` characters: at
   * most `capacity - 1` characters are copied, then a terminating NUL; the
   * count excludes the terminator.
   */
  function CopyText(text: string, capacity: nat): (r: NativeRead)
    requires capacity > 0
    ensures |r.buffer| == capacity && r.count < capacity
    ensures r.count == |text| || (r.count == capacity - 1 && |text| >= capacity)
    ensures r.buffer[..r.count] == text[..r.count]
    ensures forall i :: r.count <= i < capacity ==> r.buffer[i] == NUL
  {
    var n := if |text| < capacity then |text| else capacity - 1;
    NativeRead(n, text[..n] + seq(capacity - n, _ => NUL))
  }

  /** `GetClassName(hWnd, buffer, capacity)`; 0 for a handle that names no window. */
  function GetClassName(d: Desktop, h: Handle, capacity: nat): NativeRead
    requires capacity > 0
  {
    if h in d.windows then CopyText(d.windows[h].className, capacity)
    else NativeRead(0, seq(capacity, _ => NUL))
  }

  /** `GetWindowText(hWnd, buffer, capacity)`; 0 for an empty title or a dead handle. */
  function GetWindowText(d: Desktop, h: Handle, capacity: nat): NativeRead
    requires capacity > 0
  {
    if h in d.windows then CopyText(d.windows[h].title, capacity)
    else NativeRead(0, seq(capacity, _ => NUL))
  }

  /**
   * `GetWindowThreadProcessId(h, out pid)`: the caller's variable after the
   * call, given its value `pid` before. The call fails for a handle that
   * names no window, NULL included, and then leaves the variable unchanged.
   */
  function GetWindowThreadProcessId(d: Desktop, h: Handle, pid: nat): nat {
    if h in d.windows then d.windows[h].pid else pid
  }

  /**
   * `GetWindow(h, GW_HWNDPREV)`, the command numbered 3: the window directly
   * above `h`, or NULL when there is none.
   */
  function PreviousWindow(d: Desktop, h: Handle): (p: Handle)
    requires Valid(d)
    ensures p != NullHandle ==>
      h in d.zorder && IndexOf(d.zorder, h) > 0 && p == d.zorder[IndexOf(d.zorder, h) - 1]
    ensures p == NullHandle ==> h !in d.zorder || IndexOf(d.zorder, h) == 0
  {
    if h in d.zorder && IndexOf(d.zorder, h) > 0 then d.zorder[IndexOf(d.zorder, h) - 1] else NullHandle
  }

  /** A window whose class and title equal the given strings, ignoring case as the window manager does. */
  predicate WindowMatches(d: Desktop, h: Handle, className: string, title: string) {
    && h in d.windows
    && Ascii.EqualsIgnoreCase(d.windows[h].className, className)
    && Ascii.EqualsIgnoreCase(d.windows[h].title, title)
  }

  function FindFrom(d: Desktop, className: string, title: string, from: nat): (h: Handle)
    requires Valid(d) && from <= |d.zorder|
    ensures h != NullHandle ==> h in d.zorder && from <= IndexOf(d.zorder, h)
    ensures h != NullHandle ==> WindowMatches(d, h, className, title)
    ensures h != NullHandle ==>
      forall j :: from <= j < IndexOf(d.zorder, h) ==> !WindowMatches(d, d.zorder[j], className, title)
    ensures h == NullHandle <==> forall j :: from <= j < |d.zorder| ==> !WindowMatches(d, d.zorder[j], className, title)
    decreases |d.zorder| - from
  {
    if from == |d.zorder| then NullHandle
    else if WindowMatches(d, d.zorder[from], className, title) then
      IndexOfDistinct(d.zorder, from);
      d.zorder[from]
    else FindFrom(d, className, title, from + 1)
  }

  /** `FindWindowExW(NULL, NULL, className, title)`: the topmost matching top-level window, or NULL. */
  function FindWindowEx(d: Desktop, className: string, title: string): (h: Handle)
    requires Valid(d)
    ensures h != NullHandle ==> h in d.zorder && WindowMatches(d, h, className, title)
    ensures h != NullHandle ==>
      forall j :: 0 <= j < IndexOf(d.zorder, h) ==> !WindowMatches(d, d.zorder[j], className, title)
    ensures h == NullHandle <==> forall j :: 0 <= j < |d.zorder| ==> !WindowMatches(d, d.zorder[j], className, title)
  {
    FindFrom(d, className, title, 0)
  }

  /**
   * `SetForegroundWindow(h)`, taken as raising `h` to the top of the Z-order
   * and giving it the focus; it does nothing for NULL or a handle that is not
   * a top-level window.
   */
  function SetForegroundWindow(d: Desktop, h: Handle): (d': Desktop)
    requires Valid(d)
    ensures SameWindows(d, d')
    ensures Valid(d') && d'.windows == d.windows && d'.inputs == d.inputs
    ensures h in d.zorder ==>
      d'.foreground == h && d'.zorder[0] == h && Remove(d'.zorder, h) == Remove(d.zorder, h)
    ensures h in d.zorder ==> d'.zorder == [h] + Remove(d.zorder, h)
    ensures h !in d.zorder ==> d' == d
  {
    if h in d.zorder then
      var rest := Remove(d.zorder, h);
      RemoveKeepsDistinct(d.zorder, h);
      RemoveConcat([h], rest, h);
      RemoveTwice(d.zorder, h);
      d.(zorder := [h] + rest, foreground := h)
    else d
  }

  /**
   * `SetWindowPos(h, after, 0, 0, 0, 0, flags)` with NoMove and NoSize:
   * `h` is placed directly below `after`; without NoActivate it also takes
   * the focus. It does nothing unless both are distinct stacked windows.
   */
  function SetWindowPos(d: Desktop, h: Handle, after: Handle, flags: bv32): (d': Desktop)
    requires Valid(d)
    ensures SameWindows(d, d')
    ensures Valid(d') && d'.windows == d.windows && d'.inputs == d.inputs
    ensures h in d.zorder && after in d.zorder && h != after ==>
      && h in d'.zorder && after in d'.zorder
      && IndexOf(d'.zorder, h) == IndexOf(d'.zorder, after) + 1
      && Remove(d'.zorder, h) == Remove(d.zorder, h)
      && d'.foreground == (if flags & NoActivate == 0 then h else d.foreground)
      && d'.zorder == InsertAfter(Remove(d.zorder, h), after, h)
    ensures !(h in d.zorder && after in d.zorder && h != after) ==> d' == d
  {
    if h in d.zorder && after in d.zorder && h != after then
      var rest := Remove(d.zorder, h);
      var z := InsertAfter(rest, after, h);
      RemoveKeepsDistinct(d.zorder, h);
      InsertKeepsDistinct(rest, after, h);
      RemoveInserted(rest, after, h);
      IndexOfDistinct(z, IndexOf(rest, after));
      IndexOfDistinct(z, IndexOf(rest, after) + 1);
      d.(zorder := z, foreground := if flags & NoActivate == 0 then h else d.foreground)
    else d
  }

  /** `SendInput` accepting one event: it is queued for whichever window has the focus. */
  function SendInput(d: Desktop, input: Input): (d': Desktop)
    requires Valid(d)
    ensures SameWindows(d, d')
    ensures Valid(d') && d'.inputs == d.inputs + [Submission(input, d.foreground)]
    ensures d'.zorder == d.zorder && d'.foreground == d.foreground && d'.windows == d.windows
  {
    d.(inputs := d.inputs + [Submission(input, d.foreground)])
  }
}
