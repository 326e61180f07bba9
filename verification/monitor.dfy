/** A display monitor as the `Monitor` class builds it from a `MONITORINFOEX` record. */
module Monitors {
  import opened Wrappers
  import opened Int32
  import opened Rects

  /** An HMONITOR value; 0 is NULL. */
  type MonitorHandle = nat

  const NUL: char := 0 as char

  /** Length of the `szDevice` buffer, in UTF-16 units. */
  const DeviceNameLength: nat := 32

  /** `MONITOR_DEFAULTTOPRIMARY`, the flag the constructor tests; it is bit 0. */
  const MonitorDefaultToPrimaryBit: nat := 0

  /** MONITORINFOEX without its `cbSize` header, which only concerns marshalling. */
  datatype MonitorInfoEx = MonitorInfoEx(rcMonitor: Rect, rcWork: Rect, dwFlags: int32, szDevice: seq<char>)

  datatype Monitor = Monitor(bounds: Rect, workingArea: Rect, isPrimary: bool, name: string, handle: MonitorHandle)

  /** The record as `new MonitorInfoEx()` leaves it: zero rects, no flags, an all-NUL name. */
  function DefaultInfo(): MonitorInfoEx {
    MonitorInfoEx(Rect(0, 0, 0, 0), Rect(0, 0, 0, 0), 0, seq(DeviceNameLength, _ => NUL))
  }

  function Pow2(n: nat): (p: nat)
    ensures p >= 1
  {
    if n == 0 then 1 else 2 * Pow2(n - 1)
  }

  /** `(x & (1 << bit)) != 0` on a two's-complement int: the bit of the unsigned 32-bit view. */
  predicate BitSet(x: int32, bit: nat)
    requires bit < 32
  {
    ((x % Modulus) / Pow2(bit)) % 2 == 1
  }

  /** The low bit of a two's-complement int is set exactly when the int is odd, negative or not. */
  lemma LowBitIsParity(x: int32)
    ensures BitSet(x, 0) <==> x % 2 == 1
  {
    var u := x % Modulus;
    assert x == Modulus * (x / Modulus) + u;
    assert Modulus * (x / Modulus) == 2 * (0x8000_0000 * (x / Modulus));
  }

  /** `new string(buffer).TrimEnd(c)`: the buffer with every trailing `c` removed. */
  function TrimEnd(s: seq<char>, c: char): (r: string)
    ensures |r| <= |s| && r == s[..|r|]
    ensures |r| > 0 ==> r[|r| - 1] != c
    ensures forall i :: |r| <= i < |s| ==> s[i] == c
    decreases |s|
  {
    if |s| > 0 && s[|s| - 1] == c then TrimEnd(s[..|s| - 1], c) else s
  }

  /**
   * The private constructor. `filled` is the record after GetMonitorInfo:
   * None when that call failed and left the fresh record untouched (its
   * result is discarded).
   */
  function New(handle: MonitorHandle, filled: Option<MonitorInfoEx>): (m: Monitor)
    ensures var info := if filled.Some? then filled.value else DefaultInfo();
      && m.bounds == info.rcMonitor
      && m.workingArea == info.rcWork
      && (m.isPrimary <==> info.dwFlags % 2 == 1)
      && |m.name| <= |info.szDevice| && m.name == info.szDevice[..|m.name|]
      && (|m.name| > 0 ==> m.name[|m.name| - 1] != NUL)
      && (forall i :: |m.name| <= i < |info.szDevice| ==> info.szDevice[i] == NUL)
      && m.handle == handle
  {
    var info := if filled.Some? then filled.value else DefaultInfo();
    var mon, work := info.rcMonitor, info.rcWork;
    NewFromEdgesRoundTrip(mon.left, mon.top, mon.right, mon.bottom);
    NewFromEdgesRoundTrip(work.left, work.top, work.right, work.bottom);
    LowBitIsParity(info.dwFlags);
    Monitor(
      Rects.New(mon.left, mon.top, Wrap(mon.right - mon.left), Wrap(mon.bottom - mon.top)),
      Rects.New(work.left, work.top, Wrap(work.right - work.left), Wrap(work.bottom - work.top)),
      BitSet(info.dwFlags, MonitorDefaultToPrimaryBit),
      TrimEnd(info.szDevice, NUL),
      handle)
  }

  /** A monitor whose information could not be read has empty bounds, no primary flag and an empty name. */
  lemma UnreadMonitorIsBlank(handle: MonitorHandle)
    ensures var m := New(handle, None);
      m.bounds == Rect(0, 0, 0, 0) && m.workingArea == Rect(0, 0, 0, 0) && !m.isPrimary && m.name == ""
  {
  }
}
