/**
 * The two revisions side by side: the `Program` callback accepts every
 * window the `KeepAlive` callback stops at, and also windows whose class
 * differs from a known one only in letter case.
 */
module Revisions {
  import opened Wrappers
  import opened ZOrder
  import opened WindowManager
  import opened Clients
  import Ascii
  import KeepAlive
  import Program

  /** A read class is a window's class cut to 127 characters; a known class is shorter than that. */
  lemma ShortClassReadsWhole(d: Desktop, h: Handle)
    requires Valid(d) && h in d.windows && d.windows[h].className != [] && |d.windows[h].className| <= 127
    ensures KeepAlive.TryGetWindowClass(d, h) == Success(d.windows[h].className)
  {
    KeepAlive.WindowReadsRecoverText(d, h);
  }

  /** Every window the exact-match revision detects is also a client to the case-insensitive one. */
  lemma KeepAliveMatchIsProgramMatch(d: Desktop, h: Handle)
    requires Valid(d) && KeepAlive.IsRdpWindow(d, h)
    ensures Program.Qualifies(d.windows, h)
  {
    KeepAlive.WindowReadsRecoverText(d, h);
    assert h in d.windows;
    KeepAlive.ReadRecoversText(d.windows[h].className, KeepAlive.ClassNameCapacity);
    KeepAlive.ReadRecoversText(d.windows[h].title, KeepAlive.WindowTitleCapacity);
    var cls := KeepAlive.TryGetWindowClass(d, h).value;
    assert cls in RdpClients && Ascii.EqualsIgnoreCase(cls, cls);
  }

  /** A known class written in other letter case is a client only to the `Program` revision. */
  lemma CaseVariantOnlyMatchedByProgram(d: Desktop, h: Handle, known: string)
    requires Valid(d) && h in d.windows && d.windows[h].title != []
    requires known in RdpClients && Ascii.EqualsIgnoreCase(known, d.windows[h].className)
    requires d.windows[h].className !in RdpClients
    ensures Program.Qualifies(d.windows, h)
    ensures !KeepAlive.IsRdpWindow(d, h)
  {
    var cls := d.windows[h].className;
    assert |cls| == |known| <= 127;
    ShortClassReadsWhole(d, h);
    assert Truncate(cls, Program.ClassNameCapacity - 1) == cls;
  }
}
