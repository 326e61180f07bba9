/** Values shared by both revisions of the keep-alive logic. */
module Clients {
  import opened Int32

  /** The matched client window, identified by its class name and title. */
  datatype Client = Client(className: string, windowTitle: string)

  /** Window classes of the known remote-desktop clients: MSTSC.EXE and Sysinternals RDCMan. */
  const RdpClients: seq<string> := [
    "TscShellContainerClass",
    "WindowsForms10.Window.8.app.0.1d2098a_r8_ad1"
  ]

  /**
   * The exceptions a cycle can end with: KeepAliveException for an
   * unreadable cursor or a rejected SendInput, the runtime's arithmetic
   * exceptions, and ArgumentException from `Contains`.
   */
  datatype Fault =
    | CursorUnavailable
    | SendInputRejected
    | Arithmetic(fault: ArithmeticFault)
    | InvalidArgument
}
