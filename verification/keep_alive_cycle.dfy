/**
 * What one `KeepAlive.Execute` cycle does to the desktop, path by path:
 * the early exits, the throws, the hang, and the restoring cycle.
 */
module KeepAliveCycle {
  import opened Wrappers
  import opened Int32
  import opened ZOrder
  import opened WindowManager
  import opened Clients
  import opened KeepAlive

  /** The window `Execute` locates for `client`. */
  function Target(d: Desktop, client: Client): Handle
    requires Valid(d)
  {
    FindWindowEx(d, client.className, client.windowTitle)
  }

  /** No matching window: Execute returns and nothing changes. */
  lemma ClientMissingChangesNothing(d: Desktop, client: Client, env: Env)
    requires Valid(d) && Target(d, client) == NullHandle
    ensures Execute(d, client, env) == Returned(d)
  {
  }

  /** An unreadable cursor throws before any snapshot or focus change. */
  lemma UnreadableCursorThrowsFirst(d: Desktop, client: Client, env: Env)
    requires Valid(d) && Target(d, client) != NullHandle && env.cursor.None?
    ensures Execute(d, client, env) == Threw(CursorUnavailable, d)
  {
  }

  /** A screen width of 0 divides by zero, again before anything changes. */
  lemma ZeroScreenWidthThrows(d: Desktop, client: Client, env: Env)
    requires Valid(d) && Target(d, client) != NullHandle && env.cursor.Some? && env.screenWidth == 0
    ensures Execute(d, client, env) == Threw(Arithmetic(DivideByZero), d)
  {
  }

  /**
   * With the client in the background and every window above it owned by
   * no process or by the client's own, the walk never ends.
   */
  lemma NoNeighbourHangs(d: Desktop, client: Client, env: Env)
    requires Valid(d)
    requires var h := Target(d, client);
      && h != NullHandle
      && d.foreground != h
      && TryGetMouseMovementParams(env).Success?
      && forall j :: 0 <= j < IndexOf(d.zorder, h) ==> Skipped(d, d.zorder[j], GetWindowThreadProcessId(d, h, 0))
    ensures Execute(d, client, env) == Hangs(d)
  {
  }

  /** A client that already has the focus gets exactly one input and the Z-order and focus stay as they were. */
  lemma ForegroundClientCycle(d: Desktop, client: Client, env: Env, input: Input)
    requires Valid(d)
    requires Target(d, client) != NullHandle && d.foreground == Target(d, client)
    requires TryGetMouseMovementParams(env) == Success(input)
    ensures env.sendInputSucceeds ==>
      Execute(d, client, env) == Returned(d.(inputs := d.inputs + [Submission(input, Target(d, client))]))
    ensures !env.sendInputSucceeds ==> Execute(d, client, env) == Threw(SendInputRejected, d)
  {
  }

  /** A rejected input throws after the client was raised: the focus is left with the client. */
  lemma RejectedInputSkipsRestore(d: Desktop, client: Client, env: Env, w: Handle)
    requires Valid(d) && !env.sendInputSucceeds
    requires var h := Target(d, client);
      && h != NullHandle
      && d.foreground != h
      && TryGetMouseMovementParams(env).Success?
      && GetWindowInFront(d, h, GetWindowThreadProcessId(d, h, 0)) == Found(w)
    ensures var o := Execute(d, client, env);
      && o.Threw? && o.fault == SendInputRejected
      && o.desktop.foreground == Target(d, client) != d.foreground
      && o.desktop.zorder[0] == Target(d, client)
      && o.desktop.inputs == d.inputs
  {
  }

  /** The desktop a background client's cycle ends with, step by step. */
  function Cycled(d: Desktop, h: Handle, input: Input, w: Handle): Desktop
    requires Valid(d)
  {
    var raised := SetForegroundWindow(d, h);
    var sent := SendInput(raised, input);
    var refocused := SetForegroundWindow(sent, d.foreground);
    SetWindowPos(refocused, h, w, RestoreFlags)
  }

  /** Raising `h`, then refocusing `f` and sliding `h` under `w`, as Z-order equations. */
  lemma CycledZOrder(d: Desktop, h: Handle, input: Input, w: Handle)
    requires Valid(d) && h in d.zorder && w in d.zorder && w != h
    requires d.foreground != NullHandle && d.foreground != h
    ensures var e := Cycled(d, h, input, w);
      && e.foreground == d.foreground
      && h in e.zorder && w in e.zorder
      && IndexOf(e.zorder, h) == IndexOf(e.zorder, w) + 1
      && Remove(e.zorder, h) == [d.foreground] + Remove(Remove(d.zorder, h), d.foreground)
      && e.inputs == d.inputs + [Submission(input, h)]
      && e.windows == d.windows
      && e.zorder == InsertAfter([d.foreground] + Remove(Remove(d.zorder, h), d.foreground), w, h)
  {
    var f := d.foreground;
    var raised := SetForegroundWindow(d, h);
    var sent := SendInput(raised, input);
    var refocused := SetForegroundWindow(sent, f);
    var rest := Remove(d.zorder, h);
    assert raised.zorder == [h] + rest;
    assert f in rest;
    assert f in raised.zorder;
    assert refocused.zorder == [f] + Remove([h] + rest, f);
    RemoveConcat([h], rest, f);
    assert refocused.zorder == [f] + ([h] + Remove(rest, f));
    var kept := Remove(rest, f);
    RemoveAbsent(kept, h);
    assert Remove([h] + kept, h) == kept by {
      RemoveConcat([h], kept, h);
      assert Remove([h], h) == [];
    }
    assert Remove(refocused.zorder, h) == [f] + kept by {
      RemoveConcat([f], [h] + kept, h);
      assert Remove([f], h) == [f];
    }
    assert h in refocused.zorder && w in refocused.zorder;
  }

  /**
   * A client in the background: one input is queued while the client has
   * the focus; afterwards the original window has the focus again, the
   * client sits directly below the recorded neighbour, and the other
   * windows keep their order except that the original foreground is on top.
   */
  lemma BackgroundClientCycle(d: Desktop, client: Client, env: Env, input: Input, w: Handle)
    requires Valid(d) && env.sendInputSucceeds && d.foreground != NullHandle
    requires var h := Target(d, client);
      && h != NullHandle
      && d.foreground != h
      && TryGetMouseMovementParams(env) == Success(input)
      && GetWindowInFront(d, h, GetWindowThreadProcessId(d, h, 0)) == Found(w)
    ensures var o := Execute(d, client, env);
      var h := Target(d, client);
      && o.Returned?
      && o.desktop.foreground == d.foreground
      && h in o.desktop.zorder && w in o.desktop.zorder
      && IndexOf(o.desktop.zorder, h) == IndexOf(o.desktop.zorder, w) + 1
      && Remove(o.desktop.zorder, h) == [d.foreground] + Remove(Remove(d.zorder, h), d.foreground)
      && o.desktop.inputs == d.inputs + [Submission(input, h)]
  {
    var h := Target(d, client);
    BackgroundCycleIsCycled(d, client, env, input, w);
    CycledZOrder(d, h, input, w);
  }

  /**
   * With no window holding the focus there is nothing to hand it back to:
   * the client keeps the focus after the one queued input and is slid back
   * under the recorded neighbour. When that neighbour is the window directly
   * above the client, the Z-order is the one the cycle started from.
   */
  lemma UnfocusedDesktopCycle(d: Desktop, client: Client, env: Env, input: Input, w: Handle)
    requires Valid(d) && env.sendInputSucceeds && d.foreground == NullHandle
    requires var h := Target(d, client);
      && h != NullHandle
      && TryGetMouseMovementParams(env) == Success(input)
      && GetWindowInFront(d, h, GetWindowThreadProcessId(d, h, 0)) == Found(w)
    ensures var o := Execute(d, client, env);
      var h := Target(d, client);
      && o.Returned?
      && o.desktop.foreground == h
      && o.desktop.zorder == InsertAfter(Remove(d.zorder, h), w, h)
      && o.desktop.inputs == d.inputs + [Submission(input, h)]
    ensures var h := Target(d, client);
      IndexOf(d.zorder, h) > 0 && w == d.zorder[IndexOf(d.zorder, h) - 1] ==>
      Execute(d, client, env).desktop.zorder == d.zorder
  {
    var h := Target(d, client);
    BackgroundCycleIsCycled(d, client, env, input, w);
    var raised := SetForegroundWindow(d, h);
    var sent := SendInput(raised, input);
    assert SetForegroundWindow(sent, NullHandle) == sent;
    assert w in sent.zorder && h in sent.zorder && w != h;
    if IndexOf(d.zorder, h) > 0 && w == d.zorder[IndexOf(d.zorder, h) - 1] {
      ReinsertUnderNeighbour(d.zorder, IndexOf(d.zorder, h));
    }
  }

  /** The restoring path of `Execute` is the sequence of calls `Cycled` spells out. */
  lemma BackgroundCycleIsCycled(d: Desktop, client: Client, env: Env, input: Input, w: Handle)
    requires Valid(d) && env.sendInputSucceeds
    requires var h := Target(d, client);
      && h != NullHandle
      && d.foreground != h
      && TryGetMouseMovementParams(env) == Success(input)
      && GetWindowInFront(d, h, GetWindowThreadProcessId(d, h, 0)) == Found(w)
    ensures Execute(d, client, env) == Returned(Cycled(d, Target(d, client), input, w))
  {
    var h := Target(d, client);
    var snapshot := Snapshot(d.foreground, true, w);
    assert TakeSnapshot(d, h) == Some(snapshot);
    assert ProcessMouseMovement(d, h, input, snapshot, true) == Returned(SendInput(SetForegroundWindow(d, h), input));
  }

  /**
   * When the original foreground window was topmost and the recorded
   * neighbour is the window directly above the client, the cycle leaves the
   * Z-order exactly as it found it.
   */
  lemma CycleRestoresZOrderExactly(d: Desktop, client: Client, env: Env, input: Input)
    requires Valid(d) && env.sendInputSucceeds
    requires var h := Target(d, client);
      && h != NullHandle
      && |d.zorder| > 0 && d.foreground == d.zorder[0] != h
      && TryGetMouseMovementParams(env) == Success(input)
      && IndexOf(d.zorder, h) > 0
      && GetWindowInFront(d, h, GetWindowThreadProcessId(d, h, 0)) == Found(d.zorder[IndexOf(d.zorder, h) - 1])
    ensures Execute(d, client, env) == Returned(d.(inputs := d.inputs + [Submission(input, Target(d, client))]))
  {
    var h, f := Target(d, client), d.foreground;
    var i := IndexOf(d.zorder, h);
    var w := d.zorder[i - 1];
    var rest := Remove(d.zorder, h);
    BackgroundCycleIsCycled(d, client, env, input, w);
    CycledZOrder(d, h, input, w);
    RemoveKeepsDistinct(d.zorder, h);
    ReinsertUnderNeighbour(d.zorder, i);
    RemoveAt(d.zorder, i);
    assert rest[0] == f;
    RaiseTopmost(rest);
    assert [f] + Remove(rest, f) == rest;
  }
}
