/**
 * The queue and the display scheduler of the JavaScript widget (src/Message.js).
 *
 * Two things differ from the TypeScript component. The copy of the queue that the
 * polling loop reads (`msgsRef.current`) is refreshed by a passive effect, which
 * runs some time after the render that changed the queue, so the loop can see a
 * node whose message it does not yet see. And `changeCss` returns early only when
 * BOTH the node and the message are missing (`!msgNode && !msg`); when exactly one
 * is missing it dereferences `undefined`, the exception rejects the loop's async
 * function, and the loop is over.
 */
module MessageJs {
  import opened Wrappers
  import opened Hook
  import HookJs
  import opened Message

  /**
   * `changeCss(cursor)` in this version: it skips when neither the node nor the message
   * exists, throws when exactly one of them does, and hands off when both do.
   */
  function ChangeCssJs(nodes: seq<Node>, msgs: seq<Msg>, cursor: nat): (o: Outcome)
    ensures o == Skipped <==> !NodeAt(nodes, cursor).Mounted? && cursor >= |msgs|
    ensures o == Threw <==> NodeAt(nodes, cursor).Mounted? != (cursor < |msgs|)
    ensures o == Handed <==> NodeAt(nodes, cursor).Mounted? && cursor < |msgs|
  {
    var msgNode := NodeAt(nodes, cursor);
    var msg := if cursor < |msgs| then Some(msgs[cursor]) else None;
    if msgNode.Null? && msg.None? then Skipped
    // `const { top, duration } = msg` with `msg` undefined
    else if msg.None? then Threw
    // `msgNode.getBoundingClientRect()` with `msgNode` null or undefined
    else if msgNode.Null? then Threw
    else Handed
  }

  /** Whenever this version does not throw, it does what the TypeScript version does. */
  lemma ChangeCssAgrees(nodes: seq<Node>, msgs: seq<Msg>, cursor: nat)
    ensures ChangeCssJs(nodes, msgs, cursor) != Threw ==>
      ChangeCssJs(nodes, msgs, cursor) == ChangeCss(nodes, msgs, cursor)
  {
  }

  /** The state of one mounted `Message` component of this version. */
  class Scheduler {
    /** `msgs`, the reducer's state. */
    var queue: seq<Msg>
    /** `msgsRef.current`, the copy the loop reads. */
    var snapshot: seq<Msg>
    /** Whether the passive effect that copies `msgs` into `msgsRef.current` is still to run. */
    var syncPending: bool
    /** `msgNodesRef.current`, written by the ref callbacks during the commit. */
    var nodes: seq<Node>
    /** `cursorRef.current`. */
    var cursor: nat
    /** `isHover`. */
    var hover: bool
    /** Whether the reset effect's 5000 ms timer is pending. */
    var resetArmed: bool
    /** The loop's cancellation flag. */
    var stop: bool
    var loop: Loop
    /** The messages handed off since the last reset, in hand-off order. */
    ghost var revealed: seq<Msg>

    ghost predicate Valid()
      reads this
    {
      && AllValid(queue)
      && |queue| <= |nodes|
      && cursor <= |queue|
      && revealed == queue[..cursor]
      && (forall k :: 0 <= k < |nodes| ==> nodes[k].Consistent())
      && (forall k :: 0 <= k < |nodes| ==> (nodes[k].Mounted? <==> !stop && k < |queue|))
      && (forall k :: 0 <= k < |nodes| && nodes[k].Mounted? ==> (nodes[k].display != Unshown <==> k < cursor))
      && (resetArmed ==> !hover && !stop)
      && (loop == Exited ==> stop)
      && (!syncPending ==> snapshot == queue)
      && (stop ==> !syncPending)
      // The snapshot is the queue before its last change: a prefix of it, or a queue since reset.
      && (snapshot <= queue || queue == [])
    }

    /** The condition of the reset effect. */
    predicate ResetGuard()
      reads this
    {
      cursor > 0 && cursor == |nodes| && !hover
    }

    /** Mounting: empty queue, copy and table, and the loop already waiting for its first wake-up. */
    constructor ()
      ensures Valid()
      ensures queue == [] && snapshot == [] && !syncPending && nodes == [] && cursor == 0 && revealed == []
      ensures !hover && !resetArmed && !stop && loop == Waiting
    {
      queue, snapshot, syncPending, nodes, cursor, revealed := [], [], false, [], 0, [];
      hover, resetArmed, stop, loop := false, false, false, Waiting;
    }

    /**
     * `show(opts)` and the render it causes. React first runs a passive effect still pending
     * from the previous render, then commits: the payload is appended and its node mounted,
     * while `msgsRef.current` keeps the queue as it was until the new passive effect runs.
     */
    method Show(arg: Arg)
      requires Valid()
      modifies this
      ensures Valid()
      ensures old(stop) ==> queue == old(queue) && nodes == old(nodes) && snapshot == old(snapshot)
      ensures old(stop) ==> syncPending == old(syncPending)
      ensures !old(stop) ==>
        && queue == old(queue) + [HookJs.Payload(arg)] && nodes == Rendered(old(nodes), |queue|)
        && snapshot == old(queue) && syncPending
      ensures |nodes| >= old(|nodes|)
      ensures cursor == old(cursor) && revealed == old(revealed)
      ensures hover == old(hover) && resetArmed == old(resetArmed) && stop == old(stop) && loop == old(loop)
    {
      if !stop {
        snapshot, syncPending := queue, false;
        queue := MsgsReducer(queue, HookJs.Show(arg));
        nodes := Rendered(nodes, |queue|);
        syncPending := true;
      }
    }

    /** The passive effect `msgsRef.current = msgs` runs. */
    method SyncSnapshot()
      requires Valid() && syncPending
      modifies this
      ensures Valid()
      ensures snapshot == queue && !syncPending
      ensures queue == old(queue) && nodes == old(nodes) && cursor == old(cursor) && revealed == old(revealed)
      ensures hover == old(hover) && resetArmed == old(resetArmed) && stop == old(stop) && loop == old(loop)
    {
      snapshot, syncPending := queue, false;
    }

    /**
     * One iteration of `while (!stop)` after its wait: `changeCss(cursor)` on the node table
     * and the loop's copy of the queue. When it throws, the loop is over and nothing else
     * changes; when it hands off, the cursor advances by exactly one in queue order; in both
     * other cases the loop then re-tests `stop`. With an up-to-date copy it never throws.
     */
    method Tick()
      requires Valid() && loop == Waiting
      modifies this
      ensures Valid()
      ensures old(ChangeCssJs(nodes, snapshot, cursor)) == Threw ==>
        loop == Rejected && cursor == old(cursor) && nodes == old(nodes) && revealed == old(revealed)
      ensures old(ChangeCssJs(nodes, snapshot, cursor)) == Handed ==>
        && old(cursor) < |queue|
        && old(nodes)[old(cursor)].display == Unshown
        && cursor == old(cursor) + 1
        && nodes == old(nodes)[old(cursor) := HandOff(old(nodes)[old(cursor)])]
        && revealed == old(revealed) + [queue[old(cursor)]]
      ensures old(ChangeCssJs(nodes, snapshot, cursor)) == Skipped ==>
        cursor == old(cursor) && nodes == old(nodes) && revealed == old(revealed)
      ensures old(ChangeCssJs(nodes, snapshot, cursor)) != Threw ==> loop == if stop then Exited else Waiting
      ensures old(!syncPending && !stop) ==> loop == Waiting
      ensures old(stop) ==> (loop == Rejected <==> old(cursor) < |queue|) && loop != Waiting
      ensures queue == old(queue) && snapshot == old(snapshot) && syncPending == old(syncPending)
      ensures hover == old(hover) && resetArmed == old(resetArmed) && stop == old(stop)
    {
      var outcome := ChangeCssJs(nodes, snapshot, cursor);
      if outcome == Threw {
        loop := Rejected;
      } else {
        if outcome == Handed {
          assert snapshot[cursor] == queue[cursor];
          nodes := nodes[cursor := HandOff(nodes[cursor])];
          revealed := revealed + [snapshot[cursor]];
          cursor := cursor + 1;
        }
        if stop {
          loop := Exited;
        }
      }
    }

    /** A hide timer of node `i` fires: the node is hidden and that timer is no longer pending. */
    method HideFire(i: nat)
      requires Valid() && i < |nodes| && nodes[i].Mounted? && nodes[i].hideTimers > 0
      modifies this
      ensures Valid()
      ensures nodes == old(nodes)[i := FireHide(old(nodes)[i])]
      ensures queue == old(queue) && snapshot == old(snapshot) && syncPending == old(syncPending)
      ensures cursor == old(cursor) && revealed == old(revealed)
      ensures hover == old(hover) && resetArmed == old(resetArmed) && stop == old(stop) && loop == old(loop)
    {
      nodes := nodes[i := FireHide(nodes[i])];
    }

    /**
     * `setIsHover(h)` and the re-render it causes, only when the flag changes: React first runs
     * the passive effect still pending from the previous render, so the loop's copy catches up
     * with the queue; then the reset effect's cleanup cancels a pending reset and, when the
     * guard holds, a new one is armed. Setting the same value again changes nothing.
     */
    method SetIsHover(h: bool)
      requires Valid() && !stop
      modifies this
      ensures Valid()
      ensures hover == h
      ensures resetArmed == if old(hover) != h then ResetGuard() else old(resetArmed)
      ensures old(hover) != h ==> snapshot == queue && !syncPending
      ensures old(hover) == h ==> snapshot == old(snapshot) && syncPending == old(syncPending)
      ensures queue == old(queue) && nodes == old(nodes) && cursor == old(cursor) && revealed == old(revealed)
      ensures stop == old(stop) && loop == old(loop)
    {
      if hover != h {
        snapshot, syncPending := queue, false;
        hover := h;
        resetArmed := ResetGuard();
      }
    }

    /**
     * Pointer-enter on node `i`: its pending `timerId` is cancelled and hover is set; when hover
     * was clear, the re-render first brings the loop's copy of the queue up to date.
     */
    method Enter(i: nat)
      requires Valid()
      modifies this
      ensures Valid()
      ensures old(NodeAt(nodes, i).Listening()) ==>
        nodes == old(nodes)[i := CancelLatest(old(nodes)[i])] && hover && !resetArmed
      ensures old(NodeAt(nodes, i).Listening() && NodeAt(nodes, i).OnlyLatestPending()) ==>
        nodes[i].hideTimers == 0
      ensures !old(NodeAt(nodes, i).Listening()) ==>
        nodes == old(nodes) && hover == old(hover) && resetArmed == old(resetArmed)
      ensures old(NodeAt(nodes, i).Listening() && !hover) ==> snapshot == queue && !syncPending
      ensures !old(NodeAt(nodes, i).Listening() && !hover) ==>
        snapshot == old(snapshot) && syncPending == old(syncPending)
      ensures queue == old(queue) && cursor == old(cursor) && revealed == old(revealed)
      ensures stop == old(stop) && loop == old(loop)
    {
      if NodeAt(nodes, i).Listening() {
        if nodes[i].OnlyLatestPending() {
          EnterStopsHiding(nodes[i]);
        }
        nodes := nodes[i := CancelLatest(nodes[i])];
        SetIsHover(true);
      }
    }

    /**
     * Pointer-leave on node `i`: a fresh full-length hide timer is armed and hover is cleared;
     * when hover was set, the re-render first brings the loop's copy of the queue up to date.
     */
    method Leave(i: nat)
      requires Valid()
      modifies this
      ensures Valid()
      ensures old(NodeAt(nodes, i).Listening()) ==>
        && nodes == old(nodes)[i := ArmHide(old(nodes)[i])] && !hover
        && resetArmed == if old(hover) then ResetGuard() else old(resetArmed)
      ensures !old(NodeAt(nodes, i).Listening()) ==>
        nodes == old(nodes) && hover == old(hover) && resetArmed == old(resetArmed)
      ensures old(NodeAt(nodes, i).Listening() && hover) ==> snapshot == queue && !syncPending
      ensures !old(NodeAt(nodes, i).Listening() && hover) ==>
        snapshot == old(snapshot) && syncPending == old(syncPending)
      ensures queue == old(queue) && cursor == old(cursor) && revealed == old(revealed)
      ensures stop == old(stop) && loop == old(loop)
    {
      if NodeAt(nodes, i).Listening() {
        nodes := nodes[i := ArmHide(nodes[i])];
        SetIsHover(false);
      }
    }

    /**
     * The reset timer fires: the cursor goes back to 0 and the queue is cleared in one step and
     * every node is unmounted, but the loop's copy still holds the old queue until the passive
     * effect runs.
     */
    method ResetFire()
      requires Valid() && resetArmed
      modifies this
      ensures Valid()
      ensures cursor == 0 && queue == [] && revealed == []
      ensures snapshot == old(queue) && syncPending
      ensures nodes == Rendered(old(nodes), 0) && |nodes| == old(|nodes|)
      ensures !resetArmed && hover == old(hover) && stop == old(stop) && loop == old(loop)
    {
      snapshot, syncPending := queue, false;
      cursor := 0;
      queue := MsgsReducer(queue, Reset);
      nodes := Rendered(nodes, |queue|);
      syncPending := true;
      revealed := [];
      resetArmed := false;
    }

    /**
     * Unmounting: pending passive effects run first, then the loop's cleanup sets `stop`, the
     * reset effect's cleanup cancels a pending reset, and every ref callback gets null.
     */
    method Teardown()
      requires Valid()
      modifies this
      ensures Valid()
      ensures stop && !resetArmed && snapshot == queue && !syncPending
      ensures nodes == Rendered(old(nodes), 0) && |nodes| == old(|nodes|)
      ensures queue == old(queue) && cursor == old(cursor) && revealed == old(revealed)
      ensures hover == old(hover) && loop == old(loop)
    {
      snapshot, syncPending := queue, false;
      stop := true;
      resetArmed := false;
      nodes := Rendered(nodes, 0);
    }
  }

  /**
   * The queue never holds an out-of-policy record, so every message handed off is valid; the
   * loop's copy is valid too once the passive effect has run.
   */
  lemma QueueStaysValid(s: Scheduler)
    requires s.Valid()
    ensures forall k :: 0 <= k < |s.queue| ==> ValidMsg(s.queue[k])
    ensures forall k :: 0 <= k < |s.revealed| ==> ValidMsg(s.revealed[k])
    ensures !s.syncPending ==> forall k :: 0 <= k < |s.snapshot| ==> ValidMsg(s.snapshot[k])
  {
  }

  /**
   * While the component is mounted, a tick can throw only when the loop's copy of the queue
   * lags behind the queue.
   */
  lemma ThrowsOnlyWhileLagging(s: Scheduler)
    requires s.Valid() && !s.stop
    ensures ChangeCssJs(s.nodes, s.snapshot, s.cursor) == Threw ==> s.syncPending
  {
  }

  /**
   * One `show()` and a loop wake-up that comes before the passive effect: the new node is at
   * the cursor but the loop's copy of the queue is still empty, so `changeCss` dereferences
   * `undefined` and the loop ends without handing anything off.
   */
  method ShowThenEarlyTick() returns (loop: Loop, cursor: nat)
    ensures loop == Rejected && cursor == 0
  {
    var s := new Scheduler();
    s.Show(Omitted);
    s.Tick();
    loop, cursor := s.loop, s.cursor;
  }

  /** The same wake-up after the passive effect has run hands the message off. */
  method ShowSyncThenTick() returns (loop: Loop, cursor: nat)
    ensures loop == Waiting && cursor == 1
  {
    var s := new Scheduler();
    s.Show(Omitted);
    s.SyncSnapshot();
    s.Tick();
    loop, cursor := s.loop, s.cursor;
  }

  /**
   * `show(a)`, its passive effect and a wake-up hand `a` off; `show(b)` follows, and before the
   * next wake-up the pointer enters `a`. The hover re-render first runs the pending passive
   * effect, so the next wake-up finds `b` in the loop's copy and hands it off.
   */
  method HoverRenderSyncs() returns (loop: Loop, cursor: nat, pending: bool)
    ensures loop == Waiting && cursor == 2 && !pending
  {
    var s := new Scheduler();
    s.Show(Omitted);
    s.SyncSnapshot();
    s.Tick();
    assert s.cursor == 1 && s.nodes[0].Listening();
    s.Show(Omitted);
    assert s.nodes[0].Listening() && !s.hover;
    s.Enter(0);
    assert |s.snapshot| == 2 && s.nodes[1].Mounted?;
    s.Tick();
    loop, cursor, pending := s.loop, s.cursor, s.syncPending;
  }

  /**
   * A message is queued and its passive effect has run, but the component unmounts before the
   * loop reaches it: the tick already waiting finds the node nulled while the loop's copy still
   * holds the message, and the loop ends by an exception.
   */
  method TeardownBeforeHandOff() returns (loop: Loop, cursor: nat)
    ensures loop == Rejected && cursor == 0
  {
    var s := new Scheduler();
    s.Show(Omitted);
    s.SyncSnapshot();
    s.Teardown();
    s.Tick();
    loop, cursor := s.loop, s.cursor;
  }
}
