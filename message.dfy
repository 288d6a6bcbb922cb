/**
 * The queue and the display scheduler of the TypeScript widget (src/Message.tsx).
 *
 * The queue is changed only by `msgsReducer`. The `Message` component keeps,
 * besides the queue, a side-table of rendered nodes indexed like the queue, a
 * cursor, a hover flag, a pending idle reset and a `stop` flag for its polling
 * loop. Timers, pointer events and the loop's 500 ms wait are abstracted into
 * event methods of `Scheduler`, one per callback of the source.
 */
module Message {
  import opened Wrappers
  import opened Hook

  // ---------------------------------------------------------------- queue

  /** `msgsReducer`: `add` appends its payload, leaving earlier entries alone; `reset` empties. */
  function MsgsReducer(msgs: seq<Msg>, action: Action): (r: seq<Msg>)
    ensures action.Add? ==> |r| == |msgs| + 1 && r[..|msgs|] == msgs && r[|msgs|] == action.payload
    ensures action.Reset? ==> r == []
  {
    match action
    case Add(payload) => msgs + [payload]
    case Reset => []
  }

  /** The queue after a sequence of dispatched actions. */
  function Replay(msgs: seq<Msg>, actions: seq<Action>): (r: seq<Msg>)
    decreases |actions|
  {
    if actions == [] then msgs else Replay(MsgsReducer(msgs, actions[0]), actions[1..])
  }

  /** One `add` action per payload, in order. */
  function Adds(payloads: seq<Msg>): (r: seq<Action>)
    ensures |r| == |payloads|
    ensures forall i :: 0 <= i < |r| ==> r[i] == Add(payloads[i])
  {
    seq(|payloads|, i requires 0 <= i < |payloads| => Add(payloads[i]))
  }

  /** Replaying two batches of actions is replaying the second from where the first left off. */
  lemma {:induction false} ReplayConcat(msgs: seq<Msg>, a: seq<Action>, b: seq<Action>)
    ensures Replay(msgs, a + b) == Replay(Replay(msgs, a), b)
    decreases |a|
  {
    if a != [] {
      assert (a + b)[1..] == a[1..] + b;
      ReplayConcat(MsgsReducer(msgs, a[0]), a[1..], b);
    } else {
      assert a + b == b;
    }
  }

  /** A run of `add` actions appends its payloads, in order, after the entries already queued. */
  lemma {:induction false} ReplayAdds(msgs: seq<Msg>, payloads: seq<Msg>)
    ensures Replay(msgs, Adds(payloads)) == msgs + payloads
    decreases |payloads|
  {
    if payloads != [] {
      assert Adds(payloads)[1..] == Adds(payloads[1..]);
      ReplayAdds(msgs + [payloads[0]], payloads[1..]);
      assert msgs + [payloads[0]] + payloads[1..] == msgs + payloads;
    }
  }

  /** The queue after any history depends only on the actions since the last `reset`. */
  lemma ReplayAfterReset(msgs: seq<Msg>, before: seq<Action>, after: seq<Action>)
    ensures Replay(msgs, before + [Reset] + after) == Replay([], after)
  {
    ReplayConcat(msgs, before + [Reset], after);
    ReplayConcat(msgs, before, [Reset]);
  }

  /** Appending any number of messages and then resetting leaves the queue empty. */
  lemma AddsThenReset(msgs: seq<Msg>, payloads: seq<Msg>)
    ensures Replay(msgs, Adds(payloads) + [Reset]) == []
  {
    ReplayConcat(msgs, Adds(payloads), [Reset]);
  }

  /** Every record of `msgs` meets all five constraints. */
  predicate AllValid(msgs: seq<Msg>) {
    forall i :: 0 <= i < |msgs| ==> ValidMsg(msgs[i])
  }

  /** Every `add` among `actions` carries a valid record. */
  predicate AddsValid(actions: seq<Action>) {
    forall i :: 0 <= i < |actions| && actions[i].Add? ==> ValidMsg(actions[i].payload)
  }

  /** The queue never holds an out-of-policy record when every `add` carried a valid one. */
  lemma {:induction false} ReplayKeepsValid(msgs: seq<Msg>, actions: seq<Action>)
    requires AllValid(msgs) && AddsValid(actions)
    ensures AllValid(Replay(msgs, actions))
    decreases |actions|
  {
    if actions != [] {
      var next := MsgsReducer(msgs, actions[0]);
      assert AllValid(next) by {
        if actions[0].Add? {
          forall i | 0 <= i < |next| ensures ValidMsg(next[i]) {
            if i < |msgs| { assert next[i] == next[..|msgs|][i]; }
          }
        }
      }
      assert AddsValid(actions[1..]) by {
        forall i | 0 <= i < |actions[1..]| && actions[1..][i].Add?
          ensures ValidMsg(actions[1..][i].payload)
        {
          assert actions[1..][i] == actions[i + 1];
        }
      }
      ReplayKeepsValid(next, actions[1..]);
    }
  }

  // ------------------------------------------------------------ node table

  /** What the scheduler has done to a node's `style.visibility`. */
  datatype Display = Unshown | Visible | Faded

  /**
   * An entry of the node side-table: `null` or `undefined` (Null), or a mounted message node
   * with its display state, the number of its hide timers still pending, and whether the
   * timer held in `timerId` (the one pointer-enter cancels) is among them.
   */
  datatype Node = Null | Mounted(display: Display, hideTimers: nat, latestArmed: bool) {
    /** A node not yet handed off has no timer; `timerId` pending means some timer is. */
    predicate Consistent() {
      Mounted? ==> (latestArmed ==> hideTimers > 0) && (display == Unshown ==> hideTimers == 0 && !latestArmed)
    }

    /** The pointer listeners are attached once the node has been handed off. */
    predicate Listening() {
      Mounted? && display != Unshown
    }

    /**
     * At most one hide timer is pending, and if one is, it is the one in `timerId`, so
     * pointer-enter cancels every pending hide of this node.
     */
    predicate OnlyLatestPending() {
      Mounted? ==> hideTimers <= 1 && (hideTimers == 1 ==> latestArmed)
    }
  }

  /** A node as rendered, before the scheduler reaches it. */
  const FreshNode: Node := Mounted(Unshown, 0, false)

  /** `msgNodesRef.current[k]`, reading past the end as `undefined`. */
  function NodeAt(nodes: seq<Node>, k: nat): (r: Node)
    ensures r.Mounted? ==> k < |nodes| && r == nodes[k]
  {
    if k < |nodes| then nodes[k] else Null
  }

  /**
   * The node table after a render of `n` messages is committed: the ref callback of every
   * rendered key stores its node (the same node as before when the key was already mounted),
   * every unmounted key is set to null, and the table is written by index only, so its
   * length is the largest number of messages ever rendered.
   */
  function Rendered(nodes: seq<Node>, n: nat): (r: seq<Node>)
    ensures |r| >= |nodes| && |r| >= n && (|r| == |nodes| || |r| == n)
    ensures forall k :: 0 <= k < |r| ==> (r[k].Mounted? <==> k < n)
    ensures forall k :: 0 <= k < n && k < |nodes| && nodes[k].Mounted? ==> r[k] == nodes[k]
    ensures forall k :: 0 <= k < n && !NodeAt(nodes, k).Mounted? ==> r[k] == FreshNode
  {
    var len := if n <= |nodes| then |nodes| else n;
    seq(len, k requires 0 <= k < len =>
      if k >= n then Null
      else if k < |nodes| && nodes[k].Mounted? then nodes[k]
      else FreshNode)
  }

  /**
   * `changeCss` positions a node not yet handed off, makes it visible and arms its first
   * hide timer (`willHide`), which is the one in `timerId`: the node then listens to the
   * pointer, and pointer-enter would cancel its only pending hide.
   */
  function HandOff(node: Node): (r: Node)
    requires node.Mounted? && node.Consistent() && node.display == Unshown
    ensures r.Consistent() && r.Listening() && r.display == Visible
    ensures r.hideTimers == 1 && r.OnlyLatestPending()
  {
    node.(display := Visible, hideTimers := node.hideTimers + 1, latestArmed := true)
  }

  /** Pointer-enter: `clearTimeout(timerId)` cancels that timer if it is still pending. */
  function CancelLatest(node: Node): (r: Node)
    requires node.Mounted? && node.Consistent()
    ensures r.Mounted? && r.Consistent() && !r.latestArmed && r.display == node.display
    ensures r.hideTimers == if node.latestArmed then node.hideTimers - 1 else node.hideTimers
  {
    if node.latestArmed then node.(hideTimers := node.hideTimers - 1, latestArmed := false) else node
  }

  /**
   * Pointer-leave: `timerId = willHide()` arms a fresh full-length timer, without clearing any
   * other. The node stays consistent and listening with its display unchanged; one more hide
   * is pending, and it is the one a later pointer-enter cancels.
   */
  function ArmHide(node: Node): (r: Node)
    requires node.Consistent() && node.Listening()
    ensures r.Consistent() && r.Listening() && r.display == node.display
    ensures r.latestArmed && r.hideTimers == node.hideTimers + 1
  {
    node.(hideTimers := node.hideTimers + 1, latestArmed := true)
  }

  /**
   * A hide timer fires: the node is hidden. Timers of one node all run for the same
   * `(duration + 0.5) * 1000` ms, so the oldest pending one fires first, and the one in
   * `timerId` is the one firing only when it is the last pending.
   */
  function FireHide(node: Node): (r: Node)
    requires node.Mounted? && node.Consistent() && node.hideTimers > 0
    ensures r.Mounted? && r.Consistent() && r.display == Faded && r.hideTimers == node.hideTimers - 1
    ensures r.latestArmed <==> node.latestArmed && node.hideTimers > 1
  {
    node.(display := Faded, hideTimers := node.hideTimers - 1, latestArmed := node.latestArmed && node.hideTimers > 1)
  }

  /**
   * Hovering keeps a node shown when only its `timerId` is pending: pointer-enter then leaves
   * no hide timer at all, so nothing can hide the node until the pointer leaves.
   */
  lemma EnterStopsHiding(node: Node)
    requires node.Consistent() && node.Listening() && node.OnlyLatestPending()
    ensures CancelLatest(node).hideTimers == 0
  {
  }

  /**
   * Hand-off establishes `OnlyLatestPending`, and pointer-enter, pointer-leave after a
   * pointer-enter, and a firing timer all keep it.
   */
  lemma OnlyLatestPendingKept(node: Node)
    requires node.Consistent() && node.Listening() && node.OnlyLatestPending()
    ensures CancelLatest(node).OnlyLatestPending()
    ensures ArmHide(CancelLatest(node)).OnlyLatestPending()
    ensures node.hideTimers > 0 ==> FireHide(node).OnlyLatestPending()
  {
  }

  /**
   * Pointer-leave keeps `OnlyLatestPending` exactly when no hide timer was pending. When one
   * was (no pointer-enter since the hand-off or the last leave), the older timer survives the
   * next pointer-enter, so it hides the node while the pointer is on it.
   */
  lemma LeaveOverPendingTimer(node: Node)
    requires node.Consistent() && node.Listening()
    ensures ArmHide(node).OnlyLatestPending() <==> node.hideTimers == 0
    ensures node.hideTimers > 0 ==> CancelLatest(ArmHide(node)).hideTimers > 0
  {
  }

  // ------------------------------------------------------------- scheduler

  /** What one call of `changeCss` does. */
  datatype Outcome = Skipped | Handed | Threw

  /**
   * `changeCss(cursor)` in this version: it returns early unless both the node and the
   * message at `cursor` exist (`!msgNode || !msg`), so it never throws, and it hands the
   * message off exactly when both are there.
   */
  function ChangeCss(nodes: seq<Node>, msgs: seq<Msg>, cursor: nat): (o: Outcome)
    ensures o != Threw
    ensures o == Handed <==> cursor < |nodes| && nodes[cursor].Mounted? && cursor < |msgs|
  {
    var msgNode := NodeAt(nodes, cursor);
    var msg := if cursor < |msgs| then Some(msgs[cursor]) else None;
    if msgNode.Null? || msg.None? then Skipped else Handed
  }

  /** The polling loop: waiting for its next 500 ms wake-up, left normally, or ended by an exception. */
  datatype Loop = Waiting | Exited | Rejected

  /** The state of one mounted `Message` component. */
  class Scheduler {
    /** `msgs`, which the layout effect copies into `msgsRef.current` in the same commit. */
    var queue: seq<Msg>
    /** `msgNodesRef.current`. */
    var nodes: seq<Node>
    /** `cursorRef.current`: how many messages have been handed off since the last reset. */
    var cursor: nat
    /** `isHover`. */
    var hover: bool
    /** Whether the reset effect's 5000 ms timer is pending. */
    var resetArmed: bool
    /** The loop's cancellation flag. */
    var stop: bool
    var loop: Loop
    /** The messages handed off since the last reset, in hand-off order. */
    ghost var revealed: seq<Msg>

    ghost predicate Valid()
      reads this
    {
      && AllValid(queue)
      && |queue| <= |nodes|
      && cursor <= |queue|
      && revealed == queue[..cursor]
      && (forall k :: 0 <= k < |nodes| ==> nodes[k].Consistent())
      && (forall k :: 0 <= k < |nodes| ==> (nodes[k].Mounted? <==> !stop && k < |queue|))
      && (forall k :: 0 <= k < |nodes| && nodes[k].Mounted? ==> (nodes[k].display != Unshown <==> k < cursor))
      && (resetArmed ==> !hover && !stop)
      && loop != Rejected
      && (loop == Exited ==> stop)
    }

    /** The condition of the reset effect. */
    predicate ResetGuard()
      reads this
    {
      cursor > 0 && cursor == |nodes| && !hover
    }

    /** Mounting: empty queue and table, and the loop already waiting for its first wake-up. */
    constructor ()
      ensures Valid()
      ensures queue == [] && nodes == [] && cursor == 0 && revealed == []
      ensures !hover && !resetArmed && !stop && loop == Waiting
    {
      queue, nodes, cursor, revealed := [], [], 0, [];
      hover, resetArmed, stop, loop := false, false, false, Waiting;
    }

    /**
     * `show(opts)` and the render it causes: the normalised record is appended and its node
     * mounted. After teardown the dispatch reaches no component and changes nothing.
     */
    method Show(arg: Arg)
      requires Valid()
      modifies this
      ensures Valid()
      ensures old(stop) ==> queue == old(queue) && nodes == old(nodes)
      ensures !old(stop) ==> queue == old(queue) + [GetValidatedMsg(arg)] && nodes == Rendered(old(nodes), |queue|)
      ensures |nodes| >= old(|nodes|)
      ensures cursor == old(cursor) && revealed == old(revealed)
      ensures hover == old(hover) && resetArmed == old(resetArmed) && stop == old(stop) && loop == old(loop)
    {
      if !stop {
        queue := MsgsReducer(queue, Hook.Show(arg));
        nodes := Rendered(nodes, |queue|);
      }
    }

    /**
     * One iteration of `while (!stop)` after its 500 ms wait: `changeCss(cursor)` and, when it
     * handed the message off, `cursor++`; then the loop re-tests `stop`. The cursor advances by
     * exactly one iff both the node and the message at it exist; the node handed off had not
     * been handed off before, and the message joins the hand-off log in queue order.
     */
    method Tick()
      requires Valid() && loop == Waiting
      modifies this
      ensures Valid()
      ensures old(ChangeCss(nodes, queue, cursor)) == Handed ==>
        && old(cursor) < |queue|
        && old(nodes)[old(cursor)].display == Unshown
        && cursor == old(cursor) + 1
        && nodes == old(nodes)[old(cursor) := HandOff(old(nodes)[old(cursor)])]
        && revealed == old(revealed) + [queue[old(cursor)]]
      ensures old(ChangeCss(nodes, queue, cursor)) != Handed ==>
        cursor == old(cursor) && nodes == old(nodes) && revealed == old(revealed)
      ensures old(stop) ==> cursor == old(cursor) && nodes == old(nodes)
      ensures queue == old(queue) && hover == old(hover) && resetArmed == old(resetArmed) && stop == old(stop)
      ensures loop == if stop then Exited else Waiting
    {
      if ChangeCss(nodes, queue, cursor) == Handed {
        nodes := nodes[cursor := HandOff(nodes[cursor])];
        revealed := revealed + [queue[cursor]];
        cursor := cursor + 1;
      }
      if stop {
        loop := Exited;
      }
    }

    /**
     * The loop run for `k` iterations with no other event in between: however many messages
     * were queued at once, they are handed off one per iteration, in queue order.
     */
    method RunTicks(k: nat)
      requires Valid() && loop == Waiting && !stop
      modifies this
      ensures Valid() && loop == Waiting
      ensures cursor == if old(cursor) + k <= |queue| then old(cursor) + k else |queue|
      ensures revealed == queue[..cursor]
      ensures queue == old(queue) && |nodes| == old(|nodes|)
      ensures forall j :: 0 <= j < |nodes| ==>
        nodes[j] == if old(cursor) <= j < cursor then HandOff(old(nodes)[j]) else old(nodes)[j]
      ensures hover == old(hover) && resetArmed == old(resetArmed) && stop == old(stop)
    {
      var i := 0;
      while i < k
        invariant 0 <= i <= k
        invariant Valid() && loop == Waiting && !stop
        invariant cursor == if old(cursor) + i <= |queue| then old(cursor) + i else |queue|
        invariant queue == old(queue) && |nodes| == old(|nodes|)
        invariant forall j :: 0 <= j < |nodes| ==>
          nodes[j] == if old(cursor) <= j < cursor then HandOff(old(nodes)[j]) else old(nodes)[j]
        invariant hover == old(hover) && resetArmed == old(resetArmed)
      {
        Tick();
        i := i + 1;
      }
    }

    /** A hide timer of node `i` fires: the node is hidden and that timer is no longer pending. */
    method HideFire(i: nat)
      requires Valid() && i < |nodes| && nodes[i].Mounted? && nodes[i].hideTimers > 0
      modifies this
      ensures Valid()
      ensures nodes == old(nodes)[i := FireHide(old(nodes)[i])]
      ensures queue == old(queue) && cursor == old(cursor) && revealed == old(revealed)
      ensures hover == old(hover) && resetArmed == old(resetArmed) && stop == old(stop) && loop == old(loop)
    {
      nodes := nodes[i := FireHide(nodes[i])];
    }

    /**
     * `setIsHover(h)` and the reset effect it re-runs. The effect depends on `isHover` only,
     * so it re-runs only when the flag changes: its cleanup cancels a pending reset and, when
     * the guard holds, it arms a new one. Setting the same value again changes nothing.
     */
    method SetIsHover(h: bool)
      requires Valid() && !stop
      modifies this
      ensures Valid()
      ensures hover == h
      ensures resetArmed == if old(hover) != h then ResetGuard() else old(resetArmed)
      ensures queue == old(queue) && nodes == old(nodes) && cursor == old(cursor) && revealed == old(revealed)
      ensures stop == old(stop) && loop == old(loop)
    {
      if hover != h {
        hover := h;
        resetArmed := ResetGuard();
      }
    }

    /** Pointer-enter on node `i`: its pending `timerId` is cancelled and hover is set. */
    method Enter(i: nat)
      requires Valid()
      modifies this
      ensures Valid()
      ensures old(NodeAt(nodes, i).Listening()) ==>
        nodes == old(nodes)[i := CancelLatest(old(nodes)[i])] && hover && !resetArmed
      ensures old(NodeAt(nodes, i).Listening() && NodeAt(nodes, i).OnlyLatestPending()) ==>
        nodes[i].hideTimers == 0
      ensures !old(NodeAt(nodes, i).Listening()) ==>
        nodes == old(nodes) && hover == old(hover) && resetArmed == old(resetArmed)
      ensures queue == old(queue) && cursor == old(cursor) && revealed == old(revealed)
      ensures stop == old(stop) && loop == old(loop)
    {
      if NodeAt(nodes, i).Listening() {
        if nodes[i].OnlyLatestPending() {
          EnterStopsHiding(nodes[i]);
        }
        nodes := nodes[i := CancelLatest(nodes[i])];
        SetIsHover(true);
      }
    }

    /**
     * Pointer-leave on node `i`: a fresh hide timer of the full duration is armed and hover
     * is cleared; when hover was set, the reset effect re-runs.
     */
    method Leave(i: nat)
      requires Valid()
      modifies this
      ensures Valid()
      ensures old(NodeAt(nodes, i).Listening()) ==>
        && nodes == old(nodes)[i := ArmHide(old(nodes)[i])] && !hover
        && resetArmed == if old(hover) then ResetGuard() else old(resetArmed)
      ensures !old(NodeAt(nodes, i).Listening()) ==>
        nodes == old(nodes) && hover == old(hover) && resetArmed == old(resetArmed)
      ensures queue == old(queue) && cursor == old(cursor) && revealed == old(revealed)
      ensures stop == old(stop) && loop == old(loop)
    {
      if NodeAt(nodes, i).Listening() {
        nodes := nodes[i := ArmHide(nodes[i])];
        SetIsHover(false);
      }
    }

    /**
     * The reset timer fires: the cursor goes back to 0 and the queue is cleared in the same
     * step, every node is unmounted, and the table keeps its length.
     */
    method ResetFire()
      requires Valid() && resetArmed
      modifies this
      ensures Valid()
      ensures cursor == 0 && queue == [] && revealed == []
      ensures nodes == Rendered(old(nodes), 0) && |nodes| == old(|nodes|)
      ensures !resetArmed && hover == old(hover) && stop == old(stop) && loop == old(loop)
    {
      cursor := 0;
      queue := MsgsReducer(queue, Reset);
      nodes := Rendered(nodes, |queue|);
      revealed := [];
      resetArmed := false;
    }

    /**
     * Unmounting: the loop's cleanup sets `stop`, the reset effect's cleanup cancels a pending
     * reset, and every ref callback is called with null. A tick already waiting still runs.
     */
    method Teardown()
      requires Valid()
      modifies this
      ensures Valid()
      ensures stop && !resetArmed
      ensures nodes == Rendered(old(nodes), 0) && |nodes| == old(|nodes|)
      ensures queue == old(queue) && cursor == old(cursor) && revealed == old(revealed)
      ensures hover == old(hover) && loop == old(loop)
    {
      stop := true;
      resetArmed := false;
      nodes := Rendered(nodes, 0);
    }
  }

  /** The queue never holds an out-of-policy record, so every message handed off is valid. */
  lemma QueueStaysValid(s: Scheduler)
    requires s.Valid()
    ensures forall k :: 0 <= k < |s.queue| ==> ValidMsg(s.queue[k])
    ensures forall k :: 0 <= k < |s.revealed| ==> ValidMsg(s.revealed[k])
  {
  }

  /**
   * The reset guard holds exactly when something has been shown, every queued message has
   * been handed off, the queue is as long as the node table, and nothing is hovered. So after
   * a reset the guard stays false until the queue again reaches the table's high-water length.
   */
  lemma ResetGuardMeansAllShown(s: Scheduler)
    requires s.Valid()
    ensures s.ResetGuard() <==> s.cursor > 0 && s.cursor == |s.queue| == |s.nodes| && !s.hover
    ensures s.ResetGuard() ==> s.revealed == s.queue
  {
  }

  /**
   * One `show()` and one loop wake-up: the layout effect has already copied the queue, so the
   * message is handed off. Every message has now been shown and nothing is hovered, yet no
   * reset is pending, because the reset effect re-runs only when the hover flag changes.
   */
  method ShowThenTick() returns (loop: Loop, cursor: nat, guard: bool, armed: bool)
    ensures loop == Waiting && cursor == 1
    ensures guard && !armed
  {
    var s := new Scheduler();
    s.Show(Omitted);
    s.Tick();
    loop, cursor, guard, armed := s.loop, s.cursor, s.ResetGuard(), s.resetArmed;
  }

  /**
   * Two messages are shown and handed off, the pointer passes over the first one (arming
   * the reset) and the reset fires: the queue is empty while the node table keeps two slots.
   */
  method TwoShownThenReset() returns (s: Scheduler)
    ensures fresh(s) && s.Valid()
    ensures s.queue == [] && s.cursor == 0 && |s.nodes| == 2
    ensures !s.hover && !s.stop && !s.resetArmed && s.loop == Waiting
  {
    s := new Scheduler();
    s.Show(Omitted);
    s.Show(Omitted);
    assert |s.queue| == 2 && |s.nodes| == 2;
    s.RunTicks(2);
    assert s.cursor == 2 && s.nodes[0].Listening();
    s.Enter(0);
    assert s.hover && s.nodes[0].Listening();
    s.Leave(0);
    assert s.resetArmed;
    s.ResetFire();
  }

  /**
   * After the reset of `TwoShownThenReset` a third message is shown and handed off: the queue
   * holds one message while the node table still has two slots.
   */
  method ShowAfterReset() returns (s: Scheduler)
    ensures fresh(s) && s.Valid()
    ensures s.cursor == 1 && |s.queue| == 1 && |s.nodes| == 2 && s.nodes[0].Listening()
    ensures !s.hover && !s.stop && !s.resetArmed && s.loop == Waiting
  {
    s := TwoShownThenReset();
    s.Show(Omitted);
    assert |s.queue| == 1 && |s.nodes| == 2 && s.nodes[0].Mounted?;
    s.Tick();
  }

  /**
   * The pointer then passes over the one message shown since the reset: every queued message
   * has been shown and nothing is hovered, yet the guard fails and no reset is armed, because
   * the table keeps the two slots of before the reset.
   */
  method HighWaterAfterReset() returns (armed: bool, cursor: nat, queueLength: nat, tableLength: nat)
    ensures !armed && cursor == 1 && queueLength == 1 && tableLength == 2
  {
    var s := ShowAfterReset();
    s.Enter(0);
    s.Leave(0);
    armed, cursor, queueLength, tableLength := s.resetArmed, s.cursor, |s.queue|, |s.nodes|;
  }

  /**
   * A pointer-leave reaches a message whose hand-off timer is still pending; the pointer then
   * enters it again. Pointer-enter cancels only the newer timer, so the older one fires and
   * hides the message while it is hovered.
   */
  method LeaveBeforeEnter() returns (hover: bool, display: Display)
    ensures hover && display == Faded
  {
    var s := new Scheduler();
    s.Show(Omitted);
    s.Tick();
    assert s.nodes[0].Listening() && s.nodes[0].hideTimers == 1;
    s.Leave(0);
    assert s.nodes[0].Listening() && s.nodes[0].hideTimers == 2;
    s.Enter(0);
    assert s.nodes[0].hideTimers == 1;
    s.HideFire(0);
    hover, display := s.hover, s.nodes[0].display;
  }
}
