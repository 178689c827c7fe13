/**
 * The coordinator (src/controller.cpp): the authoritative game state, the
 * press / correct / wrong / reset handlers, the per-node LED choice pushed
 * after every transition, the radio receive path and the judge buttons.
 *
 * Every handler is a total function of the coordinator record and the time
 * `now`; it returns the next record together with the LED-command frames it
 * transmits.  Serial diagnostics are not modelled; the strings placed in the
 * outgoing message queue are.
 */
module Controller {
  import opened Wrappers
  import opened Protocol
  import Config
  import MessageQueue
  import Debounce

  datatype GameState = Ready | Locked | PartialLockout

  /**
   * `currentState`, `selectedBuzzer` (0 = none), the `lockedBuzzers` mask
   * (bit id-1 for node id) and `lastPressTime`.
   */
  datatype Game = Game(state: GameState, selected: bv8, locked: bv8, lastPress: bv32)

  /** The debouncers of the three judge buttons. */
  datatype Panel = Panel(correct: Debounce.Debouncer, wrong: Debounce.Debouncer, reset: Debounce.Debouncer)

  datatype Coordinator = Coordinator(game: Game, queue: MessageQueue.Queue, panel: Panel)

  /** A handler's effect: the next coordinator and the frames it transmitted. */
  datatype Step = Step(next: Coordinator, sent: seq<Frame>)

  /** Every node's bit set: the mask the wrong-answer handler never keeps. */
  const FULL_MASK: bv8 := 0x0F

  /** The state a freshly started coordinator holds. */
  function Initial(): (c: Coordinator)
    ensures c.game.state == Ready && c.game.selected == 0 && c.game.locked == 0
    ensures MessageQueue.Contents(c.queue) == []
  {
    Coordinator(Game(Ready, 0, 0, 0), MessageQueue.Empty(),
                Panel(Debounce.Initial(), Debounce.Initial(), Debounce.Initial()))
  }

  /** The facts about the game that every handler keeps. */
  predicate Inv(g: Game)
  {
    && (g.selected != 0 <==> g.state == Locked)
    && (g.state == Locked ==> 1 <= g.selected as int <= Config.NUM_BUZZERS && !IsLocked(g.locked, g.selected))
    && (g.state == Ready ==> g.locked == 0)
    && (g.state == PartialLockout ==> g.locked != 0)
    && g.locked <= FULL_MASK
    && g.locked != FULL_MASK
  }

  // ---------------------------------------------------------------------
  // Message-queue tokens
  // ---------------------------------------------------------------------

  function Digit(d: nat): char
    requires d < 10
  {
    ('0' as int + d) as char
  }

  /** Decimal rendering of a number, as Arduino's `String(n)` gives it. */
  function Decimal(n: nat): string
    decreases n
  {
    if n < 10 then [Digit(n)] else Decimal(n / 10) + [Digit(n % 10)]
  }

  /** The token announcing an accepted press: "BUZZER:" followed by the id. */
  function BuzzerToken(id: bv8): string
  {
    "BUZZER:" + Decimal(id as nat)
  }

  // ---------------------------------------------------------------------
  // LED choice
  // ---------------------------------------------------------------------

  /** The LED state `updateAllLEDs` picks for node `i`. */
  function LedFor(g: Game, i: bv8): LedState
  {
    match g.state
    case Ready => On
    case Locked => if i == g.selected then Blink else Off
    case PartialLockout =>
      if i == g.selected then Blink
      else if IsLocked(g.locked, i) then Off
      else On
  }

  /** `sendLEDCommand`: the frame for node `nodeId`, or nothing for an id outside 1..NUM_BUZZERS. */
  function SendLedCommand(nodeId: bv8, s: LedState, now: nat): (r: Option<Frame>)
    ensures r.Some? <==> 1 <= nodeId as int <= Config.NUM_BUZZERS
    ensures r.Some? ==> && r.value.nodeId == nodeId
                        && MessageTypeOf(r.value.msgType) == Some(LedCommand)
                        && LedStateOf(r.value.value) == Some(s)
                        && r.value.timestamp == Stamp(now)
  {
    if nodeId as int < 1 || nodeId as int > Config.NUM_BUZZERS then None
    else Some(Frame(nodeId, MessageCode(LedCommand), LedCode(s), Stamp(now)))
  }

  /** The node's frame carries the LED state `g` chooses for the node it addresses. */
  predicate IsLedUpdate(g: Game, f: Frame, now: nat)
  {
    && MessageTypeOf(f.msgType) == Some(LedCommand)
    && LedStateOf(f.value) == Some(LedFor(g, f.nodeId))
    && f.timestamp == Stamp(now)
  }

  /** The commands for nodes `i`..NUM_BUZZERS, in id order. */
  function LedCommandsFrom(g: Game, i: nat, now: nat): (fs: seq<Frame>)
    requires 1 <= i <= Config.NUM_BUZZERS + 1
    ensures |fs| == Config.NUM_BUZZERS + 1 - i
    ensures forall k | 0 <= k < |fs| :: fs[k].nodeId as int == i + k && IsLedUpdate(g, fs[k], now)
    decreases Config.NUM_BUZZERS + 1 - i
  {
    if i > Config.NUM_BUZZERS then []
    else
      match SendLedCommand(i as bv8, LedFor(g, i as bv8), now)
      case Some(f) => [f] + LedCommandsFrom(g, i + 1, now)
      case None => LedCommandsFrom(g, i + 1, now)
  }

  /**
   * `updateAllLEDs`: one LED command per node, ids 1..NUM_BUZZERS in order.
   * Under the invariant, Ready lights every node, Locked blinks exactly the
   * selected node and darkens the rest, and partial lockout darkens exactly
   * the locked nodes: its blink branch is never taken.
   */
  function UpdateAllLeds(g: Game, now: nat): (fs: seq<Frame>)
    ensures |fs| == Config.NUM_BUZZERS
    ensures forall k | 0 <= k < |fs| :: fs[k].nodeId as int == k + 1 && IsLedUpdate(g, fs[k], now)
    ensures Inv(g) && g.state == Ready ==> forall k | 0 <= k < |fs| :: fs[k].value == LedCode(On)
    ensures Inv(g) && g.state == Locked ==>
              forall k | 0 <= k < |fs| :: fs[k].value == (if fs[k].nodeId == g.selected then LedCode(Blink) else LedCode(Off))
    ensures Inv(g) && g.state == PartialLockout ==>
              forall k | 0 <= k < |fs| :: fs[k].value == (if IsLocked(g.locked, fs[k].nodeId) then LedCode(Off) else LedCode(On))
  {
    var fs := LedCommandsFrom(g, 1, now);
    LedCodesInvertible();
    fs
  }

  // ---------------------------------------------------------------------
  // Game-state handlers
  // ---------------------------------------------------------------------

  /** Whether `handleBuzzerPress` accepts a press from `nodeId`. */
  predicate Accepts(g: Game, nodeId: bv8)
  {
    && 1 <= nodeId as int <= Config.NUM_BUZZERS
    && !IsLocked(g.locked, nodeId)
    && g.state != Locked
  }

  /**
   * `handleBuzzerPress`: an in-range, unlocked id wins when no one holds the
   * floor; every other press changes nothing and queues nothing.
   */
  function Press(c: Coordinator, nodeId: bv8, timestamp: bv32, now: nat): (r: Step)
    ensures !Accepts(c.game, nodeId) ==> r == Step(c, [])
    ensures Accepts(c.game, nodeId) ==>
              && r.next.game == Game(Locked, nodeId, c.game.locked, timestamp)
              && MessageQueue.Contents(r.next.queue) == MessageQueue.Offer(MessageQueue.Contents(c.queue), BuzzerToken(nodeId))
              && r.next.panel == c.panel
              && r.sent == UpdateAllLeds(r.next.game, now)
    ensures Inv(c.game) ==> Inv(r.next.game)
  {
    if nodeId as int < 1 || nodeId as int > Config.NUM_BUZZERS then Step(c, [])
    else if IsLocked(c.game.locked, nodeId) then Step(c, [])
    else if c.game.state == Ready || c.game.state == PartialLockout then
      var g := Game(Locked, nodeId, c.game.locked, timestamp);
      Step(Coordinator(g, MessageQueue.Enqueue(c.queue, BuzzerToken(nodeId)), c.panel), UpdateAllLeds(g, now))
    else
      Step(c, [])
  }

  /** The game after a correct answer or a full reset: everything cleared. */
  function Cleared(g: Game): (h: Game)
    ensures h.state == Ready && h.selected == 0 && h.locked == 0 && h.lastPress == g.lastPress
    ensures Inv(h)
  {
    Game(Ready, 0, 0, g.lastPress)
  }

  /**
   * `handleCorrectAnswer`: back to Ready with nothing selected or locked,
   * queueing "CORRECT".  The firmware does not check that a node is
   * selected, so this also clears a partial lockout.
   */
  function Correct(c: Coordinator, now: nat): (r: Step)
    ensures r.next.game.state == Ready && r.next.game.selected == 0 && r.next.game.locked == 0
    ensures r.next.game.lastPress == c.game.lastPress && r.next.panel == c.panel
    ensures MessageQueue.Contents(r.next.queue) == MessageQueue.Offer(MessageQueue.Contents(c.queue), "CORRECT")
    ensures r.sent == UpdateAllLeds(r.next.game, now)
    ensures forall k | 0 <= k < |r.sent| :: r.sent[k].value == LedCode(On)
  {
    var g := Cleared(c.game);
    Step(Coordinator(g, MessageQueue.Enqueue(c.queue, "CORRECT"), c.panel), UpdateAllLeds(g, now))
  }

  /** `handleFullReset`: the same clearing as a correct answer, queueing "RESET". */
  function Reset(c: Coordinator, now: nat): (r: Step)
    ensures r.next.game.state == Ready && r.next.game.selected == 0 && r.next.game.locked == 0
    ensures r.next.game.lastPress == c.game.lastPress && r.next.panel == c.panel
    ensures MessageQueue.Contents(r.next.queue) == MessageQueue.Offer(MessageQueue.Contents(c.queue), "RESET")
    ensures r.sent == UpdateAllLeds(r.next.game, now)
    ensures forall k | 0 <= k < |r.sent| :: r.sent[k].value == LedCode(On)
  {
    var g := Cleared(c.game);
    Step(Coordinator(g, MessageQueue.Enqueue(c.queue, "RESET"), c.panel), UpdateAllLeds(g, now))
  }

  /**
   * `handleWrongAnswer`: with nothing selected, nothing happens.  Otherwise
   * the selected node's bit joins the mask and the selection is cleared;
   * if that locks every node the round starts over in Ready, else the game
   * is in partial lockout with only that bit added.  "WRONG" is queued in
   * both outcomes.
   */
  function Wrong(c: Coordinator, now: nat): (r: Step)
    ensures c.game.selected == 0 ==> r == Step(c, [])
    ensures c.game.selected != 0 ==>
              && r.next.game == Judged(c.game)
              && r.next.panel == c.panel
              && MessageQueue.Contents(r.next.queue) == MessageQueue.Offer(MessageQueue.Contents(c.queue), "WRONG")
              && r.sent == UpdateAllLeds(r.next.game, now)
    ensures Inv(c.game) ==> Inv(r.next.game)
  {
    if c.game.selected == 0 then Step(c, [])
    else
      var g := Judged(c.game);
      Step(Coordinator(g, MessageQueue.Enqueue(c.queue, "WRONG"), c.panel), UpdateAllLeds(g, now))
  }

  /**
   * The game after a wrong answer from the selected node `s`: the selection
   * is cleared and `s` is locked out; if that locks every node the round
   * starts over in Ready with an empty mask, otherwise the game is in
   * partial lockout and no node other than `s` changes its lock.
   */
  function Judged(g: Game): (h: Game)
    requires g.selected != 0
    ensures h.selected == 0 && h.lastPress == g.lastPress
    ensures g.locked | Bit(g.selected) == FULL_MASK ==> h.state == Ready && h.locked == 0
    ensures g.locked | Bit(g.selected) != FULL_MASK ==>
              && h.state == PartialLockout
              && forall i: bv8 :: IsLocked(h.locked, i) <==>
                                    (IsLocked(g.locked, i) || (i == g.selected && g.selected <= 8))
    ensures Inv(g) ==> Inv(h)
  {
    var mask := g.locked | Bit(g.selected);
    LockAddsOneNode(g.locked, g.selected);
    if mask == FULL_MASK then Game(Ready, 0, 0, g.lastPress)
    else Game(PartialLockout, 0, mask, g.lastPress)
  }

  /** Or-ing in node `s`'s bit locks node `s` (when it has a bit) and no other node. */
  lemma LockAddsOneNode(mask: bv8, s: bv8)
    ensures forall i: bv8 :: IsLocked(mask | Bit(s), i) <==> (IsLocked(mask, i) || (i == s && 1 <= s <= 8))
  {
    forall i: bv8
      ensures IsLocked(mask | Bit(s), i) <==> (IsLocked(mask, i) || (i == s && 1 <= s <= 8))
    {
      if 1 <= i <= 8 && 1 <= s <= 8 && i != s {
        BitsDistinct(i, s);
      }
    }
  }

  // ---------------------------------------------------------------------
  // Inputs
  // ---------------------------------------------------------------------

  /**
   * `onDataReceive`: frames of the wrong size are dropped; only button
   * presses are acted on, every other message type is ignored.
   */
  function Receive(c: Coordinator, bytes: seq<bv8>, now: nat): (r: Step)
    ensures |bytes| != FRAME_SIZE ==> r == Step(c, [])
    ensures |bytes| == FRAME_SIZE && MessageTypeOf(bytes[1]) != Some(ButtonPress) ==> r == Step(c, [])
    ensures |bytes| == FRAME_SIZE && MessageTypeOf(bytes[1]) == Some(ButtonPress) ==>
              r == Press(c, bytes[0], Decode(bytes).value.timestamp, now)
    ensures Inv(c.game) ==> Inv(r.next.game)
  {
    match Decode(bytes)
    case Failure(_) => Step(c, [])
    case Success(f) =>
      if f.msgType == MessageCode(ButtonPress) then Press(c, f.nodeId, f.timestamp, now)
      else Step(c, [])
  }

  /**
   * `handleControlButtons`: poll CORRECT, then WRONG, then RESET, each
   * through its own debouncer, running the handler of every button whose
   * press is accepted.  Waiting for the button's release is not modelled.
   *
   * An accepted RESET always ends in a cleared game, and so does an
   * accepted CORRECT; a WRONG accepted in the same poll as CORRECT finds
   * nothing selected and does nothing.  The tokens of the handlers that
   * acted are queued in button order, each acting handler pushes one batch
   * of LED commands, and the last batch shows the final game.
   */
  function ControlButtons(c: Coordinator, correct: Debounce.Level, wrong: Debounce.Level, reset: Debounce.Level, now: nat): (r: Step)
    ensures r.next.panel.correct == Debounce.Poll(c.panel.correct, correct, now).next
    ensures r.next.panel.wrong == Debounce.Poll(c.panel.wrong, wrong, now).next
    ensures r.next.panel.reset == Debounce.Poll(c.panel.reset, reset, now).next
    ensures (!Debounce.Poll(c.panel.correct, correct, now).pressed
             && !Debounce.Poll(c.panel.wrong, wrong, now).pressed
             && !Debounce.Poll(c.panel.reset, reset, now).pressed) ==>
              r.next.game == c.game && r.next.queue == c.queue && r.sent == []
    ensures var pc := Debounce.Poll(c.panel.correct, correct, now).pressed;
            var pr := Debounce.Poll(c.panel.reset, reset, now).pressed;
            var pw := Debounce.Poll(c.panel.wrong, wrong, now).pressed && !pc && c.game.selected != 0;
            && (pc || pr ==> r.next.game == Cleared(c.game))
            && (!pc && !pr && pw ==> r.next.game == Judged(c.game))
            && (!pc && !pr && !pw ==> r.next.game == c.game)
            && r.next.queue == MessageQueue.EnqueueAll(c.queue, (if pc then ["CORRECT"] else [])
                                                                + (if pw then ["WRONG"] else [])
                                                                + (if pr then ["RESET"] else []))
            && |r.sent| == Config.NUM_BUZZERS * ((if pc then 1 else 0) + (if pw then 1 else 0) + (if pr then 1 else 0))
            && (pc || pw || pr ==> r.sent[|r.sent| - Config.NUM_BUZZERS..] == UpdateAllLeds(r.next.game, now))
    ensures Inv(c.game) ==> Inv(r.next.game)
  {
    var sc := Debounce.Poll(c.panel.correct, correct, now);
    var c1 := c.(panel := c.panel.(correct := sc.next));
    var a := if sc.pressed then Correct(c1, now) else Step(c1, []);
    var sw := Debounce.Poll(c.panel.wrong, wrong, now);
    var c2 := a.next.(panel := a.next.panel.(wrong := sw.next));
    var b := if sw.pressed then Wrong(c2, now) else Step(c2, []);
    var sr := Debounce.Poll(c.panel.reset, reset, now);
    var c3 := b.next.(panel := b.next.panel.(reset := sr.next));
    var d := if sr.pressed then Reset(c3, now) else Step(c3, []);
    var tc: seq<string> := if sc.pressed then ["CORRECT"] else [];
    var tw: seq<string> := if sw.pressed && c2.game.selected != 0 then ["WRONG"] else [];
    var tr: seq<string> := if sr.pressed then ["RESET"] else [];
    assert a.next.queue == MessageQueue.EnqueueAll(c.queue, tc);
    assert b.next.queue == MessageQueue.EnqueueAll(a.next.queue, tw);
    assert d.next.queue == MessageQueue.EnqueueAll(b.next.queue, tr);
    MessageQueue.EnqueueAllAppend(c.queue, tc, tw);
    MessageQueue.EnqueueAllAppend(c.queue, tc + tw, tr);
    Step(d.next, a.sent + b.sent + d.sent)
  }

  /** `setup` ends by pushing the Ready display: every node is told ON. */
  function Boot(now: nat): (r: Step)
    ensures r.next == Initial() && Inv(r.next.game)
    ensures |r.sent| == Config.NUM_BUZZERS
    ensures forall k | 0 <= k < |r.sent| :: r.sent[k].nodeId as int == k + 1 && r.sent[k].value == LedCode(On)
  {
    Step(Initial(), UpdateAllLeds(Initial().game, now))
  }

  // ---------------------------------------------------------------------
  // Runs of events
  // ---------------------------------------------------------------------

  datatype Event = PressEvent(nodeId: bv8, timestamp: bv32) | CorrectEvent | WrongEvent | ResetEvent

  function Apply(c: Coordinator, e: Event, now: nat): Step
  {
    match e
    case PressEvent(id, ts) => Press(c, id, ts, now)
    case CorrectEvent => Correct(c, now)
    case WrongEvent => Wrong(c, now)
    case ResetEvent => Reset(c, now)
  }

  /** The coordinator after handling the events in order, each at its own time. */
  function Run(c: Coordinator, evs: seq<(Event, nat)>): Coordinator
    decreases |evs|
  {
    if evs == [] then c else Run(Apply(c, evs[0].0, evs[0].1).next, evs[1..])
  }

  lemma {:induction false} RunPreservesInv(c: Coordinator, evs: seq<(Event, nat)>)
    requires Inv(c.game)
    ensures Inv(Run(c, evs).game)
    decreases |evs|
  {
    if evs != [] {
      var s := Apply(c, evs[0].0, evs[0].1);
      assert Inv(s.next.game);
      RunPreservesInv(s.next, evs[1..]);
    }
  }

  /**
   * From power-on, after any sequence of presses, judgements and resets:
   * a node is selected exactly in Locked, the selected node is not locked
   * out, Ready has an empty mask, partial lockout a non-empty one, and the
   * mask stays within the four node bits without ever being full.
   */
  lemma ReachableInvariant(evs: seq<(Event, nat)>)
    ensures Inv(Run(Initial(), evs).game)
  {
    RunPreservesInv(Initial(), evs);
  }

  /**
   * A retried or duplicated press changes nothing: after any press, the
   * same node pressing again leaves the coordinator as it was and queues
   * no second token.
   */
  lemma DuplicatePressIgnored(c: Coordinator, nodeId: bv8, ts: bv32, now: nat, ts': bv32, now': nat)
    ensures var s := Press(c, nodeId, ts, now); Press(s.next, nodeId, ts', now') == Step(s.next, [])
  {
  }

  /** In partial lockout the selection is empty, so the blink branch of the LED choice is dead. */
  lemma PartialLockoutNeverBlinks(g: Game, i: bv8)
    requires Inv(g) && g.state == PartialLockout && i != 0
    ensures LedFor(g, i) != Blink
  {
  }
}
