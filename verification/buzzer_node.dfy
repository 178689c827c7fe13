/**
 * A buzzer node (src/buzzer_node.cpp): its reaction to received frames,
 * the heartbeat-timeout connection monitor, the timer-driven blink, and
 * the debounced button with bounded send retries.
 *
 * The build flag NODE_ID becomes the parameter `id` of every operation.
 * The LED state is kept as the raw code byte because an LED command's
 * value is stored without a range check; a code the node does not know
 * simply matches no case of the LED handler.
 */
module BuzzerNode {
  import opened Wrappers
  import opened Protocol
  import Config
  import Debounce
  import StateSync

  /**
   * `currentLEDState`, `savedLEDState`, `lastBlinkTime`, `blinkState`, the
   * button debouncer, `lastHeartbeatTime` and `isConnected`.
   */
  datatype Node = Node(
    current: bv8,
    saved: bv8,
    lastBlink: nat,
    blinkOn: bool,
    button: Debounce.Debouncer,
    lastHeartbeat: nat,
    connected: bool)

  /** A step's effect: the next node state and the frames sent to the coordinator. */
  datatype Reaction = Reaction(next: Node, sent: seq<Frame>)

  /**
   * The node as `setup` leaves it once the radio is up: blinking while it
   * waits for the first heartbeat, saved state OFF, not connected, and the
   * heartbeat clock started now.
   */
  function Boot(now: nat): (n: Node)
    ensures n.current == LedCode(Blink) && n.saved == LedCode(Off)
    ensures !n.connected && n.lastHeartbeat == now && n.lastBlink == now
  {
    Node(LedCode(Blink), LedCode(Off), now, false, Debounce.Initial(), now, false)
  }

  // ---------------------------------------------------------------------
  // Receiving frames
  // ---------------------------------------------------------------------

  /** The state request a node sends when it (re)connects. */
  function StateRequestFrame(id: NodeId, now: nat): Frame
  {
    Frame(id, MessageCode(StateRequest), 0, Stamp(now))
  }

  /**
   * A heartbeat always refreshes the heartbeat clock.  On the
   * disconnected-to-connected edge it marks the node connected and sends
   * exactly one state request carrying this node's id and value 0; while
   * already connected it sends nothing.  The display is not touched.
   */
  function OnHeartbeat(n: Node, id: NodeId, now: nat): (r: Reaction)
    ensures r.next.lastHeartbeat == now && r.next.connected
    ensures r.next == n.(lastHeartbeat := now, connected := true)
    ensures n.connected ==> r.sent == []
    ensures !n.connected ==> && |r.sent| == 1
                             && MessageTypeOf(r.sent[0].msgType) == Some(StateRequest)
                             && r.sent[0].nodeId == id && r.sent[0].value == 0
                             && r.sent[0].timestamp == Stamp(now)
  {
    var next := n.(lastHeartbeat := now, connected := true);
    if n.connected then Reaction(next, []) else Reaction(next, [StateRequestFrame(id, now)])
  }

  /**
   * The LED state a node derives from an unpacked snapshot: being selected
   * wins over being locked; otherwise a locked node is dark and any other
   * node is lit.
   */
  function DeriveLed(id: NodeId, v: StateSync.View): (s: LedState)
    ensures s == Blink <==> v.selected == id
    ensures s == Off <==> v.selected != id && IsLocked(v.locked, id)
    ensures s == On <==> v.selected != id && !IsLocked(v.locked, id)
  {
    if v.selected == id then Blink
    else if IsLocked(v.locked, id) then Off
    else On
  }

  /**
   * A state sync addressed to this node: unpack the snapshot, derive the
   * LED state, and make it both the current and the saved state.  Entering
   * BLINK restarts the blink timer; the blink phase is not touched.
   */
  function OnStateSync(n: Node, id: NodeId, value: bv8, now: nat): (m: Node)
    ensures LedStateOf(m.current) == Some(DeriveLed(id, StateSync.Unpack(value)))
    ensures m.saved == m.current
    ensures m.lastBlink == (if m.current == LedCode(Blink) then now else n.lastBlink)
    ensures m.blinkOn == n.blinkOn && m.button == n.button
    ensures m.lastHeartbeat == n.lastHeartbeat && m.connected == n.connected
  {
    var led := DeriveLed(id, StateSync.Unpack(value));
    var code := LedCode(led);
    LedCodesInvertible();
    n.(current := code, saved := code, lastBlink := if led == Blink then now else n.lastBlink)
  }

  /**
   * An LED command addressed to this node: its value, whatever it is,
   * becomes the current and the saved state.  ON forces the blink phase
   * high and OFF forces it low; any other value leaves the phase alone.
   */
  function OnLedCommand(n: Node, value: bv8): (m: Node)
    ensures m.current == value && m.saved == value
    ensures LedStateOf(value) == Some(On) ==> m.blinkOn
    ensures LedStateOf(value) == Some(Off) ==> !m.blinkOn
    ensures LedStateOf(value) != Some(On) && LedStateOf(value) != Some(Off) ==> m.blinkOn == n.blinkOn
    ensures m.lastBlink == n.lastBlink && m.button == n.button
    ensures m.lastHeartbeat == n.lastHeartbeat && m.connected == n.connected
  {
    var blinkOn := if value == LedCode(On) then true else if value == LedCode(Off) then false else n.blinkOn;
    n.(current := value, saved := value, blinkOn := blinkOn)
  }

  /**
   * `onDataReceive`: drop frames of the wrong size; a heartbeat is taken
   * whatever node id it carries; state syncs and LED commands for another
   * node, and every other message type, change nothing.
   */
  function Receive(n: Node, id: NodeId, bytes: seq<bv8>, now: nat): (r: Reaction)
    ensures |bytes| != FRAME_SIZE ==> r == Reaction(n, [])
    ensures |bytes| == FRAME_SIZE && MessageTypeOf(bytes[1]) == Some(Heartbeat) ==> r == OnHeartbeat(n, id, now)
    ensures |bytes| == FRAME_SIZE && MessageTypeOf(bytes[1]) == Some(StateSync) && bytes[0] == id ==>
              r == Reaction(OnStateSync(n, id, bytes[2], now), [])
    ensures |bytes| == FRAME_SIZE && MessageTypeOf(bytes[1]) == Some(LedCommand) && bytes[0] == id ==>
              r == Reaction(OnLedCommand(n, bytes[2]), [])
    ensures |bytes| == FRAME_SIZE && MessageTypeOf(bytes[1]) != Some(Heartbeat) && bytes[0] != id ==> r == Reaction(n, [])
    ensures |bytes| == FRAME_SIZE && MessageTypeOf(bytes[1]) !in {Some(Heartbeat), Some(StateSync), Some(LedCommand)} ==>
              r == Reaction(n, [])
  {
    MessageCodesInvertible();
    match Decode(bytes)
    case Failure(_) => Reaction(n, [])
    case Success(f) =>
      if f.msgType == MessageCode(Heartbeat) then OnHeartbeat(n, id, now)
      else if f.msgType == MessageCode(StateSync) && f.nodeId == id then Reaction(OnStateSync(n, id, f.value, now), [])
      else if f.nodeId == id && f.msgType == MessageCode(LedCommand) then Reaction(OnLedCommand(n, f.value), [])
      else Reaction(n, [])
  }

  // ---------------------------------------------------------------------
  // Connection monitor and LED animation
  // ---------------------------------------------------------------------

  /** Whether a connected node has heard nothing for strictly longer than the timeout. */
  predicate TimedOut(n: Node, now: nat)
  {
    n.connected && now - n.lastHeartbeat > Config.CONNECTION_TIMEOUT_MS
  }

  /**
   * `checkConnection`: on timeout the node becomes disconnected, saves the
   * state it was showing and starts the fast disconnected blink from now.
   * Otherwise nothing changes.
   */
  function CheckConnection(n: Node, now: nat): (m: Node)
    ensures TimedOut(n, now) ==> m == n.(connected := false, saved := n.current, current := LedCode(Blink), lastBlink := now)
    ensures !TimedOut(n, now) ==> m == n
    ensures !TimedOut(m, now)
  {
    if n.connected && now - n.lastHeartbeat > Config.CONNECTION_TIMEOUT_MS then
      n.(connected := false, saved := n.current, current := LedCode(Blink), lastBlink := now)
    else
      n
  }

  /** Silence of exactly the timeout keeps a node connected; one more millisecond disconnects it. */
  lemma TimeoutIsStrict(n: Node)
    requires n.connected
    ensures CheckConnection(n, n.lastHeartbeat + Config.CONNECTION_TIMEOUT_MS) == n
    ensures !CheckConnection(n, n.lastHeartbeat + Config.CONNECTION_TIMEOUT_MS + 1).connected
  {
  }

  /** Checking twice is checking once, and a disconnected node stays as it is at every later check. */
  lemma CheckConnectionIdempotent(n: Node, now: nat, later: nat)
    ensures CheckConnection(CheckConnection(n, now), now) == CheckConnection(n, now)
    ensures !n.connected ==> CheckConnection(n, later) == n
  {
  }

  /** The blink half-period: slow while connected, fast while disconnected. */
  function BlinkInterval(n: Node): (ms: nat)
    ensures n.connected ==> ms == Config.BLINK_INTERVAL_MS
    ensures !n.connected ==> ms == Config.DISCONNECT_BLINK_INTERVAL_MS
  {
    if n.connected then Config.BLINK_INTERVAL_MS else Config.DISCONNECT_BLINK_INTERVAL_MS
  }

  /**
   * The state change of `handleLED`: only a blinking node whose half-period
   * has elapsed changes, flipping its phase and restarting the timer.  ON,
   * OFF and unknown codes leave every field as it is.
   */
  function HandleLed(n: Node, now: nat): (m: Node)
    ensures m.current == n.current && m.saved == n.saved && m.button == n.button
    ensures m.lastHeartbeat == n.lastHeartbeat && m.connected == n.connected
    ensures LedStateOf(n.current) != Some(Blink) ==> m == n
    ensures LedStateOf(n.current) == Some(Blink) ==>
              ((m.blinkOn == !n.blinkOn && m.lastBlink == now) <==> now - n.lastBlink >= BlinkInterval(n))
    ensures m == n || (m.blinkOn == !n.blinkOn && m.lastBlink == now)
  {
    LedCodesInvertible();
    if n.current == LedCode(Blink) && now - n.lastBlink >= BlinkInterval(n) then
      n.(blinkOn := !n.blinkOn, lastBlink := now)
    else
      n
  }

  /** The node after a series of LED-handler calls, and the times at which its phase flipped. */
  datatype Ticked = Ticked(node: Node, flips: seq<nat>)

  function Ticks(n: Node, ts: seq<nat>): Ticked
    decreases |ts|
  {
    if ts == [] then Ticked(n, [])
    else
      var m := HandleLed(n, ts[0]);
      var rest := Ticks(m, ts[1..]);
      Ticked(rest.node, (if m.blinkOn != n.blinkOn then [ts[0]] else []) + rest.flips)
  }

  /**
   * Over any series of LED-handler calls, successive phase flips are at
   * least one blink interval apart, and the first comes at least one
   * interval after the last recorded flip.
   */
  lemma {:induction false} BlinkFlipsSpaced(n: Node, ts: seq<nat>)
    ensures var fs := Ticks(n, ts).flips;
            && (fs != [] ==> fs[0] >= n.lastBlink + BlinkInterval(n))
            && forall k | 0 < k < |fs| :: fs[k] >= fs[k - 1] + BlinkInterval(n)
    decreases |ts|
  {
    if ts != [] {
      var m := HandleLed(n, ts[0]);
      BlinkFlipsSpaced(m, ts[1..]);
      var rest := Ticks(m, ts[1..]).flips;
      var fs := Ticks(n, ts).flips;
      assert BlinkInterval(m) == BlinkInterval(n);
      if m.blinkOn != n.blinkOn {
        assert fs == [ts[0]] + rest;
        assert m.lastBlink == ts[0];
        forall k | 0 < k < |fs|
          ensures fs[k] >= fs[k - 1] + BlinkInterval(n)
        {
          assert fs[k] == rest[k - 1];
          if k > 1 {
            assert fs[k - 1] == rest[k - 2];
          }
        }
      } else {
        assert m == n;
        assert fs == rest;
      }
    }
  }

  /**
   * Over any series of LED-handler calls only the blink phase and timer
   * change: the phase reflects the parity of the flips and the timer holds
   * the latest flip.  A node showing anything but BLINK never flips and is
   * left exactly as it was.
   */
  lemma {:induction false} TicksOnlyBlink(n: Node, ts: seq<nat>)
    ensures var t := Ticks(n, ts);
            && t.node == n.(blinkOn := t.node.blinkOn, lastBlink := t.node.lastBlink)
            && t.node.blinkOn == (if |t.flips| % 2 == 0 then n.blinkOn else !n.blinkOn)
            && t.node.lastBlink == (if t.flips == [] then n.lastBlink else t.flips[|t.flips| - 1])
            && (LedStateOf(n.current) != Some(Blink) ==> t.node == n && t.flips == [])
    decreases |ts|
  {
    if ts != [] {
      var m := HandleLed(n, ts[0]);
      TicksOnlyBlink(m, ts[1..]);
      var rest := Ticks(m, ts[1..]);
      var t := Ticks(n, ts);
      if m.blinkOn != n.blinkOn {
        assert t.flips == [ts[0]] + rest.flips;
      } else {
        assert m == n;
        assert t.flips == rest.flips;
      }
    }
  }

  // ---------------------------------------------------------------------
  // Button and retries
  // ---------------------------------------------------------------------

  /** Whether transmission attempt `j` is accepted by the radio (`ok` lists the radio's answers). */
  predicate Accepted(ok: seq<bool>, j: nat)
  {
    j < |ok| && ok[j]
  }

  /**
   * The number of transmissions the retry loop makes from attempt `i` on:
   * it stops right after the first accepted attempt and never goes past
   * MAX_RETRIES attempts in all.
   */
  function Attempts(ok: seq<bool>, i: nat): (k: nat)
    requires i <= Config.MAX_RETRIES
    ensures i + k <= Config.MAX_RETRIES
    ensures i < Config.MAX_RETRIES ==> k >= 1
    ensures forall j | i <= j < i + k - 1 :: !Accepted(ok, j)
    ensures i + k < Config.MAX_RETRIES ==> Accepted(ok, i + k - 1)
    ensures (exists j | i <= j < Config.MAX_RETRIES :: Accepted(ok, j)) ==> k >= 1 && Accepted(ok, i + k - 1)
    decreases Config.MAX_RETRIES - i
  {
    if i == Config.MAX_RETRIES then 0
    else if Accepted(ok, i) then 1
    else 1 + Attempts(ok, i + 1)
  }

  /** The button-press frame this node sends. */
  function PressFrame(id: NodeId, now: nat): Frame
  {
    Frame(id, MessageCode(ButtonPress), 1, Stamp(now))
  }

  /**
   * `handleButton`: poll the debouncer; on an accepted press send the press
   * frame, retrying on radio errors until it is accepted or MAX_RETRIES
   * attempts have been made, then give up silently.  Only the debouncer
   * changes.  Waiting for the button's release is not modelled.
   */
  function HandleButton(n: Node, id: NodeId, reading: Debounce.Level, now: nat, ok: seq<bool>): (r: Reaction)
    ensures r.next == n.(button := Debounce.Poll(n.button, reading, now).next)
    ensures |r.sent| > 0 <==> Debounce.Poll(n.button, reading, now).pressed
    ensures |r.sent| <= Config.MAX_RETRIES
    ensures forall k | 0 <= k < |r.sent| :: r.sent[k] == PressFrame(id, now)
    ensures forall j | 0 <= j < |r.sent| - 1 :: !Accepted(ok, j)
    ensures 0 < |r.sent| < Config.MAX_RETRIES ==> Accepted(ok, |r.sent| - 1)
  {
    var s := Debounce.Poll(n.button, reading, now);
    var sent := if s.pressed then seq(Attempts(ok, 0), _ => PressFrame(id, now)) else [];
    Reaction(n.(button := s.next), sent)
  }

  // ---------------------------------------------------------------------
  // Runs of node events
  // ---------------------------------------------------------------------

  /** Everything that can happen to a node: a received frame, or one of the main-loop steps. */
  datatype NodeEvent =
    | Received(bytes: seq<bv8>, at: nat)
    | ConnectionCheck(at: nat)
    | LedTick(at: nat)
    | ButtonPoll(reading: Debounce.Level, ok: seq<bool>, at: nat)

  function NodeStep(n: Node, id: NodeId, e: NodeEvent): Reaction
  {
    match e
    case Received(bytes, at) => Receive(n, id, bytes, at)
    case ConnectionCheck(at) => Reaction(CheckConnection(n, at), [])
    case LedTick(at) => Reaction(HandleLed(n, at), [])
    case ButtonPoll(reading, ok, at) => HandleButton(n, id, reading, at, ok)
  }

  /** The number of state-request frames in a list of sent frames. */
  function CountRequests(fs: seq<Frame>): nat
    decreases |fs|
  {
    if fs == [] then 0
    else (if fs[0].msgType == MessageCode(StateRequest) then 1 else 0) + CountRequests(fs[1..])
  }

  /** The final node, the state requests sent, and the timeouts seen over a run. */
  datatype Tally = Tally(node: Node, requests: nat, disconnects: nat)

  function Run(n: Node, id: NodeId, evs: seq<NodeEvent>): Tally
    decreases |evs|
  {
    if evs == [] then Tally(n, 0, 0)
    else
      var r := NodeStep(n, id, evs[0]);
      var rest := Run(r.next, id, evs[1..]);
      Tally(rest.node, rest.requests + CountRequests(r.sent),
            rest.disconnects + (if n.connected && !r.next.connected then 1 else 0))
  }

  lemma {:induction false} NoRequestsAmongPresses(fs: seq<Frame>, id: NodeId, now: nat)
    requires forall k | 0 <= k < |fs| :: fs[k] == PressFrame(id, now)
    ensures CountRequests(fs) == 0
    decreases |fs|
  {
    if fs != [] {
      NoRequestsAmongPresses(fs[1..], id, now);
    }
  }

  /** One step sends a state request exactly when it takes the node from disconnected to connected. */
  lemma StepRequests(n: Node, id: NodeId, e: NodeEvent)
    ensures CountRequests(NodeStep(n, id, e).sent) == if !n.connected && NodeStep(n, id, e).next.connected then 1 else 0
  {
    var r := NodeStep(n, id, e);
    match e
    case Received(bytes, at) =>
      if |bytes| == FRAME_SIZE && MessageTypeOf(bytes[1]) == Some(Heartbeat) && !n.connected {
        assert r.sent == [StateRequestFrame(id, at)];
        assert CountRequests(r.sent) == 1 + CountRequests([]);
      }
    case ConnectionCheck(at) =>
    case LedTick(at) =>
    case ButtonPoll(reading, ok, at) =>
      NoRequestsAmongPresses(r.sent, id, at);
  }

  /**
   * Over any run, every reconnection sends exactly one state request:
   * the requests sent, plus one if the node started connected, equal the
   * timeouts seen, plus one if it ends connected.
   */
  lemma {:induction false} OneRequestPerReconnect(n: Node, id: NodeId, evs: seq<NodeEvent>)
    ensures var t := Run(n, id, evs);
            t.requests + (if n.connected then 1 else 0) == t.disconnects + (if t.node.connected then 1 else 0)
    decreases |evs|
  {
    if evs != [] {
      var r := NodeStep(n, id, evs[0]);
      StepRequests(n, id, evs[0]);
      OneRequestPerReconnect(r.next, id, evs[1..]);
    }
  }
}
