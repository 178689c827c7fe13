/**
 * How a node's display relates to what the coordinator commands.  Over LED
 * commands (src/controller.cpp:83-106 to src/buzzer_node.cpp:114-116) the
 * two always agree.  The node's state-sync derivation
 * (src/buzzer_node.cpp:89-107) agrees with the coordinator in Ready and in
 * partial lockout; in Locked they disagree for a node that is neither
 * selected nor locked out: the coordinator darkens it, the node lights it.
 */
module Agreement {
  import opened Wrappers
  import opened Protocol
  import Controller
  import BuzzerNode
  import StateSync

  /** The snapshot of a coordinator game, as a state-sync frame would carry it. */
  function SnapshotOf(g: Controller.Game): StateSync.Snapshot
  {
    StateSync.Snapshot(g.locked, g.selected, g.state == Controller.PartialLockout)
  }

  /** The LED state node `id` derives from a snapshot of `g`. */
  function SyncedLed(g: Controller.Game, id: NodeId): LedState
  {
    BuzzerNode.DeriveLed(id, StateSync.Unpack(StateSync.Pack(SnapshotOf(g))))
  }

  /** Unpacking the packed snapshot of a reachable game gives back its mask and selection. */
  lemma SnapshotRoundTrip(g: Controller.Game)
    requires Controller.Inv(g)
    ensures StateSync.Unpack(StateSync.Pack(SnapshotOf(g))) == StateSync.View(g.locked, g.selected)
  {
  }

  /**
   * On every reachable game: in Ready and partial lockout the synced LED is
   * the commanded one; in Locked it is the commanded one for the selected
   * node and for locked-out nodes, and ON where the coordinator sends OFF
   * for every other node.
   */
  lemma SyncMatchesCoordinator(g: Controller.Game, id: NodeId)
    requires Controller.Inv(g)
    ensures g.state != Controller.Locked ==> SyncedLed(g, id) == Controller.LedFor(g, id)
    ensures g.state == Controller.Locked && (id == g.selected || IsLocked(g.locked, id)) ==>
              SyncedLed(g, id) == Controller.LedFor(g, id)
    ensures g.state == Controller.Locked && id != g.selected && !IsLocked(g.locked, id) ==>
              SyncedLed(g, id) == On && Controller.LedFor(g, id) == Off
  {
  }

  /**
   * A node's display after a state sync depends only on the sync byte:
   * a node with any history shows what a freshly booted node would show.
   */
  lemma SyncForgetsHistory(n: BuzzerNode.Node, id: NodeId, value: bv8, now: nat, boot: nat)
    ensures BuzzerNode.OnStateSync(n, id, value, now).current
            == BuzzerNode.OnStateSync(BuzzerNode.Boot(boot), id, value, now).current
    ensures BuzzerNode.OnStateSync(n, id, value, now).saved
            == BuzzerNode.OnStateSync(BuzzerNode.Boot(boot), id, value, now).saved
  {
  }

  /**
   * The ordinary path: the LED command the coordinator sends to node `id`,
   * encoded, carried and received, leaves that node showing, and saving,
   * exactly the LED state the coordinator chose for it.
   */
  lemma CommandPathAgrees(g: Controller.Game, n: BuzzerNode.Node, id: NodeId, now: nat, t: nat)
    ensures var m := BuzzerNode.Receive(n, id, Encode(Controller.UpdateAllLeds(g, now)[id as int - 1]), t).next;
            && m.current == LedCode(Controller.LedFor(g, id))
            && m.saved == m.current
  {
    var fs := Controller.UpdateAllLeds(g, now);
    DecodeEncode(fs[id as int - 1]);
    MessageCodesInvertible();
    LedCodesInvertible();
  }

  /** The node after receiving each of `fs`, encoded, in order. */
  function Deliver(n: BuzzerNode.Node, id: NodeId, fs: seq<Frame>, t: nat): BuzzerNode.Node
    decreases |fs|
  {
    if fs == [] then n else Deliver(BuzzerNode.Receive(n, id, Encode(fs[0]), t).next, id, fs[1..], t)
  }

  /**
   * Receiving a run of LED commands addressed to consecutive ids from
   * `base` on: the node takes the value of the one frame addressed to it,
   * and is left unchanged when none is.
   */
  lemma {:induction false} DeliverCommands(n: BuzzerNode.Node, id: NodeId, fs: seq<Frame>, base: int, t: nat)
    requires forall k | 0 <= k < |fs| :: fs[k].nodeId as int == base + k && MessageTypeOf(fs[k].msgType) == Some(LedCommand)
    ensures base <= id as int < base + |fs| ==>
              Deliver(n, id, fs, t).current == fs[id as int - base].value && Deliver(n, id, fs, t).saved == fs[id as int - base].value
    ensures !(base <= id as int < base + |fs|) ==> Deliver(n, id, fs, t) == n
    decreases |fs|
  {
    if fs != [] {
      var bytes := Encode(fs[0]);
      var m := BuzzerNode.Receive(n, id, bytes, t).next;
      assert bytes[0] == fs[0].nodeId && bytes[1] == fs[0].msgType && bytes[2] == fs[0].value;
      DeliverCommands(m, id, fs[1..], base + 1, t);
      if id as int == base {
        assert m.current == fs[0].value && m.saved == fs[0].value;
      } else {
        assert m == n;
      }
    }
  }

  /**
   * A node that receives the whole batch the coordinator's LED update sends
   * (every node's command, in id order) ends up showing, and saving, the
   * LED state the coordinator chose for it: the other nodes' commands do
   * not touch it.
   */
  lemma BatchAgrees(g: Controller.Game, n: BuzzerNode.Node, id: NodeId, now: nat, t: nat)
    ensures Deliver(n, id, Controller.UpdateAllLeds(g, now), t).current == LedCode(Controller.LedFor(g, id))
    ensures Deliver(n, id, Controller.UpdateAllLeds(g, now), t).saved == LedCode(Controller.LedFor(g, id))
  {
    var fs := Controller.UpdateAllLeds(g, now);
    DeliverCommands(n, id, fs, 1, t);
    LedCodesInvertible();
    assert fs[id as int - 1].nodeId == id;
  }
}
