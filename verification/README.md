# Quiz buzzer arbiter — Dafny model

A model of the game logic of a wireless quiz-buzzer system: one coordinator
and four battery buzzer nodes that exchange fixed-size radio frames. The
coordinator decides which node buzzed first, locks out nodes that answered
wrongly, and pushes an LED mode to every node after each transition. Each
node reacts to LED commands and state-sync snapshots, watches coordinator
heartbeats to detect disconnection, blinks on a timer, and debounces its
button before sending a press with bounded retries.

Every handler is a pure function of the device record, its inputs and the
current time `now`. It returns the next record together with the frames it
transmits.

| file | module | models |
|---|---|---|
| `config.dfy` | `Config` | the constants used by the modelled code |
| `wrappers.dfy` | `Wrappers` | `Option` and `Result` |
| `protocol.dfy` | `Protocol` | message-type and LED-state codes, the frame and its 7-byte encoding, lock-mask bits |
| `message_queue.dfy` | `MessageQueue` | the coordinator's ring buffer of outgoing text tokens, abstracted to a bounded FIFO |
| `debounce.dfy` | `Debounce` | the button debouncer shared by the node and the coordinator's judge buttons |
| `controller.dfy` | `Controller` | game state, invariant, press/correct/wrong/reset, LED choice, receive path, judge buttons |
| `state_sync.dfy` | `StateSync` | the bit-packed snapshot byte: the node's unpacking and the matching packing |
| `buzzer_node.dfy` | `BuzzerNode` | frame reactions, heartbeat/timeout monitor, blink step, button with retries |
| `agreement.dfy` | `Agreement` | how the node's LED, after an LED command or a state sync, compares with the coordinator's choice |

Modelling choices:
- Bytes are `bv8` and the frame timestamp is `bv32`. Time is a `nat` and
  `now - last` is integer subtraction. Timestamps put into frames are `now`
  truncated to 32 bits (`Protocol.Stamp`).
- The node's current and saved LED states are raw code bytes. An LED
  command's value is cast to the enum without a range check
  (src/buzzer_node.cpp:116), so a code of 3 or more is stored as is. The LED
  handler then matches none of its cases for it.
- The node's build-time `NODE_ID` is the parameter `id: NodeId` (1..4).
- `Bit(id)` is `1 << (id - 1)` truncated to a byte. For ids above 8 it is 0.
  In C, shifts of 32 or more are undefined. The firmware only ever stores
  ids 0..4.
- The message types 4/5/6 (heartbeat, state request, state sync) are used by
  the node but missing from `protocol.h`. They are added with those codes.
- The frame layout is the packed 7-byte one: three bytes, then a
  little-endian 32-bit timestamp. The C struct's `sizeof` includes
  compiler padding; the model does not reproduce it.

Behaviour of the code a reader might not expect, which the model keeps:
- `handleCorrectAnswer` is not guarded on a selection
  (src/controller.cpp:145-158). A correct judgement with nothing selected
  still clears a partial lockout and queues "CORRECT" (`Controller.Correct`).
- The disconnected display is a fast BLINK at 100 ms
  (src/buzzer_node.cpp:204, 215). The fade constants and the breathing-effect
  comment in src/config.h:42-45 are used by none of the modelled code.
- The coordinator acts only on button-press frames (src/controller.cpp:221).
  It sends no heartbeats and never answers a state request, so no
  state-sync encoder exists in the code. `StateSync.Pack` is defined as the
  inverse of the node's unpacking so that the round trip can be stated.
- The node derives ON for an unselected, unlocked node while the game is
  Locked, where the coordinator commands OFF. `Agreement.SyncMatchesCoordinator`
  states this case split. Over LED commands, the ordinary path, node and
  coordinator always agree (`Agreement.CommandPathAgrees`, `Agreement.BatchAgrees`).
- After the wait for the button's release, the node stores the LOW reading
  taken before the wait as the last reading (src/buzzer_node.cpp:177-184).
  A LOW at the next poll, such as a bounce of the release, is then accepted
  at once with no new settle window (`Debounce.LowAfterPressAcceptedAtOnce`).
  The coordinator ignores the resulting second press from the node that
  already holds the floor (`Controller.DuplicatePressIgnored`).

## Model

| member | source | states |
|---|---|---|
| Protocol.MessageCode | src/protocol.h:7-11 | each message type has a code in 1..6, and decoding that code gives the type back |
| Protocol.MessageTypeOf | src/protocol.h:7-11 | exactly the bytes 1..6 name a message type |
| Protocol.MessageCodesInvertible | src/protocol.h:7-11 | distinct types have distinct codes; every known code is the code of the type it decodes to |
| Protocol.LedStateOf | src/protocol.h:14-18 | bytes of 3 or more name no LED state |
| Protocol.LedCode | src/protocol.h:14-18 | LED codes are 0/1/2 and decode back to their state |
| Protocol.LedCodesInvertible | src/protocol.h:14-18 | LED codes are injective and every valid code comes from its state |
| Protocol.Encode | src/protocol.h:21-26 | encoding is total, always yields the fixed frame length, and starts with node id, type and value |
| Protocol.Decode | src/buzzer_node.cpp:42-49 | input fails to decode exactly when its length is not the frame size; otherwise the first three bytes are the id, type and value |
| Protocol.DecodeEncode | src/protocol.h:21-26 | decoding an encoded frame returns the same id, type, value and any 32-bit timestamp |
| Protocol.EncodeDecode | src/protocol.h:21-26 | every byte string of frame size decodes and re-encodes to itself |
| Protocol.Bit | src/controller.cpp:20 | a node id 1..8 owns one single bit; ids 1..4 stay within the low four bits |
| Protocol.BitsDistinct | src/controller.cpp:20 | distinct ids own disjoint bits |
| MessageQueue.Contents | src/controller.cpp:40-43 | the ring holds as many messages as its count, at most MESSAGE_QUEUE_SIZE |
| MessageQueue.Empty | src/controller.cpp:40-43 | the queue starts empty |
| MessageQueue.Enqueue | src/controller.cpp:49-57 | queueing appends at the back when there is room; a full queue drops the message and is left unchanged |
| MessageQueue.Pop | src/controller.cpp:61-63 | advancing the head removes exactly the oldest message |
| MessageQueue.ProcessMessageQueue | src/controller.cpp:59-65 | draining emits every queued message in insertion order and leaves the count at 0 |
| MessageQueue.EnqueueAllAppend | src/controller.cpp:49-57 | queueing two lists in turn is queueing their concatenation |
| MessageQueue.EnqueueAllBounded | src/controller.cpp:49-57 | any series of enqueues keeps the count within capacity and, while there is room, preserves insertion order |
| Debounce.Initial | src/buzzer_node.cpp:28-29 | the line idles HIGH with no change recorded |
| Debounce.Poll | src/buzzer_node.cpp:146-156 | a press is accepted exactly when the reading is LOW and unchanged for more than DEBOUNCE_DELAY_MS; a change restarts the window |
| Debounce.LowAfterPressAcceptedAtOnce | src/buzzer_node.cpp:177-184 | after an accepted press, a LOW at any later poll is accepted again with no new settle window |
| StateSync.Unpack | src/buzzer_node.cpp:80-81 | the node reads the mask from bits 0-3 and the selection from bits 4-6, ignoring bit 7 |
| StateSync.Pack | src/buzzer_node.cpp:80-81 | for mask 0..15 and selection 0..7, unpacking the packed byte returns them; bit 7 is set exactly for partial lockout |
| StateSync.PackUnpack | src/buzzer_node.cpp:80-81 | every byte is the packing of what the node reads from it plus its bit 7 |
| StateSync.UnpackIgnoresBit7 | src/buzzer_node.cpp:80-81 | bit 7 never affects what the node reads |
| Controller.Initial | src/controller.cpp:18-20 | the coordinator starts in Ready with nothing selected, nothing locked and an empty queue |
| Controller.SendLedCommand | src/controller.cpp:71-81 | an LED command frame exists exactly for ids 1..NUM_BUZZERS and carries the id, the LED-command type and the LED code |
| Controller.LedCommandsFrom | src/controller.cpp:84-105 | the loop sends one command per remaining node, in id order, each carrying the state chosen for that node |
| Controller.UpdateAllLeds | src/controller.cpp:83-106 | four commands, ids 1..4; under the invariant Ready lights all, Locked blinks exactly the selected node and darkens the others, partial lockout darkens exactly the locked nodes |
| Controller.Press | src/controller.cpp:112-143 | a press out of range, from a locked-out node, or while Locked changes nothing and queues nothing; otherwise Locked with that node selected, mask unchanged, one "BUZZER:id" queued and all LEDs updated; the invariant is kept |
| Controller.Cleared | src/controller.cpp:149-151 | clearing gives Ready, no selection, empty mask |
| Controller.Correct | src/controller.cpp:145-158 | always Ready, nothing selected or locked, "CORRECT" queued, every node told ON, even with nothing selected |
| Controller.Reset | src/controller.cpp:192-205 | always Ready, nothing selected or locked, "RESET" queued, every node told ON |
| Controller.Wrong | src/controller.cpp:160-190 | with nothing selected, nothing changes and nothing is queued; otherwise the judged game is taken, "WRONG" queued and LEDs updated; the invariant is kept |
| Controller.Judged | src/controller.cpp:170-183 | the selected node is locked out and the selection cleared; a full mask resets to Ready with an empty mask, otherwise partial lockout with only that node's lock added |
| Controller.LockAddsOneNode | src/controller.cpp:171 | or-ing in a node's bit locks that node and no other |
| Controller.Receive | src/controller.cpp:211-224 | wrong-size frames and every type but button press are ignored; a press frame is handled as a press with its id and timestamp |
| Controller.ControlButtons | src/controller.cpp:235-274 | each judge button's debouncer advances; an accepted RESET or CORRECT ends in a cleared game; a WRONG accepted with CORRECT does nothing, otherwise it applies the wrong-answer judgement when a node is selected; the acting handlers' tokens are queued in CORRECT, WRONG, RESET order, each sends one batch of four LED commands, and the last batch shows the final game; with no press nothing changes; the invariant is kept |
| Controller.Boot | src/controller.cpp:346-348 | at start every node is told ON, in id order |
| Controller.RunPreservesInv | src/controller.cpp:112-205 | any run of events from a state satisfying the invariant keeps it |
| Controller.ReachableInvariant | src/controller.cpp:18-20 | from power-on: selection nonzero iff Locked, the selected node is never locked, Ready has an empty mask, partial lockout a non-empty one, the mask stays within 0x0F and never equals it |
| Controller.DuplicatePressIgnored | src/controller.cpp:113-142 | the same node pressing again after any press changes nothing and queues no second token |
| Controller.PartialLockoutNeverBlinks | src/controller.cpp:95-98 | in partial lockout the blink branch is never taken |
| BuzzerNode.Boot | src/buzzer_node.cpp:299-306 | the node boots disconnected, blinking, with saved state OFF and both clocks at boot time |
| BuzzerNode.OnHeartbeat | src/buzzer_node.cpp:52-73 | a heartbeat refreshes the heartbeat time; when disconnected it connects and sends exactly one state request with this id and value 0; when connected it sends nothing |
| BuzzerNode.DeriveLed | src/buzzer_node.cpp:89-107 | BLINK exactly when selected; otherwise OFF exactly when locked, else ON |
| BuzzerNode.OnStateSync | src/buzzer_node.cpp:76-112 | the derived state becomes both current and saved; the blink timer restarts only for BLINK; connection state is untouched |
| BuzzerNode.OnLedCommand | src/buzzer_node.cpp:115-130 | the command value becomes current and saved; ON forces the blink phase high, OFF low, other values leave it |
| BuzzerNode.Receive | src/buzzer_node.cpp:42-131 | wrong-size frames are dropped; heartbeats are taken whatever their id; syncs and commands for another node are ignored |
| BuzzerNode.CheckConnection | src/buzzer_node.cpp:191-207 | only a timed-out connected node changes: disconnected, prior state saved, BLINK from now; afterwards no timeout is pending |
| BuzzerNode.TimeoutIsStrict | src/buzzer_node.cpp:196 | silence of exactly CONNECTION_TIMEOUT_MS stays connected; one more millisecond disconnects |
| BuzzerNode.CheckConnectionIdempotent | src/buzzer_node.cpp:191-207 | checking twice equals checking once; a disconnected node is never changed by a check |
| BuzzerNode.BlinkInterval | src/buzzer_node.cpp:215 | 500 ms while connected, 100 ms while disconnected |
| BuzzerNode.HandleLed | src/buzzer_node.cpp:213-236 | only BLINK changes state: the phase flips and the timer restarts exactly when the interval has elapsed |
| BuzzerNode.BlinkFlipsSpaced | src/buzzer_node.cpp:213-236 | over any series of LED-handler calls, successive blink-phase flips are at least one blink interval apart, the first at least one interval after the last recorded flip |
| BuzzerNode.TicksOnlyBlink | src/buzzer_node.cpp:213-236 | over any series of LED-handler calls only the phase and timer change; the phase follows the parity of the flips and the timer holds the latest one; an ON, OFF or unknown display is a fixed point |
| BuzzerNode.Attempts | src/buzzer_node.cpp:167-175 | between one and MAX_RETRIES attempts, every attempt but the last refused, stopping at the first accepted one |
| BuzzerNode.HandleButton | src/buzzer_node.cpp:145-185 | press frames are sent only for a debounced LOW, at most MAX_RETRIES identical ones, stopping at the first accepted; only the debouncer changes |
| BuzzerNode.StepRequests | src/buzzer_node.cpp:52-73 | a step sends a state request exactly when it takes the node from disconnected to connected |
| BuzzerNode.OneRequestPerReconnect | src/buzzer_node.cpp:52-207 | over any run, state requests sent match reconnections: requests plus initial connectedness equal timeouts plus final connectedness |
| Agreement.SnapshotRoundTrip | src/buzzer_node.cpp:80-81 | for every reachable game, unpacking its packed snapshot gives its mask and selection |
| Agreement.SyncMatchesCoordinator | src/buzzer_node.cpp:97-107 | the synced LED equals the coordinator's in Ready and partial lockout, and in Locked for the selected and locked nodes; other nodes get ON where the coordinator sends OFF |
| Agreement.CommandPathAgrees | src/controller.cpp:71-105 | the LED command the coordinator sends a node, encoded and received (src/buzzer_node.cpp:114-116), leaves the node showing and saving the state the coordinator chose for it |
| Agreement.DeliverCommands | src/buzzer_node.cpp:114-116 | receiving LED commands for consecutive ids, a node takes the value of the one addressed to it and is untouched when none is |
| Agreement.BatchAgrees | src/controller.cpp:83-106 | a node receiving the coordinator's whole LED-update batch ends up showing and saving the state the coordinator chose for it |
| Agreement.SyncForgetsHistory | src/buzzer_node.cpp:97-109 | after a sync, the current and saved states depend only on the sync byte, as for a freshly booted node |

## Left out

- Radio bring-up, custom MAC addresses and peer registration in both `setup` functions: foreign radio-stack calls. Only the success path of both boots is modelled: the coordinator's `setup` also returns before its LED update when radio start-up fails (src/controller.cpp:313-316).
- Serial diagnostics: only the tokens placed in the message queue are modelled.
- Pin reads and writes: button readings are inputs. The LED pin level driven by the LED handler is not modelled; its state changes are.
- The blocking waits for button release (src/controller.cpp:244, 257, 270; src/buzzer_node.cpp:178) and `delay` calls: the next poll's reading is simply an input.
- Concurrency between the radio callbacks and the main loop: each callback is one atomic step.
- `millis()` wrap-around: time is unbounded; only the 32-bit timestamp field truncates it.
- Compiler padding of the frame struct: the encoding is the packed 7-byte layout.
- The send-completion callback `onDataSent` only prints: not modelled. The radio's answer to each send attempt is the `ok` input of `HandleButton`.
- Coordinator heartbeat emission, state-request handling and state-sync encoding, fade animation and power policy: not present in this code.
- Controller.ControlButtons: the firmware reads the clock separately for each button and for each check; the model uses one `now` per poll.
- BuzzerNode.HandleButton: the firmware reads the clock for the debounce check and again for the frame's timestamp (src/buzzer_node.cpp:150, 154, 162); the model uses one `now` per poll.
- Controller.UpdateAllLeds: every LED command reads the clock for its own timestamp (src/controller.cpp:78); the model stamps the whole batch with one `now`.
