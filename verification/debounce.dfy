/**
 * The button debouncer used by the buzzer node (src/buzzer_node.cpp:145-156,
 * 184) and, three times over, by the coordinator's judge buttons
 * (src/controller.cpp:235-274).  A reading that differs from the previous
 * one restarts the settle window; a press is accepted when the line reads
 * LOW (pull-up: pressed) and has not changed for MORE than the window.
 */
module Debounce {
  import Config

  datatype Level = Low | High

  /** The previous reading and the time the line was last seen to change. */
  datatype Debouncer = Debouncer(last: Level, changedAt: nat)

  /** Power-on state: the line idles HIGH and no change has been seen. */
  function Initial(): (d: Debouncer)
    ensures d.last == High && d.changedAt == 0
  {
    Debouncer(High, 0)
  }

  datatype Sample = Sample(next: Debouncer, pressed: bool)

  /** One poll of the line at time `now`. */
  function Poll(d: Debouncer, reading: Level, now: nat): (r: Sample)
    ensures r.next.last == reading
    ensures r.pressed <==> reading == Low && d.last == Low && now - d.changedAt > Config.DEBOUNCE_DELAY_MS
    ensures reading == d.last ==> r.next.changedAt == d.changedAt
    ensures reading != d.last ==> r.next.changedAt == now && !r.pressed
  {
    var changedAt := if reading != d.last then now else d.changedAt;
    Sample(Debouncer(reading, changedAt), now - changedAt > Config.DEBOUNCE_DELAY_MS && reading == Low)
  }

  /**
   * After an accepted press the debouncer still holds the LOW reading, as
   * the firmware stores the reading taken before it waited for the release.
   * So a LOW at any later poll (a bounce of the release, or a quick second
   * press) is accepted at once, without a new settle window.
   */
  lemma LowAfterPressAcceptedAtOnce(d: Debouncer, t: nat, t2: nat)
    requires Poll(d, Low, t).pressed && t2 >= t
    ensures Poll(Poll(d, Low, t).next, Low, t2).pressed
  {
  }
}
