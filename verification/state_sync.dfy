/**
 * The bit-packed game snapshot carried in the value byte of a state-sync
 * frame.  The node unpacks it at src/buzzer_node.cpp:80-81: bits 0-3 are
 * the lock mask, bits 4-6 the selected node, bit 7 is not read.  No
 * packing code exists in the coordinator; `Pack` is defined here as the
 * inverse of the node's unpacking (bit 7 set for partial lockout) so that
 * the round trip can be stated.
 */
module StateSync {

  /** The game facts a snapshot carries. */
  datatype Snapshot = Snapshot(locked: bv8, selected: bv8, partial: bool)

  /** What the node reads out of a snapshot byte. */
  datatype View = View(locked: bv8, selected: bv8)

  /** The node's unpacking: `value & 0x0F` and `(value >> 4) & 0x07`. */
  function Unpack(value: bv8): (v: View)
    ensures v.locked <= 0x0F && v.selected <= 0x07
    ensures v.locked | (v.selected << 4) == value & 0x7F
  {
    View(value & 0x0F, (value >> 4) & 0x07)
  }

  /** Pack a snapshot: mask in bits 0-3, selected id in bits 4-6, partial lockout in bit 7. */
  function Pack(s: Snapshot): (value: bv8)
    ensures (value & 0x80 != 0) <==> s.partial
    ensures s.locked <= 0x0F && s.selected <= 0x07 ==> Unpack(value) == View(s.locked, s.selected)
  {
    (s.locked & 0x0F) | ((s.selected & 0x07) << 4) | (if s.partial then 0x80 else 0)
  }

  /** Every byte is the packing of what the node unpacks from it together with its bit 7. */
  lemma PackUnpack(value: bv8)
    ensures Pack(Snapshot(Unpack(value).locked, Unpack(value).selected, value & 0x80 != 0)) == value
  {
  }

  /** Bit 7 never influences what the node reads. */
  lemma UnpackIgnoresBit7(value: bv8)
    ensures Unpack(value | 0x80) == Unpack(value & 0x7F)
  {
  }
}
