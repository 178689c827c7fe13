/**
 * The build-time constants of the quiz buzzer that the game logic, the
 * connection monitor, the debouncer and the message queue depend on
 * (src/config.h).  Pin numbers, PWM settings and the fade / fast-blink
 * constants are not used by the modelled code and are not repeated here.
 */
module Config {

  /** Number of buzzer nodes; node ids are 1..NUM_BUZZERS. */
  const NUM_BUZZERS: nat := 4

  /** A button level must be stable for MORE than this many ms to count. */
  const DEBOUNCE_DELAY_MS: nat := 50

  /** Upper bound on transmission attempts for one button press. */
  const MAX_RETRIES: nat := 3

  /** A node that heard no heartbeat for MORE than this many ms is disconnected. */
  const CONNECTION_TIMEOUT_MS: nat := 5000

  /** Blink half-period while connected. */
  const BLINK_INTERVAL_MS: nat := 500

  /** Blink half-period while disconnected (fast blink). */
  const DISCONNECT_BLINK_INTERVAL_MS: nat := 100

  /** Capacity of the coordinator's outgoing text-message ring buffer. */
  const MESSAGE_QUEUE_SIZE: nat := 10
}
