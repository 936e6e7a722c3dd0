/**
 * Units of the monotonic clock (std::chrono::steady_clock) shared by the
 * timer and the delayed-action table. An instant is an integer count of
 * clock ticks; a tick is one nanosecond, the period of steady_clock in the
 * usual C++ standard library implementations. Reading the clock is not
 * modelled: every operation takes the instant it would have read as an
 * explicit parameter.
 */
module SteadyClock {
  /** Ticks in one microsecond (the unit of timer::until_now before scaling). */
  const NanosPerMicro: int := 1000

  /** Ticks in one millisecond (the unit of the delay of delayed_action_handler::insert). */
  const NanosPerMilli: int := 1000000
}
