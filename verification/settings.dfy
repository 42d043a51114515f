/**
 * Fixed configuration the reports depend on. Time is counted in microseconds
 * since the Unix epoch (UTC), the resolution of a PostgreSQL timestamp.
 */
module Settings {

  const MicrosPerHour: int := 3_600_000_000
  const MicrosPerDay: int := 24 * MicrosPerHour

  /** `INTERVAL '1 week'`, the trailing window of the trend and stacked reports. */
  const Week: int := 7 * MicrosPerDay

  /** `INTERVAL '24 hours'`, the trailing window of the ranking report. */
  const Hours24: int := 24 * MicrosPerHour

  /**
   * Assumed offset from UTC of the zone in which `DATE_TRUNC('day', time)`
   * cuts days: UTC+8, the application's configured Asia/Shanghai (no daylight
   * saving). The database session's own zone decides this, and the code does
   * not set it.
   */
  const UtcOffset: int := 8 * MicrosPerHour
}
