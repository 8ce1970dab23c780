/** The application's data limits, from its configuration header. */
module AppConf {
  const MAX_INTERFACES: nat := 8
  const MAX_ALERTS: nat := 64
  const SHORT_LEN: nat := 60
  const LONG_LEN: nat := 1440
}
