/** How grave a finding is. */
module Severities {
  datatype Severity = Error | Warning | Note
}
