/** The part of rules.Alert (internal/rules/types.go) that the modelled code reads. */
module Alerts {
  datatype Alert = Alert(
    tenantID: string,
    severity: string,
    ruleID: string,
    ruleName: string,
    methodName: string,
    entity: string,
    layman: string,
    timestamp: int)

  /** Go's zero time, the value of a timestamp that was never set. */
  const ZERO_TIME: int := 0
}
