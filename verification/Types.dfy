/** Requests, decisions and audit events as the services exchange them. */
module Types {
  import opened Wrappers

  datatype ActionRequest = ActionRequest(
    version: string, requestId: string, correlationId: string,
    subject: string, action: string, resource: string)

  datatype ActionStatus = Executed | Denied | Failed

  datatype ActionResult = ActionResult(version: string, status: ActionStatus, message: string)

  datatype Effect = Allow | Deny

  datatype DecisionRecord = DecisionRecord(version: string, effect: Effect, reason: string, ruleId: Option<string>)

  datatype AuditEvent = AuditEvent(
    version: string, requestId: string, correlationId: string, timestamp: nat,
    subject: string, action: string, resource: string,
    decision: DecisionRecord, outcome: ActionStatus)

  // The reply of the policy service on the wire.
  datatype Response = Response(effect: string, reason: string, ruleId: string)

  // Why a policy call gave no decision.
  datatype Unavailable = CircuitOpen | InvalidMetadata | ServiceStatus(code: Code) | CallTimedOut

  datatype Code =
    | Cancelled | Unknown | InvalidArgument | DeadlineExceeded | NotFound | AlreadyExists
    | PermissionDenied | ResourceExhausted | FailedPrecondition | Aborted | OutOfRange
    | Unimplemented | Internal | ServiceUnavailable | DataLoss | Unauthenticated
}
