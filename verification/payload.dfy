/** Audit events: what leaves the pod about one decision. */
module Payload {
  import opened Values
  import opened Evaluator

  /** A subject identifier as forwarded. The keyed HMAC is idealised as the term of its
      inputs, so two pseudonyms are equal exactly when key and subject are. */
  datatype Subject = Nobody | Raw(id: string) | Pseudonym(key: string, subject: string)

  /** The tenant slug's version-5 UUID, idealised as the slug it is derived from. */
  datatype CustomerId = CustomerId(tenant: string)

  /** An audit event without its event id, wall-clock time and latency. */
  datatype AuditEvent = AuditEvent(
    customerId: CustomerId,
    agentId: string,
    subjectId: Subject,
    policyId: string,
    decision: string,
    reason: Reason,
    actionType: string,
    actionPayload: map<string, Value>,
    frameworkTags: seq<string>,
    redactions: seq<string>,
    ruleId: string)

  /** A missing or empty subject is nobody, and so is any subject when there is no key. */
  function HashSubject(subject: Option<string>, key: string): Subject {
    if subject.None? || subject.value == "" || key == "" then Nobody
    else Pseudonym(key, subject.value)
  }

  function RawSubject(subject: Option<string>): Subject {
    if subject.None? || subject.value == "" then Nobody else Raw(subject.value)
  }

  function BuildAuditEvent(tenantId: string, agentId: Option<string>, subject: Subject, policyId: string,
                           result: EvaluationResult, tool: string, args: map<string, Value>): AuditEvent {
    AuditEvent(CustomerId(tenantId), if agentId.Some? then agentId.value else "", subject, policyId,
               result.verdict, result.reason, tool, args,
               result.matchedFrameworkTags, result.redactions, result.ruleId)
  }
}
