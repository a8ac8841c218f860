/**
 * The request schemas of the service layer (src/types/index.ts).
 *
 * Each schema is a raw record, as a request body carries it (absent fields
 * are `None`), and a `Parse` function that answers `None` exactly when the
 * schema rejects the record and otherwise returns it with the schema's
 * defaults filled in.  Strings are `seq<char>`, dates are whole days.
 */
module Types {
  import opened Wrappers

  datatype AckStatus = NotAcknowledged | Acknowledged | Pending
  datatype AckType = NewHire | Periodic | Manual
  datatype ApprovalStatus = Accepted | Declined

  function AckTypeOf(s: string): (r: Option<AckType>)
    ensures r.Some? <==> s in {"new_hire", "periodic", "manual"}
    ensures r == Some(NewHire) <==> s == "new_hire"
    ensures r == Some(Periodic) <==> s == "periodic"
    ensures r == Some(Manual) <==> s == "manual"
  {
    if s == "new_hire" then Some(NewHire)
    else if s == "periodic" then Some(Periodic)
    else if s == "manual" then Some(Manual)
    else None
  }

  function AckStatusOf(s: string): (r: Option<AckStatus>)
    ensures r.Some? <==> s in {"pending", "acknowledged", "not_acknowledged"}
    ensures r == Some(Pending) <==> s == "pending"
    ensures r == Some(Acknowledged) <==> s == "acknowledged"
    ensures r == Some(NotAcknowledged) <==> s == "not_acknowledged"
  {
    if s == "pending" then Some(Pending)
    else if s == "acknowledged" then Some(Acknowledged)
    else if s == "not_acknowledged" then Some(NotAcknowledged)
    else None
  }

  function ApprovalStatusOf(s: string): (r: Option<ApprovalStatus>)
    ensures r.Some? <==> s in {"accepted", "declined"}
    ensures r == Some(Accepted) <==> s == "accepted"
    ensures r == Some(Declined) <==> s == "declined"
  {
    if s == "accepted" then Some(Accepted)
    else if s == "declined" then Some(Declined)
    else None
  }

  predicate NonEmptyIfGiven(s: Option<string>) {
    s.Some? ==> |s.value| > 0
  }

  // ---------------------------------------------------------------- PolicySchema

  /** A policy as the create and upsert operations receive it.  `kind` is the
      source's `type` field.  The nested `configurations` and
      `acknowledgements` arrays are not part of this model. */
  datatype PolicyInput = PolicyInput(
    id: Option<int>,
    name: string,
    kind: string,
    content: string,
    version: int,
    isActive: Option<bool>,
    companyId: int,
    templateId: Option<int>,
    approvedBy: Option<string>,
    policyRoles: Option<seq<string>>)

  predicate ValidPolicyInput(p: PolicyInput) {
    && |p.name| > 0 && |p.kind| > 0 && |p.content| > 0
    && p.version > 0
    && p.companyId > 0
    && (p.templateId.Some? ==> p.templateId.value > 0)
    && (p.policyRoles.Some? ==> forall r :: r in p.policyRoles.value ==> |r| > 0)
  }

  /** The one default of the policy schema: `is_active` is false when absent. */
  function FillPolicyDefaults(p: PolicyInput): PolicyInput {
    p.(isActive := Some(p.isActive.GetOr(false)))
  }

  function ParsePolicy(p: PolicyInput): (r: Option<PolicyInput>)
    ensures r.Some? <==> ValidPolicyInput(p)
    ensures r.Some? ==> ValidPolicyInput(r.value) && r.value.isActive.Some?
    ensures r.Some? ==> (r.value.isActive.value <==> p.isActive == Some(true))
    ensures r.Some? ==> r.value.(isActive := p.isActive) == p
  {
    if ValidPolicyInput(p) then Some(FillPolicyDefaults(p)) else None
  }

  /** Parsing is idempotent: a parsed policy parses to itself. */
  lemma ParsePolicyIdempotent(p: PolicyInput)
    requires ParsePolicy(p).Some?
    ensures ParsePolicy(ParsePolicy(p).value) == ParsePolicy(p)
  {
  }

  // ------------------------------------------------------- PolicyApprovalSchema

  datatype ApprovalInput = ApprovalInput(approvedBy: string, status: string)

  function ParseApproval(a: ApprovalInput): (r: Option<ApprovalStatus>)
    ensures r.Some? <==> |a.approvedBy| > 0 && a.status in {"accepted", "declined"}
    ensures r == Some(Accepted) <==> |a.approvedBy| > 0 && a.status == "accepted"
  {
    if |a.approvedBy| > 0 then ApprovalStatusOf(a.status) else None
  }

  // ------------------------------------------------ AcknowledgementRequestSchema

  datatype AckRequestInput = AckRequestInput(
    userId: int,
    policyId: int,
    ackType: string,
    status: Option<string>,
    version: Option<int>,
    isWithin30Days: Option<bool>,
    dueDate: int,
    requestDate: Option<int>,
    isEscalated: Option<bool>,
    triggeredBy: Option<string>)

  datatype AckRequest = AckRequest(
    userId: int,
    policyId: int,
    ackType: AckType,
    status: Option<AckStatus>,
    version: int,
    isWithin30Days: bool,
    dueDate: int,
    requestDate: Option<int>,
    isEscalated: bool,
    triggeredBy: Option<string>)

  predicate ValidAckRequestInput(a: AckRequestInput) {
    && a.userId > 0
    && a.policyId > 0
    && AckTypeOf(a.ackType).Some?
    && (a.status.Some? ==> AckStatusOf(a.status.value).Some?)
    && (a.version.Some? ==> a.version.value > 0)
  }

  function ParseAckRequest(a: AckRequestInput): (r: Option<AckRequest>)
    ensures r.Some? <==> ValidAckRequestInput(a)
    ensures r.Some? ==> r.value.userId > 0 && r.value.policyId > 0 && r.value.version > 0
    ensures r.Some? ==> Some(r.value.ackType) == AckTypeOf(a.ackType)
    ensures r.Some? ==> r.value.version == (if a.version.Some? then a.version.value else 1)
    ensures r.Some? ==> (r.value.isWithin30Days <==> a.isWithin30Days == Some(true))
    ensures r.Some? ==> (r.value.isEscalated <==> a.isEscalated == Some(true))
    ensures r.Some? ==> (r.value.status.Some? <==> a.status.Some?)
    ensures r.Some? && a.status.Some? ==> r.value.status == AckStatusOf(a.status.value)
    ensures r.Some? ==>
      && r.value.dueDate == a.dueDate && r.value.requestDate == a.requestDate
      && r.value.triggeredBy == a.triggeredBy
  {
    if !ValidAckRequestInput(a) then None
    else
      Some(AckRequest(
        a.userId, a.policyId, AckTypeOf(a.ackType).value,
        if a.status.Some? then AckStatusOf(a.status.value) else None,
        a.version.GetOr(1),
        a.isWithin30Days.GetOr(false),
        a.dueDate, a.requestDate,
        a.isEscalated.GetOr(false),
        a.triggeredBy))
  }

  // ---------------------------------------------------- AcknowledgePolicySchema

  datatype AcknowledgePolicyInput = AcknowledgePolicyInput(
    employeeId: int,
    policyId: int,
    version: int,
    acknowledgedAt: Option<int>,
    acknowledgedBy: Option<string>,
    status: string,
    isWithin30Days: Option<bool>,
    notes: Option<string>)

  /** The schema has no defaults: a record it accepts comes back unchanged. */
  function ParseAcknowledgePolicy(a: AcknowledgePolicyInput): (r: Option<AcknowledgePolicyInput>)
    ensures r.Some? <==>
      a.employeeId > 0 && a.policyId > 0 && a.version > 0
      && a.status in {"acknowledged", "not_acknowledged"}
    ensures r.Some? ==> r.value == a
  {
    if a.employeeId > 0 && a.policyId > 0 && a.version > 0
       && (a.status == "acknowledged" || a.status == "not_acknowledged")
    then Some(a) else None
  }

  // ------------------------------------------------------- PolicyTemplateSchema

  /** A template as the create and update operations receive it. */
  datatype TemplateInput = TemplateInput(
    name: Option<string>,
    kind: Option<string>,
    defaultContent: Option<string>,
    version: Option<int>,
    isActive: Option<bool>,
    createdBy: Option<string>,
    policies: Option<seq<PolicyInput>>)

  /** The record of an absent request body: every field absent. */
  const NoTemplateInput := TemplateInput(None, None, None, None, None, None, None)

  predicate ValidTemplateInput(t: TemplateInput) {
    && NonEmptyIfGiven(t.name)
    && NonEmptyIfGiven(t.kind)
    && NonEmptyIfGiven(t.defaultContent)
    && (t.version.Some? ==> t.version.value > 0)
    && (t.policies.Some? ==> forall p :: p in t.policies.value ==> ValidPolicyInput(p))
  }

  /** `version` and `is_active` are written `.default(..).optional()`: the
      optional wrapper answers an absent value before the default is reached,
      so absent stays absent.  Nested policies get the policy defaults. */
  function ParseTemplate(t: TemplateInput): (r: Option<TemplateInput>)
    ensures r.Some? <==> ValidTemplateInput(t)
    ensures r.Some? ==> r.value.version == t.version && r.value.isActive == t.isActive
    ensures r.Some? ==> r.value.(policies := t.policies) == t
    ensures r.Some? ==> (r.value.policies.Some? <==> t.policies.Some?)
    ensures r.Some? && t.policies.Some? ==>
      |r.value.policies.value| == |t.policies.value| &&
      forall i :: 0 <= i < |t.policies.value| ==>
        Some(r.value.policies.value[i]) == ParsePolicy(t.policies.value[i])
  {
    if !ValidTemplateInput(t) then None
    else if t.policies.None? then Some(t)
    else
      var ps := t.policies.value;
      Some(t.(policies := Some(seq(|ps|, i requires 0 <= i < |ps| => FillPolicyDefaults(ps[i])))))
  }

  // ---------------------------------------------------------- JoinCompanySchema

  datatype JoinCompanyInput = JoinCompanyInput(
    name: string,
    email: string,
    password: string,
    companyId: int,
    role: Option<string>)

  const RoleNames: set<string> := {"employee", "manager", "admin", "cto", "hr"}

  /** An approximation of the email format check: one `@` with a non-empty
      local part before it and a dot inside the domain after it. */
  predicate EmailShaped(e: string) {
    exists i :: 0 < i < |e| - 1 && e[i] == '@'
      && '@' !in e[..i] && '@' !in e[i + 1..]
      && exists j :: i + 1 < j < |e| - 1 && e[j] == '.'
  }

  function ParseJoinCompany(j: JoinCompanyInput): (r: Option<JoinCompanyInput>)
    ensures r.Some? <==>
      |j.name| > 0 && EmailShaped(j.email) && |j.password| >= 6 && j.companyId > 0
      && (j.role.Some? ==> j.role.value in RoleNames)
    ensures r.Some? ==> r.value.role.Some? && r.value.role.value in RoleNames
    ensures r.Some? && j.role.None? ==> r.value.role == Some("employee")
    ensures r.Some? && j.role.Some? ==> r.value.role == j.role
    ensures r.Some? ==> r.value.(role := j.role) == j
  {
    if |j.name| > 0 && EmailShaped(j.email) && |j.password| >= 6 && j.companyId > 0
       && (j.role.Some? ==> j.role.value in RoleNames)
    then Some(j.(role := Some(j.role.GetOr("employee"))))
    else None
  }

  // -------------------------------------------------- AcknowledgePoliciesSchema

  datatype AcknowledgePoliciesInput = AcknowledgePoliciesInput(
    employeeId: int,
    policyIds: seq<int>,
    acknowledgedBy: Option<string>)

  function ParseAcknowledgePolicies(a: AcknowledgePoliciesInput): (r: Option<AcknowledgePoliciesInput>)
    ensures r.Some? <==> a.employeeId > 0 && forall id :: id in a.policyIds ==> id > 0
    ensures r.Some? ==> r.value == a
  {
    if a.employeeId > 0 && forall id :: id in a.policyIds ==> id > 0 then Some(a) else None
  }

  /** The schema lets an empty id list through; only the service rejects it. */
  lemma EmptyPolicyListPassesSchema(employeeId: int)
    requires employeeId > 0
    ensures ParseAcknowledgePolicies(AcknowledgePoliciesInput(employeeId, [], None)).Some?
  {
  }
}
