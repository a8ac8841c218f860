/**
 * The template engine (src/services/template.ts): creating a template with
 * its default or supplied child policies in one transaction, the template
 * queries, update with a nested upsert of child policies, deletion, and the
 * CTO-only pending list and approval.
 */
module TemplateService {
  import opened Wrappers
  import opened Types
  import opened Tables
  import PolicyService

  // ------------------------------------------------------------------ creation

  /** The five starter policies a template is created with when the request
      names none: version 0, inactive, each with its target teams. */
  function DefaultPolicies(companyId: int, templateId: int): (r: seq<PolicyInput>)
    ensures |r| == 5
    ensures forall i :: 0 <= i < 5 ==>
      && r[i].companyId == companyId && r[i].templateId == Some(templateId)
      && r[i].version == 0 && r[i].isActive == Some(false) && r[i].id.None?
      && r[i].policyRoles.Some?
  {
    seq(5, k requires 0 <= k < 5 => StarterPolicy(companyId, templateId, k))
  }

  function StarterPolicy(companyId: int, templateId: int, k: nat): (r: PolicyInput)
    requires k < 5
    ensures r.companyId == companyId && r.templateId == Some(templateId)
    ensures r.version == 0 && r.isActive == Some(false) && r.id.None? && r.policyRoles.Some?
  {
    match k
    case 0 => Starter(companyId, templateId, "Access Control Policy", "Security",
                      "Defines access control measures.", ["sales", "engineering", "hr"])
    case 1 => Starter(companyId, templateId, "Data Retention Policy", "Data",
                      "Specifies how data is stored and deleted.", ["sales", "engineering", "hr"])
    case 2 => Starter(companyId, templateId, "Incident Response Policy", "Incident",
                      "Guidelines on how to handle security incidents.", ["engineering"])
    case 3 => Starter(companyId, templateId, "Change Management Policy", "Governance",
                      "Outlines procedures for managing changes in systems and processes.", ["sales", "hr"])
    case 4 => Starter(companyId, templateId, "Business Continuity Plan", "Continuity",
                      "Ensures continued operation during and after a disaster.", ["sales", "hr"])
  }

  function Starter(companyId: int, templateId: int, name: string, kind: string, content: string, roles: seq<string>): PolicyInput {
    PolicyInput(None, name, kind, content, 0, Some(false), companyId, Some(templateId), None, Some(roles))
  }

  /** The starter policies by name, in creation order, and the teams each is sent to. */
  lemma DefaultPolicyNamesAndTeams(companyId: int, templateId: int)
    ensures var d := DefaultPolicies(companyId, templateId);
      && [d[0].name, d[1].name, d[2].name, d[3].name, d[4].name]
         == ["Access Control Policy", "Data Retention Policy", "Incident Response Policy",
             "Change Management Policy", "Business Continuity Plan"]
      && [d[0].kind, d[1].kind, d[2].kind, d[3].kind, d[4].kind]
         == ["Security", "Data", "Incident", "Governance", "Continuity"]
      && d[0].policyRoles == Some(["sales", "engineering", "hr"])
      && d[1].policyRoles == Some(["sales", "engineering", "hr"])
      && d[2].policyRoles == Some(["engineering"])
      && d[3].policyRoles == Some(["sales", "hr"])
      && d[4].policyRoles == Some(["sales", "hr"])
  {
  }

  /** The starter policies carry version 0, which the policy schema refuses:
      they reach the store only because creation bypasses the schema. */
  lemma DefaultPoliciesFailPolicySchema(companyId: int, templateId: int)
    ensures forall p :: p in DefaultPolicies(companyId, templateId) ==> ParsePolicy(p).None?
  {
  }

  /** The default SOC2 template of a company, created by `userId`. */
  function DefaultTemplate(id: int, userId: int, companyId: int): Template {
    Template(id, companyId, "SOC2 Compliance", "Compliance", 0, "SOC2 Compliance Template", false, IntToString(userId))
  }

  /** The template row a create request inserts: the default template with
      the request's fields written over it, and inactive whatever it asks. */
  function NewTemplateRow(id: int, userId: int, companyId: int, data: TemplateInput): (r: Template)
    ensures r == Overwrite(DefaultTemplate(id, userId, companyId), data).(isActive := false)
    ensures data == NoTemplateInput ==> r == DefaultTemplate(id, userId, companyId)
  {
    Template(id, companyId,
             data.name.GetOr("SOC2 Compliance"),
             data.kind.GetOr("Compliance"),
             data.version.GetOr(0),
             data.defaultContent.GetOr("SOC2 Compliance Template"),
             false,
             data.createdBy.GetOr(IntToString(userId)))
  }

  /** The policy rows inserted for `inputs`, with ids from `start` on. */
  function NewPolicyRows(start: int, inputs: seq<PolicyInput>): (r: seq<Policy>)
    ensures |r| == |inputs|
    ensures forall i :: 0 <= i < |r| ==> r[i].id == start + i && r[i].templateId.None?
  {
    seq(|inputs|, i requires 0 <= i < |inputs| => PolicyService.NewPolicyRow(start + i, inputs[i]))
  }

  function Roles(p: PolicyInput): seq<string> {
    p.policyRoles.GetOr([])
  }

  function TotalRoles(inputs: seq<PolicyInput>): nat {
    if inputs == [] then 0 else TotalRoles(inputs[..|inputs| - 1]) + |Roles(inputs[|inputs| - 1])|
  }

  /** The role mappings inserted for `inputs`, policy by policy, with mapping
      ids from `mappingStart` and policy ids from `policyStart` on. */
  function ChildMappings(mappingStart: int, policyStart: int, inputs: seq<PolicyInput>): (r: seq<RoleMapping>)
    ensures |r| == TotalRoles(inputs)
  {
    if inputs == [] then []
    else
      var n := |inputs| - 1;
      ChildMappings(mappingStart, policyStart, inputs[..n])
        + PolicyService.MappingRows(mappingStart + TotalRoles(inputs[..n]), policyStart + n, Roles(inputs[n]))
  }

  /** Every mapping `ChildMappings` produces points at one of the new policies. */
  lemma {:induction false} ChildMappingsPointInRange(mappingStart: int, policyStart: int, inputs: seq<PolicyInput>)
    ensures forall m :: m in ChildMappings(mappingStart, policyStart, inputs) ==>
      policyStart <= m.policyId < policyStart + |inputs|
    decreases |inputs|
  {
    if inputs != [] {
      ChildMappingsPointInRange(mappingStart, policyStart, inputs[..|inputs| - 1]);
    }
  }

  /** The teams mapped to the `j`-th new policy are the roles its input names. */
  lemma {:induction false} ChildMappingsTeams(mappingStart: int, policyStart: int, inputs: seq<PolicyInput>, j: nat)
    requires j < |inputs|
    ensures PolicyService.MappedTeams(ChildMappings(mappingStart, policyStart, inputs), policyStart + j) == Roles(inputs[j])
    decreases |inputs|
  {
    var n := |inputs| - 1;
    if j == n {
      LastChildTeams(mappingStart, policyStart, inputs);
    } else {
      var front := ChildMappings(mappingStart, policyStart, inputs[..n]);
      var last := PolicyService.MappingRows(mappingStart + TotalRoles(inputs[..n]), policyStart + n, Roles(inputs[n]));
      PolicyService.MappedTeamsAppend(front, last, policyStart + j);
      ChildMappingsTeams(mappingStart, policyStart, inputs[..n], j);
      NoTeamsIn(last, policyStart + j);
      assert inputs[..n][j] == inputs[j];
    }
  }

  lemma LastChildTeams(mappingStart: int, policyStart: int, inputs: seq<PolicyInput>)
    requires inputs != []
    ensures PolicyService.MappedTeams(ChildMappings(mappingStart, policyStart, inputs), policyStart + |inputs| - 1)
         == Roles(inputs[|inputs| - 1])
  {
    var n := |inputs| - 1;
    var front := ChildMappings(mappingStart, policyStart, inputs[..n]);
    var last := PolicyService.MappingRows(mappingStart + TotalRoles(inputs[..n]), policyStart + n, Roles(inputs[n]));
    PolicyService.MappedTeamsAppend(front, last, policyStart + n);
    ChildMappingsPointInRange(mappingStart, policyStart, inputs[..n]);
    NoTeamsIn(front, policyStart + n);
    PolicyService.MappedTeamsOfNewRows(mappingStart + TotalRoles(inputs[..n]), policyStart + n, Roles(inputs[n]));
  }

  /** A policy id no mapping points at has no teams. */
  lemma {:induction false} NoTeamsIn(ms: seq<RoleMapping>, policyId: int)
    requires forall m :: m in ms ==> m.policyId != policyId
    ensures PolicyService.MappedTeams(ms, policyId) == []
  {
    if ms != [] {
      assert ms[0] in ms;
      assert forall m :: m in ms[1..] ==> m in ms;
      NoTeamsIn(ms[1..], policyId);
    }
  }

  lemma ValidAfterTemplateRow(st: DbState, t: Template)
    requires ValidState(st) && t.id == st.nextTemplateId
    ensures ValidState(st.(templates := st.templates + [t], nextTemplateId := st.nextTemplateId + 1))
  {
    ValidWithTemplates(st, st.templates + [t], st.nextTemplateId + 1);
  }

  /** The state after the `i`-th child is created, as the loop of creation
      reaches it from `st`, the state just after the template insert. */
  function AfterChildren(st: DbState, inputs: seq<PolicyInput>): DbState {
    st.(policies := st.policies + NewPolicyRows(st.nextPolicyId, inputs),
        nextPolicyId := st.nextPolicyId + |inputs|,
        mappings := st.mappings + ChildMappings(st.nextMappingId, st.nextPolicyId, inputs),
        nextMappingId := st.nextMappingId + TotalRoles(inputs))
  }

  lemma AfterChildrenSnoc(st: DbState, inputs: seq<PolicyInput>, i: nat)
    requires i < |inputs|
    ensures var before := AfterChildren(st, inputs[..i]);
      AfterChildren(st, inputs[..i + 1]) == before.(
        policies := before.policies + [PolicyService.NewPolicyRow(before.nextPolicyId, inputs[i])],
        nextPolicyId := before.nextPolicyId + 1,
        mappings := before.mappings + PolicyService.MappingRows(before.nextMappingId, before.nextPolicyId, Roles(inputs[i])),
        nextMappingId := before.nextMappingId + |Roles(inputs[i])|)
  {
    assert inputs[..i + 1][..i] == inputs[..i];
    assert NewPolicyRows(st.nextPolicyId, inputs[..i + 1])
        == NewPolicyRows(st.nextPolicyId, inputs[..i]) + [PolicyService.NewPolicyRow(st.nextPolicyId + i, inputs[i])];
  }

  method InsertTemplate(db: Store, t: Template)
    requires db.Valid() && t.id == db.nextTemplateId
    modifies db`templates, db`nextTemplateId
    ensures db.Valid()
    ensures db.State() == old(db.State()).(templates := old(db.templates) + [t], nextTemplateId := old(db.nextTemplateId) + 1)
  {
    ValidAfterTemplateRow(db.State(), t);
    db.templates := db.templates + [t];
    db.nextTemplateId := db.nextTemplateId + 1;
  }

  /** Creates the child policies one after the other, stopping at the first
      the store refuses.  On a refusal the caller rolls the transaction back. */
  method CreateChildren(db: Store, inputs: seq<PolicyInput>) returns (ok: bool)
    requires db.Valid()
    modifies db
    ensures db.Valid()
    ensures ok <==> forall p :: p in inputs ==> HasCompany(old(db.companies), p.companyId)
    ensures ok ==> db.State() == AfterChildren(old(db.State()), inputs)
  {
    var i := 0;
    while i < |inputs|
      invariant 0 <= i <= |inputs|
      invariant db.Valid()
      invariant db.State() == AfterChildren(old(db.State()), inputs[..i])
      invariant forall j :: 0 <= j < i ==> HasCompany(old(db.companies), inputs[j].companyId)
    {
      var created := PolicyService.CreatePolicy(db, inputs[i]);
      if created.Err? {
        assert inputs[i] in inputs;
        return false;
      }
      AfterChildrenSnoc(old(db.State()), inputs, i);
      i := i + 1;
    }
    assert inputs[..i] == inputs;
    return true;
  }

  /** After the children are created from `st`, each new policy's teams are
      the roles its input names. */
  lemma ChildrenTeams(st: DbState, inputs: seq<PolicyInput>)
    requires ValidState(st)
    ensures forall j :: 0 <= j < |inputs| ==>
      PolicyService.MappedTeams(AfterChildren(st, inputs).mappings, st.nextPolicyId + j) == Roles(inputs[j])
  {
    forall j | 0 <= j < |inputs|
      ensures PolicyService.MappedTeams(AfterChildren(st, inputs).mappings, st.nextPolicyId + j) == Roles(inputs[j])
    {
      var added := ChildMappings(st.nextMappingId, st.nextPolicyId, inputs);
      PolicyService.MappedTeamsAppend(st.mappings, added, st.nextPolicyId + j);
      PolicyService.NoTeamsForFreshPolicy(st.mappings, st.nextPolicyId + j);
      ChildMappingsTeams(st.nextMappingId, st.nextPolicyId, inputs, j);
    }
  }

  /** The starter policies belong to the company the template is created for. */
  lemma DefaultPoliciesOfCompany(companyId: int, templateId: int)
    ensures forall p :: p in DefaultPolicies(companyId, templateId) ==> p.companyId == companyId
  {
    forall p | p in DefaultPolicies(companyId, templateId) ensures p.companyId == companyId {
      var j :| 0 <= j < 5 && DefaultPolicies(companyId, templateId)[j] == p;
    }
  }

  /** The rows creation inserts for the children carry no template id, since
      the policy insert does not write one: none of them is a child of any
      template, the new one included. */
  lemma NewChildrenUnlinked(start: int, inputs: seq<PolicyInput>, templateId: int)
    ensures Children(NewPolicyRows(start, inputs), templateId) == []
  {
    var rows := NewPolicyRows(start, inputs);
    FilterEmpty(rows, (p: Policy) => p.templateId == Some(templateId));
  }

  /** Creates a template and its child policies in one transaction: either
      all rows are written or, when the company is missing or a child's
      company has no row, none is. */
  method CreateTemplateAndPolicies(db: Store, userId: int, companyId: int, data: TemplateInput)
    returns (r: Result<Template, Error>)
    requires db.Valid()
    modifies db
    ensures db.Valid()
    ensures companyId == 0 || !HasCompany(old(db.companies), companyId) ==> r == Err(BadRequest)
    ensures r.Ok? <==>
      && companyId != 0 && HasCompany(old(db.companies), companyId)
      && forall p :: p in data.policies.GetOr([]) ==> HasCompany(old(db.companies), p.companyId)
    ensures r.Err? ==> db.State() == old(db.State())
    ensures r.Ok? ==>
      && r.value.id == old(db.nextTemplateId) && r.value.companyId == companyId
      && r.value.name == data.name.GetOr("SOC2 Compliance")
      && r.value.kind == data.kind.GetOr("Compliance")
      && r.value.version == data.version.GetOr(0)
      && r.value.defaultContent == data.defaultContent.GetOr("SOC2 Compliance Template")
      && !r.value.isActive
      && r.value.createdBy == data.createdBy.GetOr(IntToString(userId))
    ensures r.Ok? ==>
      var inputs := data.policies.GetOr(DefaultPolicies(companyId, r.value.id));
      && db.State() == AfterChildren(old(db.State()).(templates := old(db.templates) + [r.value],
                                                      nextTemplateId := old(db.nextTemplateId) + 1), inputs)
      && forall j :: 0 <= j < |inputs| ==>
           PolicyService.MappedTeams(db.mappings, old(db.nextPolicyId) + j) == Roles(inputs[j])
  {
    if companyId == 0 || !HasCompany(db.companies, companyId) {
      return Err(BadRequest);
    }
    var saved := db.State();
    var template := NewTemplateRow(db.nextTemplateId, userId, companyId, data);
    InsertTemplate(db, template);
    var inputs := data.policies.GetOr(DefaultPolicies(companyId, template.id));
    DefaultPoliciesOfCompany(companyId, template.id);
    ChildrenTeams(db.State(), inputs);
    var ok := CreateChildren(db, inputs);
    if !ok {
      db.Restore(saved);
      return Err(Persistence);
    }
    r := Ok(template);
  }

  // ------------------------------------------------------------------- queries

  /** All templates, or only those of one type when a non-empty type is given. */
  function GetTemplates(ts: seq<Template>, kind: Option<string>): (r: seq<Template>)
    ensures forall t :: t in r <==> t in ts && (kind.Some? && kind.value != "" ==> t.kind == kind.value)
  {
    Filter(ts, (t: Template) => kind.Some? && kind.value != "" ==> t.kind == kind.value)
  }

  function GetTemplateById(ts: seq<Template>, id: int): (r: Result<Template, Error>)
    ensures r.Ok? ==> r.value in ts && r.value.id == id
    ensures r.Err? <==> forall t :: t in ts ==> t.id != id
    ensures r.Err? ==> r.error == NotFound
  {
    match TemplateIndex(ts, id)
    case None => Err(NotFound)
    case Some(k) => Ok(ts[k])
  }

  // -------------------------------------------------------------------- update

  /** The template with every field the request gives overwritten. */
  function Overwrite(t: Template, data: TemplateInput): (r: Template)
    ensures r.id == t.id && r.companyId == t.companyId
    ensures data.name.Some? ==> r.name == data.name.value
    ensures data.name.None? ==> r.name == t.name
    ensures data.kind.Some? ==> r.kind == data.kind.value
    ensures data.kind.None? ==> r.kind == t.kind
    ensures data.version.Some? ==> r.version == data.version.value
    ensures data.version.None? ==> r.version == t.version
    ensures data.defaultContent.Some? ==> r.defaultContent == data.defaultContent.value
    ensures data.defaultContent.None? ==> r.defaultContent == t.defaultContent
    ensures data.isActive.Some? ==> r.isActive == data.isActive.value
    ensures data.isActive.None? ==> r.isActive == t.isActive
    ensures data.createdBy.Some? ==> r.createdBy == data.createdBy.value
    ensures data.createdBy.None? ==> r.createdBy == t.createdBy
  {
    t.(name := data.name.GetOr(t.name),
       kind := data.kind.GetOr(t.kind),
       version := data.version.GetOr(t.version),
       defaultContent := data.defaultContent.GetOr(t.defaultContent),
       isActive := data.isActive.GetOr(t.isActive),
       createdBy := data.createdBy.GetOr(t.createdBy))
  }

  /** Overwriting twice with the same request is overwriting once, and an
      empty request changes nothing. */
  lemma OverwriteIdempotent(t: Template, data: TemplateInput)
    ensures Overwrite(Overwrite(t, data), data) == Overwrite(t, data)
    ensures Overwrite(t, NoTemplateInput) == t
    ensures Overwrite(t, data).id == t.id && Overwrite(t, data).companyId == t.companyId
  {
  }

  /** The policy table as the nested upsert sees it: its rows and the next free id. */
  datatype PolicyTable = PolicyTable(rows: seq<Policy>, nextId: int)

  /** Where the row `id` of template `templateId` is, if it is one of its children. */
  function ChildIndex(ps: seq<Policy>, id: int, templateId: int): (r: Option<nat>)
    ensures r.Some? ==> r.value < |ps| && ps[r.value].id == id && ps[r.value].templateId == Some(templateId)
    ensures r.Some? ==> forall i :: 0 <= i < r.value ==> !(ps[i].id == id && ps[i].templateId == Some(templateId))
    ensures r.None? <==> forall i :: 0 <= i < |ps| ==> !(ps[i].id == id && ps[i].templateId == Some(templateId))
  {
    if ps == [] then None
    else if ps[0].id == id && ps[0].templateId == Some(templateId) then Some(0)
    else match ChildIndex(ps[1..], id, templateId)
      case None => None
      case Some(k) => Some(k + 1)
  }

  /** The update half of an upsert: the scalar fields the request gives. */
  function UpdatedChild(p: Policy, input: PolicyInput): Policy {
    p.(name := input.name, kind := input.kind, content := input.content,
       version := input.version, isActive := input.isActive.GetOr(p.isActive))
  }

  /** The create half of an upsert: a new child, active unless the request says otherwise. */
  function CreatedChild(id: int, templateId: int, input: PolicyInput): Policy {
    Policy(id, input.companyId, Some(templateId), input.name, input.kind, input.content,
           input.version, input.isActive.GetOr(true), None, None)
  }

  /** A child of template `templateId` that carries what the request asks for. */
  predicate Reflects(c: Policy, templateId: int, input: PolicyInput) {
    && c.templateId == Some(templateId) && c.name == input.name && c.kind == input.kind
    && c.content == input.content && c.version == input.version
    && (input.isActive.Some? ==> c.isActive == input.isActive.value)
  }

  /** Upserts one policy of an update request under template `templateId`:
      the child with the request's id is updated, and when there is none a
      new child is created.  A request without an id cannot be looked up. */
  function UpsertChild(t: PolicyTable, templateId: int, companies: seq<Company>, input: PolicyInput)
    : (r: Result<PolicyTable, Error>)
    ensures r.Err? <==>
      input.id.None? ||
      (ChildIndex(t.rows, input.id.value, templateId).None? && !HasCompany(companies, input.companyId))
    ensures r.Err? && input.id.None? ==> r.error == BadRequest
    ensures r.Ok? ==> exists i :: 0 <= i < |r.value.rows| && Reflects(r.value.rows[i], templateId, input)
    ensures r.Ok? && ChildIndex(t.rows, input.id.value, templateId).None? ==>
      r.value.rows == t.rows + [CreatedChild(t.nextId, templateId, input)]
      && r.value.nextId == t.nextId + 1
      && r.value.rows[|t.rows|].isActive == input.isActive.GetOr(true)
    ensures r.Ok? && ChildIndex(t.rows, input.id.value, templateId).Some? ==>
      var k := ChildIndex(t.rows, input.id.value, templateId).value;
      && |r.value.rows| == |t.rows| && r.value.nextId == t.nextId
      && Reflects(r.value.rows[k], templateId, input)
      && r.value.rows[k] == UpdatedChild(t.rows[k], input)
      && r.value.rows[k].id == t.rows[k].id
      && (input.isActive.None? ==> r.value.rows[k].isActive == t.rows[k].isActive)
      && (forall i :: 0 <= i < |t.rows| && i != k ==> r.value.rows[i] == t.rows[i])
  {
    if input.id.None? then Err(BadRequest)
    else match ChildIndex(t.rows, input.id.value, templateId)
      case Some(k) =>
        var rows := t.rows[k := UpdatedChild(t.rows[k], input)];
        assert Reflects(rows[k], templateId, input);
        Ok(t.(rows := rows))
      case None =>
        if !HasCompany(companies, input.companyId) then Err(Persistence)
        else
          var rows := t.rows + [CreatedChild(t.nextId, templateId, input)];
          assert Reflects(rows[|t.rows|], templateId, input);
          Ok(PolicyTable(rows, t.nextId + 1))
  }

  /** The upserts of an update request, in order; the first failure aborts all. */
  function UpsertChildren(t: PolicyTable, templateId: int, companies: seq<Company>, inputs: seq<PolicyInput>)
    : (r: Result<PolicyTable, Error>)
    ensures r.Ok? ==> forall j :: 0 <= j < |inputs| ==> inputs[j].id.Some?
    ensures r.Err? ==> r.error == BadRequest || r.error == Persistence
    ensures inputs == [] ==> r == Ok(t)
    decreases |inputs|
  {
    if inputs == [] then Ok(t)
    else match UpsertChild(t, templateId, companies, inputs[0])
      case Err(e) => Err(e)
      case Ok(t') => UpsertChildren(t', templateId, companies, inputs[1..])
  }

  /** No input of `inputs` names row id `id`. */
  predicate Unnamed(inputs: seq<PolicyInput>, id: int) {
    forall j :: 0 <= j < |inputs| ==> inputs[j].id != Some(id)
  }

  /** No other input names the row that the `j`-th input names. */
  predicate NamedOnce(inputs: seq<PolicyInput>, j: nat)
    requires j < |inputs|
  {
    forall j' :: 0 <= j' < |inputs| && j' != j ==> inputs[j'].id != inputs[j].id
  }

  /** A row that no input names leaves the upserts as it was. */
  lemma {:induction false} UpsertChildrenKeepsUnnamed(t: PolicyTable, templateId: int, companies: seq<Company>,
                                                      inputs: seq<PolicyInput>, k: nat)
    requires UpsertChildren(t, templateId, companies, inputs).Ok?
    requires k < |t.rows| && Unnamed(inputs, t.rows[k].id)
    ensures k < |UpsertChildren(t, templateId, companies, inputs).value.rows|
    ensures UpsertChildren(t, templateId, companies, inputs).value.rows[k] == t.rows[k]
    decreases |inputs|
  {
    if inputs != [] {
      var t' := UpsertChild(t, templateId, companies, inputs[0]).value;
      assert inputs[0].id != Some(t.rows[k].id);
      assert t'.rows[k] == t.rows[k];
      assert Unnamed(inputs[1..], t'.rows[k].id) by {
        forall j | 0 <= j < |inputs[1..]| ensures inputs[1..][j].id != Some(t'.rows[k].id) {
          assert inputs[1..][j] == inputs[j + 1];
        }
      }
      UpsertChildrenKeepsUnnamed(t', templateId, companies, inputs[1..], k);
    }
  }

  /** An existing child that exactly one input names ends up with that
      input's fields, and keeps everything else. */
  lemma {:induction false} UpsertChildrenUpdatesNamed(t: PolicyTable, templateId: int, companies: seq<Company>,
                                                      inputs: seq<PolicyInput>, j: nat, k: nat)
    requires UpsertChildren(t, templateId, companies, inputs).Ok?
    requires j < |inputs| && inputs[j].id.Some? && ChildIndex(t.rows, inputs[j].id.value, templateId) == Some(k)
    requires NamedOnce(inputs, j)
    ensures k < |UpsertChildren(t, templateId, companies, inputs).value.rows|
    ensures UpsertChildren(t, templateId, companies, inputs).value.rows[k] == UpdatedChild(t.rows[k], inputs[j])
    ensures Reflects(UpsertChildren(t, templateId, companies, inputs).value.rows[k], templateId, inputs[j])
    decreases |inputs|
  {
    var t' := UpsertChild(t, templateId, companies, inputs[0]).value;
    var x := inputs[j].id.value;
    if j == 0 {
      assert t'.rows[k] == UpdatedChild(t.rows[k], inputs[0]);
      assert Unnamed(inputs[1..], t'.rows[k].id) by {
        forall j' | 0 <= j' < |inputs[1..]| ensures inputs[1..][j'].id != Some(t'.rows[k].id) {
          assert inputs[1..][j'] == inputs[j' + 1];
        }
      }
      UpsertChildrenKeepsUnnamed(t', templateId, companies, inputs[1..], k);
    } else {
      assert inputs[0].id != Some(x);
      assert t'.rows[k] == t.rows[k];
      assert |t.rows| <= |t'.rows|;
      assert forall i :: 0 <= i < k ==> t'.rows[i].id == t.rows[i].id && t'.rows[i].templateId == t.rows[i].templateId;
      assert ChildIndex(t'.rows, x, templateId) == Some(k);
      assert inputs[1..][j - 1] == inputs[j];
      forall j' | 0 <= j' < |inputs[1..]| && j' != j - 1 ensures inputs[1..][j'].id != inputs[1..][j - 1].id {
        assert inputs[1..][j'] == inputs[j' + 1];
      }
      UpsertChildrenUpdatesNamed(t', templateId, companies, inputs[1..], j - 1, k);
    }
  }

  /** Upserting the same request twice is upserting it once, when it names an existing child. */
  lemma UpsertUpdateIdempotent(t: PolicyTable, templateId: int, companies: seq<Company>, input: PolicyInput)
    requires input.id.Some? && ChildIndex(t.rows, input.id.value, templateId).Some?
    ensures UpsertChild(t, templateId, companies, input).Ok?
    ensures UpsertChild(UpsertChild(t, templateId, companies, input).value, templateId, companies, input)
         == UpsertChild(t, templateId, companies, input)
  {
    var k := ChildIndex(t.rows, input.id.value, templateId).value;
    var once := UpsertChild(t, templateId, companies, input).value;
    assert forall i :: 0 <= i < |t.rows| && i != k ==> once.rows[i] == t.rows[i];
    assert once.rows[k].id == input.id.value && once.rows[k].templateId == Some(templateId);
    assert ChildIndex(once.rows, input.id.value, templateId) == Some(k);
    assert UpdatedChild(once.rows[k], input) == once.rows[k];
    assert once.rows[k := once.rows[k]] == once.rows;
  }

  /** Which facts of a policy table an upsert keeps: the ids, a counter that
      only grows, rows of other templates, and ids below the counter. */
  ghost predicate Extends(before: PolicyTable, after: PolicyTable, templateId: int) {
    && |before.rows| <= |after.rows|
    && before.nextId <= after.nextId
    && (forall i :: 0 <= i < |before.rows| ==>
          after.rows[i].id == before.rows[i].id && after.rows[i].templateId == before.rows[i].templateId)
    && (forall i :: 0 <= i < |before.rows| && before.rows[i].templateId != Some(templateId) ==>
          after.rows[i] == before.rows[i])
    && (forall i :: |before.rows| <= i < |after.rows| ==> after.rows[i].templateId == Some(templateId))
    && (PolicyIdsOk(before.rows, before.nextId) ==> PolicyIdsOk(after.rows, after.nextId))
  }

  lemma ExtendsTransitive(a: PolicyTable, b: PolicyTable, c: PolicyTable, templateId: int)
    requires Extends(a, b, templateId) && Extends(b, c, templateId)
    ensures Extends(a, c, templateId)
  {
  }

  /** An update request leaves the other templates' policies and every
      existing id alone, and keeps the id discipline of the table. */
  lemma {:induction false} UpsertChildrenExtends(t: PolicyTable, templateId: int, companies: seq<Company>, inputs: seq<PolicyInput>)
    requires UpsertChildren(t, templateId, companies, inputs).Ok?
    ensures Extends(t, UpsertChildren(t, templateId, companies, inputs).value, templateId)
    decreases |inputs|
  {
    if inputs != [] {
      var t' := UpsertChild(t, templateId, companies, inputs[0]).value;
      UpsertChildrenExtends(t', templateId, companies, inputs[1..]);
      ExtendsTransitive(t, t', UpsertChildren(t', templateId, companies, inputs[1..]).value, templateId);
    }
  }

  lemma ValidWithPolicyTable(st: DbState, t: PolicyTable, templateId: int)
    requires ValidState(st) && Extends(PolicyTable(st.policies, st.nextPolicyId), t, templateId)
    ensures ValidState(st.(policies := t.rows, nextPolicyId := t.nextId))
  {
  }

  /** Overwrites the given fields of template `id` and upserts its listed
      policies, as one update: a missing template, a listed policy without an
      id or a new policy whose company has no row aborts all of it. */
  method UpdateTemplate(db: Store, id: int, data: TemplateInput) returns (r: Result<Template, Error>)
    requires db.Valid()
    modifies db
    ensures db.Valid()
    ensures TemplateIndex(old(db.templates), id).None? ==> r == Err(NotFound)
    ensures r.Ok? <==>
      TemplateIndex(old(db.templates), id).Some? &&
      (data.policies.Some? ==>
        UpsertChildren(PolicyTable(old(db.policies), old(db.nextPolicyId)), id, old(db.companies), data.policies.value).Ok?)
    ensures r.Err? ==> unchanged(db)
    ensures r.Ok? ==>
      var k := TemplateIndex(old(db.templates), id).value;
      r.value == Overwrite(old(db.templates)[k], data) && db.templates == old(db.templates)[k := r.value]
    ensures r.Ok? && data.policies.None? ==> db.State() == old(db.State()).(templates := db.templates)
    ensures r.Ok? && data.policies.Some? ==>
      var u := UpsertChildren(PolicyTable(old(db.policies), old(db.nextPolicyId)), id, old(db.companies), data.policies.value).value;
      db.State() == old(db.State()).(templates := db.templates, policies := u.rows, nextPolicyId := u.nextId)
    ensures r.Ok? && data.policies.Some? ==>
      forall k :: 0 <= k < |old(db.policies)| && Unnamed(data.policies.value, old(db.policies)[k].id) ==>
        k < |db.policies| && db.policies[k] == old(db.policies)[k]
    ensures r.Ok? && data.policies.Some? ==>
      var ps := data.policies.value;
      forall j :: 0 <= j < |ps| && ps[j].id.Some? && ChildIndex(old(db.policies), ps[j].id.value, id).Some?
                  && NamedOnce(ps, j) ==>
        var k := ChildIndex(old(db.policies), ps[j].id.value, id).value;
        k < |db.policies| && db.policies[k] == UpdatedChild(old(db.policies)[k], ps[j])
  {
    var found := TemplateIndex(db.templates, id);
    if found.None? {
      return Err(NotFound);
    }
    var k := found.value;
    var updated := Overwrite(db.templates[k], data);
    if data.policies.Some? {
      var u := UpsertChildren(PolicyTable(db.policies, db.nextPolicyId), id, db.companies, data.policies.value);
      if u.Err? {
        return Err(u.error);
      }
      var t := PolicyTable(db.policies, db.nextPolicyId);
      var ps := data.policies.value;
      UpsertChildrenExtends(t, id, db.companies, ps);
      forall k | 0 <= k < |t.rows| && Unnamed(ps, t.rows[k].id)
        ensures k < |u.value.rows| && u.value.rows[k] == t.rows[k]
      {
        UpsertChildrenKeepsUnnamed(t, id, db.companies, ps, k);
      }
      forall j | 0 <= j < |ps| && ps[j].id.Some? && ChildIndex(t.rows, ps[j].id.value, id).Some? && NamedOnce(ps, j)
        ensures var k := ChildIndex(t.rows, ps[j].id.value, id).value;
          k < |u.value.rows| && u.value.rows[k] == UpdatedChild(t.rows[k], ps[j])
      {
        UpsertChildrenUpdatesNamed(t, id, db.companies, ps, j, ChildIndex(t.rows, ps[j].id.value, id).value);
      }
      ValidWithPolicyTable(db.State(), u.value, id);
      db.policies, db.nextPolicyId := u.value.rows, u.value.nextId;
    }
    ValidWithTemplates(db.State(), db.templates[k := updated], db.nextTemplateId);
    db.templates := db.templates[k := updated];
    r := Ok(updated);
  }

  // -------------------------------------------------------------------- delete

  /** Removing a row keeps the ids increasing and below the counter. */
  lemma RemoveKeepsTemplateIdsOk(ts: seq<Template>, next: int, k: nat)
    requires TemplateIdsOk(ts, next) && k < |ts|
    ensures TemplateIdsOk(ts[..k] + ts[k + 1..], next)
    ensures forall t :: t in ts[..k] + ts[k + 1..] <==> t in ts && t.id != ts[k].id
  {
    var rest := ts[..k] + ts[k + 1..];
    assert forall i :: 0 <= i < |rest| ==> rest[i] == if i < k then ts[i] else ts[i + 1];
    forall t | t in ts && t.id != ts[k].id ensures t in rest {
      var i :| 0 <= i < |ts| && ts[i] == t;
      if i < k { assert rest[i] == t; } else { assert rest[i - 1] == t; }
    }
  }

  /** Deletes template `id`.  Its policies are not touched. */
  method DeleteTemplate(db: Store, id: int) returns (r: Result<string, Error>)
    requires db.Valid()
    modifies db
    ensures db.Valid()
    ensures r.Err? <==> TemplateIndex(old(db.templates), id).None?
    ensures r.Err? ==> r.error == NotFound && unchanged(db)
    ensures r.Ok? ==> r.value == "Template deleted successfully"
    ensures r.Ok? ==> forall t :: t in db.templates <==> t in old(db.templates) && t.id != id
    ensures r.Ok? ==> |db.templates| == |old(db.templates)| - 1
    ensures r.Ok? ==> db.State() == old(db.State()).(templates := db.templates)
  {
    var found := TemplateIndex(db.templates, id);
    if found.None? {
      return Err(NotFound);
    }
    var k := found.value;
    RemoveKeepsTemplateIdsOk(db.templates, db.nextTemplateId, k);
    ValidWithTemplates(db.State(), db.templates[..k] + db.templates[k + 1..], db.nextTemplateId);
    db.templates := db.templates[..k] + db.templates[k + 1..];
    r := Ok("Template deleted successfully");
  }

  // ------------------------------------------------------------ CTO approval

  /** The acting user exists and holds the role named "cto". */
  predicate IsCto(users: seq<User>, userId: int) {
    match UserIndex(users, userId)
    case None => false
    case Some(k) => users[k].role.name == "cto"
  }

  /** A policy awaiting approval, with the teams it will be sent to. */
  datatype PendingPolicy = PendingPolicy(policy: Policy, mappings: seq<RoleMapping>)

  /** A template awaiting approval, with its policies awaiting approval. */
  datatype PendingTemplate = PendingTemplate(template: Template, policies: seq<PendingPolicy>)

  function MappingsOf(ms: seq<RoleMapping>, policyId: int): (r: seq<RoleMapping>)
    ensures forall m :: m in r <==> m in ms && m.policyId == policyId
  {
    Filter(ms, (m: RoleMapping) => m.policyId == policyId)
  }

  /** The inactive children of a template, each with its mappings. */
  function PendingChildren(ps: seq<Policy>, ms: seq<RoleMapping>, templateId: int): (r: seq<PendingPolicy>)
    ensures forall pp :: pp in r ==>
      pp.policy in ps && pp.policy.templateId == Some(templateId) && !pp.policy.isActive
      && pp.mappings == MappingsOf(ms, pp.policy.id)
    ensures forall p :: p in ps && p.templateId == Some(templateId) && !p.isActive ==>
      PendingPolicy(p, MappingsOf(ms, p.id)) in r
  {
    var children := Filter(ps, (p: Policy) => p.templateId == Some(templateId) && !p.isActive);
    var r := seq(|children|, i requires 0 <= i < |children| => PendingPolicy(children[i], MappingsOf(ms, children[i].id)));
    assert forall p :: p in children ==> PendingPolicy(p, MappingsOf(ms, p.id)) in r by {
      forall p | p in children ensures PendingPolicy(p, MappingsOf(ms, p.id)) in r {
        var i :| 0 <= i < |children| && children[i] == p;
        assert r[i] == PendingPolicy(p, MappingsOf(ms, p.id));
      }
    }
    r
  }

  /** The inactive templates of a company with their inactive policies;
      only a CTO may ask. */
  function PendingApprovalTemplates(st: DbState, userId: int, companyId: int)
    : (r: Result<seq<PendingTemplate>, Error>)
    ensures r.Err? <==> userId == 0 || !IsCto(st.users, userId)
    ensures r.Err? ==> r.error == Unauthorized
    ensures r.Ok? ==> forall g :: g in r.value ==>
      && g.template in st.templates && !g.template.isActive && g.template.companyId == companyId
      && g.policies == PendingChildren(st.policies, st.mappings, g.template.id)
    ensures r.Ok? ==> forall t :: t in st.templates && !t.isActive && t.companyId == companyId ==>
      PendingTemplate(t, PendingChildren(st.policies, st.mappings, t.id)) in r.value
  {
    if userId == 0 || !IsCto(st.users, userId) then Err(Unauthorized)
    else
      var ts := Filter(st.templates, (t: Template) => !t.isActive && t.companyId == companyId);
      var gs := seq(|ts|, i requires 0 <= i < |ts| =>
                      PendingTemplate(ts[i], PendingChildren(st.policies, st.mappings, ts[i].id)));
      assert forall t :: t in ts ==> PendingTemplate(t, PendingChildren(st.policies, st.mappings, t.id)) in gs by {
        forall t | t in ts ensures PendingTemplate(t, PendingChildren(st.policies, st.mappings, t.id)) in gs {
          var i :| 0 <= i < |ts| && ts[i] == t;
          assert gs[i] == PendingTemplate(t, PendingChildren(st.policies, st.mappings, t.id));
        }
      }
      Ok(gs)
  }

  /** The policies of a template, in table order. */
  function Children(ps: seq<Policy>, templateId: int): (r: seq<Policy>)
    ensures forall p :: p in r <==> p in ps && p.templateId == Some(templateId)
  {
    Filter(ps, (p: Policy) => p.templateId == Some(templateId))
  }

  /** The bulk update of an approval: every child of the template made active. */
  function ActivateChildren(ps: seq<Policy>, templateId: int): (r: seq<Policy>)
    ensures |r| == |ps|
    ensures forall i :: 0 <= i < |ps| ==>
      r[i] == ps[i].(isActive := r[i].isActive) && (r[i].isActive <==> ps[i].isActive || ps[i].templateId == Some(templateId))
  {
    seq(|ps|, i requires 0 <= i < |ps| =>
      if ps[i].templateId == Some(templateId) then ps[i].(isActive := true) else ps[i])
  }

  ghost predicate SameIdsAndKeys(a: seq<Policy>, b: seq<Policy>) {
    |a| == |b| && forall i :: 0 <= i < |a| ==> a[i].id == b[i].id && PolicyService.Key(a[i]) == PolicyService.Key(b[i])
  }

  /** No later policy of `snap` before position `n` shares the group of the `j`-th. */
  ghost predicate LastOfGroup(snap: seq<Policy>, j: nat, n: nat)
    requires j < n <= |snap|
  {
    forall j' :: j < j' < n ==> PolicyService.Key(snap[j']) != PolicyService.Key(snap[j])
  }

  /** `p` shares a group with none of the first `n` policies of `snap`. */
  ghost predicate OutsideGroups(p: Policy, snap: seq<Policy>, n: nat)
    requires n <= |snap|
  {
    forall j :: 0 <= j < n ==> PolicyService.Key(p) != PolicyService.Key(snap[j])
  }

  /** Policy `id` carries the approver and date of this approval. */
  ghost predicate ApprovedBy(ps: seq<Policy>, id: int, approvedBy: string, now: int) {
    exists m :: 0 <= m < |ps| && ps[m].id == id && ps[m].approvedBy == Some(approvedBy) && ps[m].approvalDate == Some(now)
  }

  /** In a table with the ids and groups of `orig`, the row with the id of a
      row `p` of `orig` is in the group of `p`. */
  lemma KeyById(orig: seq<Policy>, ps: seq<Policy>, p: Policy)
    requires PolicyService.DistinctIds(orig) && SameIdsAndKeys(orig, ps) && p in orig
    ensures PolicyIndex(ps, p.id).Some?
    ensures PolicyService.Key(ps[PolicyIndex(ps, p.id).value]) == PolicyService.Key(p)
  {
    var m :| 0 <= m < |orig| && orig[m] == p;
    assert ps[m].id == p.id;
    var k := PolicyIndex(ps, p.id).value;
    assert orig[k].id == orig[m].id;
    assert k == m;
  }

  /** After the first `n` policies of `snap` are approved: the last of each
      group among them is its group's only active row. */
  ghost predicate Settled(ps: seq<Policy>, snap: seq<Policy>, n: nat)
    requires n <= |snap|
  {
    forall j :: 0 <= j < n && LastOfGroup(snap, j, n) ==>
      PolicyService.SoleActive(ps, snap[j].id, PolicyService.Key(snap[j]))
  }

  /** The first `n` policies of `snap` carry this approval. */
  ghost predicate AllApproved(ps: seq<Policy>, snap: seq<Policy>, n: nat, approvedBy: string, now: int)
    requires n <= |snap|
  {
    forall j :: 0 <= j < n ==> ApprovedBy(ps, snap[j].id, approvedBy, now)
  }

  /** Rows outside the groups of the first `n` policies of `snap` are as in `before`. */
  ghost predicate Untouched(before: seq<Policy>, ps: seq<Policy>, snap: seq<Policy>, n: nat)
    requires n <= |snap| && |before| <= |ps|
  {
    forall m :: 0 <= m < |before| && OutsideGroups(before[m], snap, n) ==> ps[m] == before[m]
  }

  /** Every row of `before` is still there with only its active flag and
      approval fields possibly changed: the only fields approval writes. */
  ghost predicate OnlyApprovalFields(before: seq<Policy>, ps: seq<Policy>) {
    && |before| <= |ps|
    && forall m :: 0 <= m < |before| ==>
         ps[m] == before[m].(isActive := ps[m].isActive, approvedBy := ps[m].approvedBy, approvalDate := ps[m].approvalDate)
  }

  /** No policy among the first `n` of `snap` has id `id`. */
  ghost predicate NotInSnapshot(id: int, snap: seq<Policy>, n: nat)
    requires n <= |snap|
  {
    forall j :: 0 <= j < n ==> snap[j].id != id
  }

  /** Rows whose id is not among the first `n` policies of `snap` keep their approval fields. */
  ghost predicate ApprovalsOnlyInSnapshot(before: seq<Policy>, ps: seq<Policy>, snap: seq<Policy>, n: nat)
    requires n <= |snap| && |before| <= |ps|
  {
    forall m :: 0 <= m < |before| && NotInSnapshot(before[m].id, snap, n) ==>
      ps[m].approvedBy == before[m].approvedBy && ps[m].approvalDate == before[m].approvalDate
  }

  /** The facts `ApproveChildren` keeps after approving the first `n` policies of `snap`. */
  ghost predicate Progress(orig: seq<Policy>, before: seq<Policy>, ps: seq<Policy>, snap: seq<Policy>, n: nat,
                           approvedBy: string, now: int)
    requires n <= |snap|
  {
    && SameIdsAndKeys(orig, ps)
    && Settled(ps, snap, n)
    && AllApproved(ps, snap, n, approvedBy, now)
    && |before| <= |ps| && Untouched(before, ps, snap, n)
    && OnlyApprovalFields(before, ps)
    && ApprovalsOnlyInSnapshot(before, ps, snap, n)
  }

  /** Approves the snapshot's policies one after the other, as accepted. */
  method ApproveChildren(db: Store, snap: seq<Policy>, ghost orig: seq<Policy>, approvedBy: string, now: int)
    requires db.Valid()
    requires PolicyService.DistinctIds(orig) && SameIdsAndKeys(orig, db.policies)
    requires forall j :: 0 <= j < |snap| ==> snap[j] in orig
    modifies db
    ensures db.Valid()
    ensures SameIdsAndKeys(orig, db.policies)
    ensures Settled(db.policies, snap, |snap|)
    ensures AllApproved(db.policies, snap, |snap|, approvedBy, now)
    ensures |old(db.policies)| <= |db.policies| && Untouched(old(db.policies), db.policies, snap, |snap|)
    ensures OnlyApprovalFields(old(db.policies), db.policies)
    ensures ApprovalsOnlyInSnapshot(old(db.policies), db.policies, snap, |snap|)
    ensures db.State() == old(db.State()).(policies := db.policies, acks := db.acks, nextAckId := db.nextAckId)
    ensures old(db.acks) <= db.acks
  {
    var i := 0;
    while i < |snap|
      invariant 0 <= i <= |snap|
      invariant db.Valid()
      invariant Progress(orig, old(db.policies), db.policies, snap, i, approvedBy, now)
      invariant db.State() == old(db.State()).(policies := db.policies, acks := db.acks, nextAckId := db.nextAckId)
      invariant old(db.acks) <= db.acks
    {
      ghost var prev := db.policies;
      KeyById(orig, prev, snap[i]);
      ghost var k := PolicyIndex(prev, snap[i].id).value;
      var res := PolicyService.ApprovePolicy(db, snap[i].id, approvedBy, Accepted, now);
      ApproveStep(orig, old(db.policies), prev, k, snap, i, approvedBy, now);
      i := i + 1;
    }
  }

  /** One step of `ApproveChildren`: accepting the `i`-th snapshot policy,
      found at row `k`, keeps the facts established for the earlier ones. */
  lemma ApproveStep(orig: seq<Policy>, before: seq<Policy>, prev: seq<Policy>, k: nat, snap: seq<Policy>, i: nat,
                    approvedBy: string, now: int)
    requires k < |prev| && i < |snap|
    requires prev[k].id == snap[i].id && PolicyService.Key(prev[k]) == PolicyService.Key(snap[i])
    requires Progress(orig, before, prev, snap, i, approvedBy, now)
    ensures Progress(orig, before, PolicyService.ApprovalTable(prev, k, approvedBy, Accepted, now), snap, i + 1, approvedBy, now)
  {
    var next := PolicyService.ApprovalTable(prev, k, approvedBy, Accepted, now);
    PolicyService.AcceptMakesSoleActive(prev, k, approvedBy, now);
    PolicyService.ApprovalFrame(prev, k, approvedBy, Accepted, now);
    forall j | 0 <= j < i && LastOfGroup(snap, j, i + 1)
      ensures PolicyService.SoleActive(next, snap[j].id, PolicyService.Key(snap[j]))
    {
      assert LastOfGroup(snap, j, i);
      PolicyService.ApprovalKeepsOtherGroups(prev, k, approvedBy, Accepted, now, snap[j].id, PolicyService.Key(snap[j]));
    }
    forall j | 0 <= j < i ensures ApprovedBy(next, snap[j].id, approvedBy, now) {
      var m :| 0 <= m < |prev| && prev[m].id == snap[j].id && prev[m].approvedBy == Some(approvedBy) && prev[m].approvalDate == Some(now);
      assert next[m].id == snap[j].id;
    }
    assert next[k].id == snap[i].id;
    forall m | 0 <= m < |before| && OutsideGroups(before[m], snap, i + 1) ensures next[m] == before[m] {
      assert OutsideGroups(before[m], snap, i);
      assert PolicyService.Key(before[m]) != PolicyService.Key(snap[i]);
    }
    forall m | 0 <= m < |before| && NotInSnapshot(before[m].id, snap, i + 1)
      ensures next[m].approvedBy == before[m].approvedBy && next[m].approvalDate == before[m].approvalDate
    {
      assert NotInSnapshot(before[m].id, snap, i);
      assert prev[m].id == before[m].id != snap[i].id;
    }
  }

  /** Approves template `templateId` and every policy it has, in the CTO's
      name: the template and its policies are made active, then each policy
      goes through the policy approval, with its deactivation of other
      versions and its acknowledgement fan-out. */
  method ApproveTemplateAndPolicies(db: Store, userId: int, templateId: int, now: int)
    returns (r: Result<Template, Error>)
    requires db.Valid()
    modifies db
    ensures db.Valid()
    ensures userId == 0 ==> r == Err(BadRequest)
    ensures userId != 0 && !IsCto(old(db.users), userId) ==> r == Err(Unauthorized)
    ensures userId != 0 && IsCto(old(db.users), userId) && TemplateIndex(old(db.templates), templateId).None? ==>
      r == Err(NotFound)
    ensures r.Ok? <==> userId != 0 && IsCto(old(db.users), userId) && TemplateIndex(old(db.templates), templateId).Some?
    ensures r.Err? ==> unchanged(db)
    ensures r.Ok? ==>
      var k := TemplateIndex(old(db.templates), templateId).value;
      r.value == old(db.templates)[k].(isActive := true) && db.templates == old(db.templates)[k := r.value]
    ensures r.Ok? ==> SameIdsAndKeys(old(db.policies), db.policies)
    ensures r.Ok? ==>
      var snap := Children(old(db.policies), templateId);
      && (forall j :: 0 <= j < |snap| && LastOfGroup(snap, j, |snap|) ==>
            PolicyService.SoleActive(db.policies, snap[j].id, PolicyService.Key(snap[j])))
      && (forall j :: 0 <= j < |snap| ==> ApprovedBy(db.policies, snap[j].id, IntToString(userId), now))
      && (forall m :: 0 <= m < |old(db.policies)| && old(db.policies)[m].templateId != Some(templateId)
            && OutsideGroups(old(db.policies)[m], snap, |snap|)
            ==> db.policies[m] == old(db.policies)[m])
    ensures r.Ok? ==> OnlyApprovalFields(old(db.policies), db.policies)
    ensures r.Ok? ==>
      var snap := Children(old(db.policies), templateId);
      ApprovalsOnlyInSnapshot(old(db.policies), db.policies, snap, |snap|)
    ensures r.Ok? ==>
      db.State() == old(db.State()).(templates := db.templates, policies := db.policies, acks := db.acks, nextAckId := db.nextAckId)
    ensures r.Ok? ==> old(db.acks) <= db.acks
  {
    if userId == 0 {
      return Err(BadRequest);
    }
    if !IsCto(db.users, userId) {
      return Err(Unauthorized);
    }
    var found := TemplateIndex(db.templates, templateId);
    if found.None? {
      return Err(NotFound);
    }
    var k := found.value;
    var snap := Children(db.policies, templateId);
    ghost var orig := db.policies;
    var approved := db.templates[k].(isActive := true);
    var activated := ActivateChildren(db.policies, templateId);
    ValidWithTemplates(db.State(), db.templates[k := approved], db.nextTemplateId);
    PolicyService.ValidWithPolicies(db.State().(templates := db.templates[k := approved]), activated);
    db.templates := db.templates[k := approved];
    db.policies := activated;
    forall j | 0 <= j < |snap| ensures snap[j] in orig {
      assert snap[j] in snap;
    }
    ApproveChildren(db, snap, orig, IntToString(userId), now);
    assert OnlyApprovalFields(orig, db.policies) by {
      forall m | 0 <= m < |orig|
        ensures db.policies[m]
             == orig[m].(isActive := db.policies[m].isActive, approvedBy := db.policies[m].approvedBy,
                         approvalDate := db.policies[m].approvalDate)
      {
        assert activated[m] == orig[m].(isActive := activated[m].isActive);
      }
    }
    r := Ok(approved);
  }
}
