# Pflow service core in Dafny

This project models the service layer of Pflow, a policy-management backend
for companies that must collect SOC2-style policy acknowledgements from
their staff. It covers three services:

- the **policy engine** (`src/services/policy.ts`): it creates policies with
  the teams they target, answers the company, id and active-version queries,
  and approves policies. Accepting a policy makes it the only active version
  of its (company, name, type) group and sends an acknowledgement request to
  every employee of the targeted teams.
- the **template engine** (`src/services/template.ts`): it creates a template
  together with its child policies (five SOC2 starters by default) as one
  transaction. It also covers the template queries, update with a nested
  upsert of child policies, deletion, and the CTO-only listing and approval
  of pending templates.
- the **acknowledgement tracker** (`src/services/acknowledgement.ts`): it
  creates acknowledgement requests and lists pending and overdue requests
  grouped by template. It also handles single and bulk acknowledgement with
  the 30-day window flag.

The request schemas of `src/types/index.ts` are modelled as `Parse`
functions over raw records.

Files:

- `wrappers.dfy`: `Option` and `Result`.
- `types.dfy`: the request schemas.
- `tables.dfy`: the rows of each table and the `Store` class. `Store` is the
  single persistence handle the services receive. It holds one sequence per
  table, in insertion order, and an id counter per table the services insert
  into.
- `acknowledgement.dfy`, `policy.dfy`, `template.dfy`: one module per service.

Operations that write to the store are module-level methods that take the
handle `db: Store` and declare `modifies db`. Most of them state their whole
new state as an equation over `Store.State()`. The two template approvals
(`ApproveChildren`, `ApproveTemplateAndPolicies`) instead state a frame for
the policy table: which rows may change, and which fields of them. Queries are
functions over the tables.

Time is counted in whole days, and the current date is the parameter `now`.
A zero id stands for a missing one, which is how the source's `!id` tests
treat it. A write whose foreign key has no row fails with `Persistence`, as
the relational store refuses it.

Where the code does something other than its names suggest, the model
follows the code:

- **Child policies are not linked to their template.** `createPolicy` does
  not write the `template_id` it is given (src/services/policy.ts:10-17). So
  the children that `createTemplateAndPolicies` inserts belong to no
  template, which `TemplateService.NewChildrenUnlinked` states. As a result,
  `approveTemplateAndPolicies` finds no child policies for a freshly created
  template.
- **`created_by` is not always the acting user.** It is the request's
  `created_by` when one is given, and the acting user's id otherwise.
- **The pending list takes the company as an argument.** The company whose
  pending templates are listed is the `companyId` argument, not the acting
  user's company.
- **Two template defaults never apply.** `version` and `is_active` in the
  template schema are written `.default(..).optional()`. The optional wrapper
  answers an absent value before the default is reached, so absent stays
  absent.

## Model

| member | source | states |
|---|---|---|
| Types.AckTypeOf | src/types/index.ts:50 | accepts exactly the three acknowledgement types, and maps each text to its own constructor ("new_hire" to NewHire, "periodic" to Periodic, "manual" to Manual) |
| Types.AckStatusOf | src/types/index.ts:51 | accepts exactly pending, acknowledged and not_acknowledged, each mapped to its own constructor |
| Types.ApprovalStatusOf | src/types/index.ts:44 | accepts exactly accepted and declined, mapped to Accepted and Declined |
| Types.ParsePolicy | src/types/index.ts:3-40 | accepts exactly non-empty name, type and content, a positive version and company id, a positive template id if given, and non-empty role names; is_active defaults to false; nothing else is changed |
| Types.ParsePolicyIdempotent | src/types/index.ts:3-40 | a parsed policy parses to itself |
| Types.ParseApproval | src/types/index.ts:42-45 | accepts exactly a non-empty approver with status accepted or declined |
| Types.ParseAckRequest | src/types/index.ts:47-58 | accepts exactly positive user and policy ids, a known type and status, and a positive version; the version is the given one or 1; each flag is set exactly when given as true; the status is present exactly when given, and is the mapped text; the dates and trigger are carried over |
| Types.ParseAcknowledgePolicy | src/types/index.ts:60-69 | accepts exactly positive ids and version with a known status; an accepted record is unchanged |
| Types.ParseTemplate | src/types/index.ts:71-79 | accepts exactly non-empty name, type and content if given, a positive version if given, and valid nested policies; version and is_active stay as given (absent stays absent); each nested policy is parsed as a policy |
| Types.ParseJoinCompany | src/types/index.ts:81-89 | accepts exactly a name, an email-shaped address, a password of 6 or more characters, a positive company id and a known role; a given role is kept, and an absent one defaults to employee |
| Types.ParseAcknowledgePolicies | src/types/index.ts:92-96 | accepts exactly a positive employee id and positive policy ids; the record is unchanged |
| Types.EmptyPolicyListPassesSchema | src/types/index.ts:92-96 | the schema lets an empty policy list through; only the service rejects it |
| Tables.IntToStringRoundTrip | src/services/template.ts:44 | the user id written as `created_by` or `approved_by` text reads back as the same number |
| Tables.Store.Restore | src/services/template.ts:12-13 | a rolled-back transaction leaves every table and counter as saved |
| AcknowledgementService.RequestAcknowledgements | src/services/acknowledgement.ts:9-36 | fails with BadRequest on a zero user or policy id, and with Persistence when either has no row; otherwise appends exactly one not_acknowledged row: version 1, requested now, due 30 days later, not escalated, the given type and window flag |
| AcknowledgementService.PendingRows | src/services/acknowledgement.ts:43-48 | a row is pending exactly when it has no acknowledgement date and matches the employee and the policy when those are given |
| AcknowledgementService.OverdueRows | src/services/acknowledgement.ts:213-221 | a row is overdue exactly when it is unacknowledged, not_acknowledged, and requested more than 30 days before now |
| AcknowledgementService.OverdueIffOutsideWindow | src/services/acknowledgement.ts:145-153 | an open row is overdue exactly when it is outside the 30-day window that bulk acknowledgement grants |
| AcknowledgementService.PlaceFacts | src/services/acknowledgement.ts:67-72 | a row is placed under a template exactly when its policy exists and names an existing template; the placement then holds that policy and that template |
| AcknowledgementService.GroupByTemplate | src/services/acknowledgement.ts:64-87 | the loop builds the insertion-ordered template map row by row |
| AcknowledgementService.GetPendingAcknowledgements | src/services/acknowledgement.ts:38-95 | returns the pending rows grouped by their policy's template |
| AcknowledgementService.GetOverdueAcknowledgements | src/services/acknowledgement.ts:211-259 | returns the overdue rows grouped by their policy's template |
| AcknowledgementService.GroupedIsGroupBy | src/services/acknowledgement.ts:64-87 | the answer has one entry per template some row is placed under, in order of first appearance, without repeats; each entry lists exactly the policies of its rows in row order; rows whose policy has no template are skipped |
| AcknowledgementService.AcknowledgePolicy | src/services/acknowledgement.ts:97-115 | fails with NotFound for an unknown id and with Persistence when the new employee or policy has no row; succeeds exactly when the id, the employee and the policy all have rows, and then sets acknowledged_at to now, re-targets the row and changes nothing else, status included |
| AcknowledgementService.GetAcknowledgementById | src/services/acknowledgement.ts:200-209 | returns the row with the id, or nothing exactly when no row has it |
| AcknowledgementService.Matching | src/services/acknowledgement.ts:130-137 | bulk acknowledgement selects exactly the employee's unacknowledged not_acknowledged rows for the listed policies |
| AcknowledgementService.WindowUpdates | src/services/acknowledgement.ts:146-159 | one update per selected row, in order, with that row's policy id; the flag is set exactly when the row was requested no more than 30 days before now |
| AcknowledgementService.MarkAcknowledged | src/services/acknowledgement.ts:162-174 | the first pass keeps every row id; a selected row is stamped acknowledged at now, with its employee, policy and request date kept; every other row is unchanged |
| AcknowledgementService.SetWindowFlag | src/services/acknowledgement.ts:181-192 | a second-pass update keeps every row id and changes only the window flag; an acknowledged row of the employee and the update's policy gets the update's flag; every other row is unchanged |
| AcknowledgementService.SetWindowFlags | src/services/acknowledgement.ts:180-192 | the second-pass loop leaves the table equal to the updates applied in order, and keeps the id discipline |
| AcknowledgementService.AcknowledgePolicies | src/services/acknowledgement.ts:117-198 | BadRequest on a zero employee or an empty list; NotFound, with nothing changed, when no row is selected; succeeds exactly when the employee is nonzero, the list is non-empty and some row is selected, and then returns the number of selected rows and the table becomes the two-pass result |
| AcknowledgementService.ApplyWindowUpdatesEffect | src/services/acknowledgement.ts:180-192 | the second pass changes only the window flag; every acknowledged row of the employee gets the last flag computed for its policy, including rows acknowledged before this call |
| AcknowledgementService.AcknowledgedTableEffect | src/services/acknowledgement.ts:145-192 | exactly the selected rows become acknowledged at now; other rows keep their status and date; no field changes but these and the window flag |
| AcknowledgementService.ResubmissionSelectsNothing | src/services/acknowledgement.ts:130-143 | after a bulk acknowledgement, the same request selects nothing, so it fails with NotFound |
| PolicyService.MappingRows | src/services/policy.ts:46-56 | one mapping per requested team, in order, with consecutive ids |
| PolicyService.MappedTeams | src/services/policy.ts:129-138 | a team is listed exactly when a mapping of the policy names it |
| PolicyService.MappedTeamsOfNewRows | src/services/policy.ts:46-56 | the mappings inserted for a policy give back its requested teams, in order |
| PolicyService.InsertMappings | src/services/policy.ts:46-56 | the loop appends one mapping per team, in order, with consecutive ids from the counter, and advances the counter by the number of teams |
| PolicyService.CreatePolicy | src/services/policy.ts:5-62 | succeeds exactly when the company has a row, and otherwise changes nothing; the new row has the next id, no template id and no approval, and is active only when asked; the loop appends one mapping per team, so the policy's teams are exactly the requested ones |
| PolicyService.PoliciesByCompany | src/services/policy.ts:64-83 | a policy is returned exactly when it is the company's, and active when only active ones are asked for |
| PolicyService.GetPolicyById | src/services/policy.ts:85-99 | returns the row with the id, or NotFound exactly when there is none |
| PolicyService.ActivePolicyVersion | src/services/policy.ts:175-191 | returns an active policy of the company and type whose version is the highest, or nothing exactly when there is none |
| PolicyService.ApprovalTable | src/services/policy.ts:107-127 | approval keeps the length of the table and every row's id and group |
| PolicyService.AcceptMakesSoleActive | src/services/policy.ts:107-127 | after acceptance, the accepted row is the only active row of its group |
| PolicyService.ApprovalFrame | src/services/policy.ts:107-127 | the approved row records the approver and date and is active exactly when accepted; other rows change only by deactivation within its group on acceptance; a decline changes no other row |
| PolicyService.ApprovalKeepsAtMostOneActive | src/services/policy.ts:107-127 | approval of either kind keeps at most one active row per group |
| PolicyService.ApprovalKeepsOtherGroups | src/services/policy.ts:117-127 | approving a policy leaves the rows of other groups, and their single active version, as they were |
| PolicyService.Recipients | src/services/policy.ts:140-150 | a user is a recipient exactly when they are an employee of the company on one of the policy's teams |
| PolicyService.RecipientsIncreasing | src/services/policy.ts:140-150 | the recipients are in increasing id order, hence without repeats |
| PolicyService.RecipientsAreUsers | src/services/policy.ts:140-150 | every recipient is the positive id of an existing user |
| PolicyService.FanOutRows | src/services/policy.ts:153-166 | one request row per recipient, in order, with consecutive ids |
| PolicyService.FanOutOnePerRecipient | src/services/policy.ts:140-166 | the fan-out reaches a user exactly when they are a recipient, and no user twice |
| PolicyService.ApprovePolicy | src/services/policy.ts:101-173 | NotFound, with nothing changed, exactly for an unknown id; otherwise the table becomes the approval table; a decline changes nothing else; an acceptance also appends exactly the fan-out requests to the recipients |
| PolicyService.FanOut | src/services/policy.ts:153-166 | the loop appends one manual request per given user, in order, and changes nothing else |
| TemplateService.DefaultPolicies | src/services/template.ts:55-107 | five starters of the company and new template, version 0, inactive, each with its teams |
| TemplateService.StarterPolicy | src/services/template.ts:56-106 | each starter belongs to the company and template, has version 0, is inactive and has target teams |
| TemplateService.DefaultPolicyNamesAndTeams | src/services/template.ts:55-107 | the starters' names, types and target teams, in creation order |
| TemplateService.DefaultPoliciesFailPolicySchema | src/services/template.ts:62 | the starters' version 0 is refused by the policy schema, which creation bypasses |
| TemplateService.NewPolicyRows | src/services/template.ts:110-112 | the child rows get consecutive ids and no template id |
| TemplateService.ChildMappings | src/services/template.ts:110-112 | the children's mappings number one per requested team |
| TemplateService.ChildMappingsTeams | src/services/template.ts:110-112 | the teams of each new child are the ones its input names |
| TemplateService.NewTemplateRow | src/services/template.ts:27-46 | the new template row is the SOC2 default row overwritten by the given fields, with is_active forced to false; an empty request gives the default row itself |
| TemplateService.InsertTemplate | src/services/template.ts:49-52 | appends the template row with the next id and changes nothing else |
| TemplateService.CreateChildren | src/services/template.ts:110-112 | creating children one by one succeeds exactly when every child's company has a row; the result is the children's rows and mappings appended |
| TemplateService.ChildrenTeams | src/services/template.ts:110-112 | after creation, each child's teams are the roles its input names |
| TemplateService.DefaultPoliciesOfCompany | src/services/template.ts:55-58 | the starters belong to the company the template is created for |
| TemplateService.NewChildrenUnlinked | src/services/template.ts:58 | no created child carries a template id, the new template's included, because the policy insert drops it |
| TemplateService.CreateTemplateAndPolicies | src/services/template.ts:6-124 | BadRequest on a zero or unknown company; succeeds exactly when that company and every child's company exist, and otherwise changes nothing (rollback); the template gets the next id, the request's fields and their defaults, and is inactive; the children, given or default, are created in order with their teams |
| TemplateService.GetTemplates | src/services/template.ts:126-135 | every template, or exactly those of the type when a non-empty type is given |
| TemplateService.GetTemplateById | src/services/template.ts:137-147 | returns the template with the id, or NotFound exactly when there is none |
| TemplateService.Overwrite | src/services/template.ts:151-156 | keeps the id and company; each field given in the request takes the given value, and each absent field keeps the old one |
| TemplateService.OverwriteIdempotent | src/services/template.ts:151-156 | overwriting the fields twice equals overwriting once; an empty request changes nothing; id and company never change |
| TemplateService.ChildIndex | src/services/template.ts:159-160 | finds the first row with the id that is a child of the template, or nothing exactly when there is none |
| TemplateService.UpsertChild | src/services/template.ts:157-178 | fails exactly when the policy has no id (BadRequest), or when it names no child and its company has no row; on success some child carries the requested fields; a create appends a new child, active unless the request says otherwise, and advances the counter; an update keeps the length and the counter and changes only the named child, which becomes the updated row with its id kept and, when no flag is given, its is_active kept |
| TemplateService.UpsertUpdateIdempotent | src/services/template.ts:159-167 | upserting the same request on an existing child twice equals upserting it once |
| TemplateService.UpsertChildren | src/services/template.ts:157-178 | succeeds only when every request carries an id; fails only with BadRequest or Persistence; an empty list changes nothing |
| TemplateService.UpsertChildrenKeepsUnnamed | src/services/template.ts:157-167 | a row that no request names comes out of the upserts unchanged |
| TemplateService.UpsertChildrenUpdatesNamed | src/services/template.ts:159-167 | a child named by exactly one request ends up as that request's update of it |
| TemplateService.UpsertChildrenExtends | src/services/template.ts:157-178 | an update request keeps every existing id and template link, leaves other templates' policies alone, adds only children of this template, and keeps ids increasing and below the counter |
| TemplateService.UpdateTemplate | src/services/template.ts:149-186 | NotFound for an unknown template; succeeds exactly when the template exists and every upsert succeeds, and otherwise changes nothing; the template's given fields are overwritten and the policy table becomes the upsert result; a policy no request names is unchanged, and a child named by exactly one request becomes that request's update |
| TemplateService.RemoveKeepsTemplateIdsOk | src/services/template.ts:190-192 | removing a template keeps exactly the other templates, with their id order |
| TemplateService.DeleteTemplate | src/services/template.ts:188-197 | NotFound exactly for an unknown id, with nothing changed; otherwise exactly that template is removed and the success message is returned |
| TemplateService.MappingsOf | src/services/template.ts:228-234 | a policy's mappings are exactly the mapping rows that point at it |
| TemplateService.PendingChildren | src/services/template.ts:224-236 | exactly the inactive children of the template, each with its mappings |
| TemplateService.PendingApprovalTemplates | src/services/template.ts:199-250 | Unauthorized exactly when the user id is zero or the user is not a CTO; otherwise exactly the inactive templates of the company, each with its pending children |
| TemplateService.Children | src/services/template.ts:274-277 | a policy is listed exactly when it is a child of the template |
| TemplateService.ActivateChildren | src/services/template.ts:288-293 | the bulk update activates exactly the template's children and changes nothing else |
| TemplateService.ApproveChildren | src/services/template.ts:297-304 | approving the snapshot in order leaves the last child of each group as that group's only active row; every child carries this approval; rows of groups no child belongs to are untouched; no row changes any field but is_active, approved_by and approval_date, and only the children get an approver or date; the request table only grows |
| TemplateService.ApproveStep | src/services/template.ts:297-304 | one acceptance keeps those facts for the children approved so far |
| TemplateService.ApproveTemplateAndPolicies | src/services/template.ts:251-313 | BadRequest for a zero user, Unauthorized for a non-CTO, NotFound for an unknown template, each with nothing changed; otherwise the template becomes active, and then each child goes through acceptance, with the group and approval facts above; no policy changes any field but is_active, approved_by and approval_date, and only the template's children get an approver or date |

## Left out

- Configurations and pre-seeded acknowledgements: the nested `configurations` and `acknowledgements` of a policy create (src/services/policy.ts:18-42) are not modelled. Neither are the `include`s that attach them, or a role, to query answers. The answers are the rows themselves.
- Error text: the wrapping messages ("Error creating policy: ...") and logging are left out. Failures are the four error kinds of `Tables.Error`.
- Dates: `new Date()` and the millisecond date arithmetic are the day count `now` and whole-day offsets. A request date is never missing in the model, so the fallback of bulk acknowledgement to the current date for a row without one (src/services/acknowledgement.ts:147-149) has no counterpart; no modelled operation writes a row without a request date.
- Transactions: the transaction timeout (10000 ms) and concurrent requests are not modelled.
- AcknowledgementService.AcknowledgePolicies: the "No policies were acknowledged" failure (src/services/acknowledgement.ts:176-178) needs a concurrent write between selection and update, so it is not modelled.
- Tables.Store.Restore: a rollback also resets the id counters. A real store's id sequences keep advancing, which changes only which ids later rows receive.
- TemplateService.DeleteTemplate: the store's referential action on the deleted template's policies belongs to the database schema, which is not part of this model. The policies keep their template id.
- PolicyService.ActivePolicyVersion: among equal highest versions it returns the earliest-inserted row. The store leaves that order open.
- Failures inside a fan-out: in `approvePolicy` and `approveTemplateAndPolicies`, a request that fails halfway cannot happen here. Every recipient and child is an existing row, so a partial approval is not modelled.
- TemplateService.ApproveTemplateAndPolicies: for acknowledgement requests it states only that the request table grows. The rows each acceptance appends are stated by `PolicyService.ApprovePolicy`.
- TemplateService.ApproveChildren: same as above; the rows each acceptance appends are stated by `PolicyService.ApprovePolicy`.
- PolicyService.CreatePolicy: the model always hands the service a store. In the source the handle `prismaInstance?` is optional (src/services/policy.ts:7) and the policy controller calls `createPolicy` without it (src/controllers/policy.ts:10), so a standalone create fails there. The model does not capture that failure.
- AcknowledgementService.GroupByTemplate / GroupedIsGroupBy: the store returns the rows of `findMany` (src/services/acknowledgement.ts:51, :213) in an unspecified order. The model fixes it as insertion order, and that order decides the order of the groups ("first appearance") and of the policies within each group.
- AcknowledgementService.AcknowledgePolicies / ApplyWindowUpdatesEffect: the selection (src/services/acknowledgement.ts:130) is likewise taken in insertion order. When one policy has several selected rows, that order decides which computed window flag the second pass (src/services/acknowledgement.ts:180-192) leaves behind, the "last" one of the model; under another store order a different flag could win.
- TemplateService.Children: the store returns a template's policies in an unspecified order (src/services/template.ts:274-277). The model fixes it as insertion order, which decides the approval order and so which child ends as its group's active row.
- Types.ParseJoinCompany: the email check is an approximation: one `@` with text before it and a dot inside the domain.
- Outside the core: request validation middleware, authentication, controllers and routes, which are not part of this model.
