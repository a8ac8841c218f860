/**
 * The policy engine (src/services/policy.ts): creating a policy with its
 * role mappings, the company and id queries, the active-version query, and
 * approval, which keeps a single active version per (company, name, type)
 * group and fans acknowledgement requests out to the policy's teams.
 */
module PolicyService {
  import opened Wrappers
  import opened Types
  import opened Tables
  import AcknowledgementService

  /** The versions of one policy share a company, a name and a type. */
  datatype GroupKey = GroupKey(companyId: int, name: string, kind: string)

  function Key(p: Policy): GroupKey {
    GroupKey(p.companyId, p.name, p.kind)
  }

  // ------------------------------------------------------------------ creation

  /** The row a create request inserts.  The template id of the request is
      not written, and an absent active flag takes the store default, false. */
  function NewPolicyRow(id: int, input: PolicyInput): Policy {
    Policy(id, input.companyId, None, input.name, input.kind, input.content,
           input.version, input.isActive.GetOr(false), None, None)
  }

  /** The role-mapping rows inserted for `roles`, with ids from `start` on. */
  function MappingRows(start: int, policyId: int, roles: seq<string>): (r: seq<RoleMapping>)
    ensures |r| == |roles|
    ensures forall i :: 0 <= i < |r| ==> r[i] == RoleMapping(start + i, policyId, roles[i])
  {
    seq(|roles|, i requires 0 <= i < |roles| => RoleMapping(start + i, policyId, roles[i]))
  }

  /** The teams mapped to a policy, in insertion order. */
  function MappedTeams(ms: seq<RoleMapping>, policyId: int): (r: seq<string>)
    ensures |r| <= |ms|
    ensures forall t :: t in r <==> exists m :: m in ms && m.policyId == policyId && m.name == t
  {
    if ms == [] then []
    else
      assert forall m :: m in ms <==> m == ms[0] || m in ms[1..];
      (if ms[0].policyId == policyId then [ms[0].name] else []) + MappedTeams(ms[1..], policyId)
  }

  lemma {:induction false} MappedTeamsAppend(a: seq<RoleMapping>, b: seq<RoleMapping>, policyId: int)
    ensures MappedTeams(a + b, policyId) == MappedTeams(a, policyId) + MappedTeams(b, policyId)
  {
    if a == [] {
      assert a + b == b;
    } else {
      var head := if a[0].policyId == policyId then [a[0].name] else [];
      assert (a + b)[0] == a[0];
      assert (a + b)[1..] == a[1..] + b;
      assert MappedTeams(a + b, policyId) == head + MappedTeams(a[1..] + b, policyId);
      MappedTeamsAppend(a[1..], b, policyId);
      assert MappedTeams(a, policyId) == head + MappedTeams(a[1..], policyId);
    }
  }

  /** The mappings inserted for a policy give back its roles, in order. */
  lemma {:induction false} MappedTeamsOfNewRows(start: int, policyId: int, roles: seq<string>)
    ensures MappedTeams(MappingRows(start, policyId, roles), policyId) == roles
    decreases |roles|
  {
    if roles != [] {
      var rows := MappingRows(start, policyId, roles);
      assert rows[1..] == MappingRows(start + 1, policyId, roles[1..]);
      MappedTeamsOfNewRows(start + 1, policyId, roles[1..]);
    }
  }

  /** A policy id above every mapping's policy id has no teams yet. */
  lemma {:induction false} NoTeamsForFreshPolicy(ms: seq<RoleMapping>, policyId: int)
    requires forall i :: 0 <= i < |ms| ==> ms[i].policyId < policyId
    ensures MappedTeams(ms, policyId) == []
  {
    if ms != [] {
      NoTeamsForFreshPolicy(ms[1..], policyId);
    }
  }

  lemma ValidAfterCreatePolicy(st: DbState, p: Policy, roles: seq<string>)
    requires ValidState(st)
    requires p.id == st.nextPolicyId
    ensures ValidState(st.(policies := st.policies + [p], nextPolicyId := st.nextPolicyId + 1,
                           mappings := st.mappings + MappingRows(st.nextMappingId, p.id, roles),
                           nextMappingId := st.nextMappingId + |roles|))
  {
  }

  /** Inserts one role mapping per team, in order, with consecutive ids. */
  method InsertMappings(db: Store, policyId: int, roles: seq<string>)
    modifies db`mappings, db`nextMappingId
    ensures db.mappings == old(db.mappings) + MappingRows(old(db.nextMappingId), policyId, roles)
    ensures db.nextMappingId == old(db.nextMappingId) + |roles|
  {
    var i := 0;
    while i < |roles|
      invariant 0 <= i <= |roles|
      invariant db.mappings == old(db.mappings) + MappingRows(old(db.nextMappingId), policyId, roles[..i])
      invariant db.nextMappingId == old(db.nextMappingId) + i
    {
      db.mappings := db.mappings + [RoleMapping(db.nextMappingId, policyId, roles[i])];
      db.nextMappingId := db.nextMappingId + 1;
      i := i + 1;
    }
    assert roles[..i] == roles;
  }

  /** Inserts the policy row and then one role mapping per requested team.
      The store refuses a company id without a row, and then nothing is written. */
  method CreatePolicy(db: Store, input: PolicyInput) returns (r: Result<Policy, Error>)
    requires db.Valid()
    modifies db
    ensures db.Valid()
    ensures r.Ok? <==> HasCompany(old(db.companies), input.companyId)
    ensures r.Err? ==> r.error == Persistence && unchanged(db)
    ensures r.Ok? ==>
      && r.value.id == old(db.nextPolicyId)
      && r.value.companyId == input.companyId && r.value.templateId.None?
      && r.value.name == input.name && r.value.kind == input.kind
      && r.value.content == input.content && r.value.version == input.version
      && (r.value.isActive <==> input.isActive == Some(true))
      && r.value.approvedBy.None? && r.value.approvalDate.None?
    ensures r.Ok? ==>
      var roles := input.policyRoles.GetOr([]);
      db.State() == old(db.State()).(
        policies := old(db.policies) + [r.value], nextPolicyId := old(db.nextPolicyId) + 1,
        mappings := old(db.mappings) + MappingRows(old(db.nextMappingId), r.value.id, roles),
        nextMappingId := old(db.nextMappingId) + |roles|)
    ensures r.Ok? ==> MappedTeams(db.mappings, r.value.id) == input.policyRoles.GetOr([])
  {
    if !HasCompany(db.companies, input.companyId) {
      return Err(Persistence);
    }
    var row := NewPolicyRow(db.nextPolicyId, input);
    db.policies := db.policies + [row];
    db.nextPolicyId := db.nextPolicyId + 1;
    var roles := input.policyRoles.GetOr([]);
    InsertMappings(db, row.id, roles);
    ValidAfterCreatePolicy(old(db.State()), row, roles);
    NoTeamsForFreshPolicy(old(db.mappings), row.id);
    MappedTeamsAppend(old(db.mappings), MappingRows(old(db.nextMappingId), row.id, roles), row.id);
    MappedTeamsOfNewRows(old(db.nextMappingId), row.id, roles);
    r := Ok(row);
  }

  // ------------------------------------------------------------------- queries

  /** The policies of a company, only its active ones when `activeOnly`. */
  function PoliciesByCompany(ps: seq<Policy>, companyId: int, activeOnly: bool): (r: seq<Policy>)
    ensures forall p :: p in r <==> p in ps && p.companyId == companyId && (activeOnly ==> p.isActive)
  {
    Filter(ps, (p: Policy) => p.companyId == companyId && (activeOnly ==> p.isActive))
  }

  function GetPolicyById(ps: seq<Policy>, id: int): (r: Result<Policy, Error>)
    ensures r.Ok? ==> r.value in ps && r.value.id == id
    ensures r.Err? <==> forall p :: p in ps ==> p.id != id
    ensures r.Err? ==> r.error == NotFound
  {
    match PolicyIndex(ps, id)
    case None => Err(NotFound)
    case Some(k) => Ok(ps[k])
  }

  predicate ActiveOfKind(p: Policy, companyId: int, kind: string) {
    p.companyId == companyId && p.kind == kind && p.isActive
  }

  /** The active policy of a company and type with the highest version; among
      equal versions the earliest inserted. */
  function ActivePolicyVersion(ps: seq<Policy>, companyId: int, kind: string): (r: Option<Policy>)
    ensures r.Some? ==> r.value in ps && ActiveOfKind(r.value, companyId, kind)
    ensures r.Some? ==> forall p :: p in ps && ActiveOfKind(p, companyId, kind) ==> p.version <= r.value.version
    ensures r.None? <==> forall p :: p in ps ==> !ActiveOfKind(p, companyId, kind)
  {
    if ps == [] then None
    else
      assert forall p :: p in ps <==> p == ps[0] || p in ps[1..];
      var rest := ActivePolicyVersion(ps[1..], companyId, kind);
      if !ActiveOfKind(ps[0], companyId, kind) then rest
      else if rest.None? || rest.value.version <= ps[0].version then Some(ps[0])
      else rest
  }

  // ------------------------------------------------------------------ approval

  /** The approved row: approver and date recorded, active exactly when accepted. */
  function Approved(p: Policy, approvedBy: string, status: ApprovalStatus, now: int): Policy {
    p.(approvedBy := Some(approvedBy), approvalDate := Some(now), isActive := status == Accepted)
  }

  /** The policy table after approving row `k`: that row approved and, when
      accepted, every other active row of its group deactivated. */
  function ApprovalTable(ps: seq<Policy>, k: nat, approvedBy: string, status: ApprovalStatus, now: int): (r: seq<Policy>)
    requires k < |ps|
    ensures |r| == |ps|
    ensures forall i :: 0 <= i < |ps| ==> r[i].id == ps[i].id && Key(r[i]) == Key(ps[i])
  {
    var t := Approved(ps[k], approvedBy, status, now);
    seq(|ps|, i requires 0 <= i < |ps| =>
      if i == k then t
      else if status == Accepted && ps[i].id != t.id && Key(ps[i]) == Key(t) && ps[i].isActive
      then ps[i].(isActive := false)
      else ps[i])
  }

  /** `id` is the one active row of group `key`. */
  ghost predicate SoleActive(ps: seq<Policy>, id: int, key: GroupKey) {
    && (exists i :: 0 <= i < |ps| && ps[i].id == id && Key(ps[i]) == key && ps[i].isActive)
    && (forall i :: 0 <= i < |ps| && Key(ps[i]) == key && ps[i].isActive ==> ps[i].id == id)
  }

  /** No group has two active rows. */
  ghost predicate AtMostOneActivePerGroup(ps: seq<Policy>) {
    forall i, j :: 0 <= i < |ps| && 0 <= j < |ps| && ps[i].isActive && ps[j].isActive && Key(ps[i]) == Key(ps[j])
      ==> i == j
  }

  ghost predicate DistinctIds(ps: seq<Policy>) {
    forall i, j :: 0 <= i < j < |ps| ==> ps[i].id != ps[j].id
  }

  /** Accepting a row leaves it the only active row of its group. */
  lemma AcceptMakesSoleActive(ps: seq<Policy>, k: nat, approvedBy: string, now: int)
    requires k < |ps|
    ensures SoleActive(ApprovalTable(ps, k, approvedBy, Accepted, now), ps[k].id, Key(ps[k]))
  {
    assert ApprovalTable(ps, k, approvedBy, Accepted, now)[k].isActive;
  }

  /** What approval changes: the approved row; when accepted, the active flag
      of other rows of its group, from true to false; nothing else. */
  lemma ApprovalFrame(ps: seq<Policy>, k: nat, approvedBy: string, status: ApprovalStatus, now: int)
    requires k < |ps|
    ensures ApprovalTable(ps, k, approvedBy, status, now)[k] == Approved(ps[k], approvedBy, status, now)
    ensures forall i :: 0 <= i < |ps| && i != k ==>
      var q := ApprovalTable(ps, k, approvedBy, status, now)[i];
      q == ps[i].(isActive := q.isActive) && (q.isActive ==> ps[i].isActive)
      && (q.isActive != ps[i].isActive ==> status == Accepted && Key(ps[i]) == Key(ps[k]))
    ensures status == Declined ==> forall i :: 0 <= i < |ps| && i != k ==>
      ApprovalTable(ps, k, approvedBy, status, now)[i] == ps[i]
  {
  }

  /** Approval of either kind keeps every group at most one active row. */
  lemma ApprovalKeepsAtMostOneActive(ps: seq<Policy>, k: nat, approvedBy: string, status: ApprovalStatus, now: int)
    requires k < |ps| && DistinctIds(ps) && AtMostOneActivePerGroup(ps)
    ensures AtMostOneActivePerGroup(ApprovalTable(ps, k, approvedBy, status, now))
  {
    var r := ApprovalTable(ps, k, approvedBy, status, now);
    if status == Accepted {
      AcceptMakesSoleActive(ps, k, approvedBy, now);
      forall i, j | 0 <= i < |r| && 0 <= j < |r| && r[i].isActive && r[j].isActive && Key(r[i]) == Key(r[j])
        ensures i == j
      {
        if Key(r[i]) == Key(ps[k]) {
          assert ps[i].id == ps[k].id == ps[j].id;
        } else {
          assert r[i] == ps[i] && r[j] == ps[j];
        }
      }
    }
  }

  /** Approving a row leaves a group it does not belong to as it was. */
  lemma ApprovalKeepsOtherGroups(ps: seq<Policy>, k: nat, approvedBy: string, status: ApprovalStatus, now: int, id: int, key: GroupKey)
    requires k < |ps| && key != Key(ps[k])
    ensures forall i :: 0 <= i < |ps| && Key(ps[i]) == key ==> ApprovalTable(ps, k, approvedBy, status, now)[i] == ps[i]
    ensures SoleActive(ps, id, key) ==> SoleActive(ApprovalTable(ps, k, approvedBy, status, now), id, key)
  {
    var r := ApprovalTable(ps, k, approvedBy, status, now);
    if SoleActive(ps, id, key) {
      var i :| 0 <= i < |ps| && ps[i].id == id && Key(ps[i]) == key && ps[i].isActive;
      assert r[i] == ps[i];
    }
  }

  // ---------------------------------------------------------------- fan-out

  /** An employee of the company whose role's team is one of `teams`. */
  predicate IsRecipient(u: User, companyId: int, teams: seq<string>) {
    u.companyId == companyId && u.role.name == "employee" && u.role.team in teams
  }

  /** The ids of the users an accepted policy is sent to, in user order. */
  function Recipients(users: seq<User>, companyId: int, teams: seq<string>): (r: seq<int>)
    ensures |r| <= |users|
    ensures forall id :: id in r <==> exists u :: u in users && u.id == id && IsRecipient(u, companyId, teams)
  {
    if users == [] then []
    else
      assert forall u :: u in users <==> u == users[0] || u in users[1..];
      (if IsRecipient(users[0], companyId, teams) then [users[0].id] else [])
        + Recipients(users[1..], companyId, teams)
  }

  /** With increasing user ids, every recipient among the later users is above the first user's id. */
  lemma RecipientsAfterFirst(users: seq<User>, companyId: int, teams: seq<string>)
    requires UserIdsOk(users) && users != []
    ensures forall x :: x in Recipients(users[1..], companyId, teams) ==> users[0].id < x
  {
    forall x | x in Recipients(users[1..], companyId, teams) ensures users[0].id < x {
      var u :| u in users[1..] && u.id == x && IsRecipient(u, companyId, teams);
      var j :| 0 <= j < |users[1..]| && users[1..][j] == u;
      assert users[j + 1] == u;
    }
  }

  /** With increasing user ids the recipients are increasing, so no user is sent a request twice. */
  lemma {:induction false} RecipientsIncreasing(users: seq<User>, companyId: int, teams: seq<string>)
    requires UserIdsOk(users)
    ensures forall i, j :: 0 <= i < j < |Recipients(users, companyId, teams)| ==>
      Recipients(users, companyId, teams)[i] < Recipients(users, companyId, teams)[j]
  {
    if users != [] {
      var rest := Recipients(users[1..], companyId, teams);
      RecipientsIncreasing(users[1..], companyId, teams);
      RecipientsAfterFirst(users, companyId, teams);
      var r := Recipients(users, companyId, teams);
      if IsRecipient(users[0], companyId, teams) {
        forall i, j | 0 <= i < j < |r| ensures r[i] < r[j] {
          assert r[j] == rest[j - 1] && rest[j - 1] in rest;
          if 0 < i {
            assert r[i] == rest[i - 1];
          }
        }
      } else {
        assert r == rest;
      }
    }
  }

  /** Every recipient is the id of a user row. */
  lemma RecipientsAreUsers(users: seq<User>, companyId: int, teams: seq<string>)
    requires UserIdsOk(users)
    ensures forall i :: 0 <= i < |Recipients(users, companyId, teams)| ==>
      var id := Recipients(users, companyId, teams)[i];
      0 < id && UserIndex(users, id).Some?
  {
    var r := Recipients(users, companyId, teams);
    forall i | 0 <= i < |r| ensures 0 < r[i] && UserIndex(users, r[i]).Some? {
      assert r[i] in r;
      var u :| u in users && u.id == r[i] && IsRecipient(u, companyId, teams);
      var j :| 0 <= j < |users| && users[j] == u;
    }
  }

  /** The request rows the fan-out inserts, with ids from `start` on. */
  function FanOutRows(start: int, userIds: seq<int>, policyId: int, now: int): (r: seq<Ack>)
    ensures |r| == |userIds|
    ensures forall i :: 0 <= i < |r| ==> r[i].userId == userIds[i] && r[i].id == start + i
  {
    seq(|userIds|, i requires 0 <= i < |userIds| =>
      Ack(start + i, userIds[i], policyId, NotAcknowledged, 1, Manual, false,
          now + AcknowledgementService.WindowDays, now, None, false, None))
  }

  lemma FanOutRowsSnoc(start: int, userIds: seq<int>, i: nat, policyId: int, now: int)
    requires i < |userIds|
    ensures FanOutRows(start, userIds[..i + 1], policyId, now)
         == FanOutRows(start, userIds[..i], policyId, now)
            + [Ack(start + i, userIds[i], policyId, NotAcknowledged, 1, Manual, false,
                   now + AcknowledgementService.WindowDays, now, None, false, None)]
  {
  }

  /** The fan-out reaches exactly the recipients, one request each. */
  lemma {:induction false} FanOutOnePerRecipient(users: seq<User>, companyId: int, teams: seq<string>, start: int, policyId: int, now: int)
    requires UserIdsOk(users)
    ensures forall u :: u in users ==>
      (IsRecipient(u, companyId, teams) <==>
       exists i :: 0 <= i < |Recipients(users, companyId, teams)|
         && FanOutRows(start, Recipients(users, companyId, teams), policyId, now)[i].userId == u.id)
    ensures forall i, j :: 0 <= i < j < |Recipients(users, companyId, teams)| ==>
      FanOutRows(start, Recipients(users, companyId, teams), policyId, now)[i].userId
      != FanOutRows(start, Recipients(users, companyId, teams), policyId, now)[j].userId
  {
    var ids := Recipients(users, companyId, teams);
    var rows := FanOutRows(start, ids, policyId, now);
    RecipientsIncreasing(users, companyId, teams);
    forall u | u in users
      ensures IsRecipient(u, companyId, teams) <==> exists i :: 0 <= i < |ids| && rows[i].userId == u.id
    {
      if IsRecipient(u, companyId, teams) {
        assert u.id in ids;
        var i :| 0 <= i < |ids| && ids[i] == u.id;
        assert rows[i].userId == u.id;
      }
      if exists i :: 0 <= i < |ids| && rows[i].userId == u.id {
        var i :| 0 <= i < |ids| && rows[i].userId == u.id;
        assert ids[i] in ids;
        var v :| v in users && v.id == u.id && IsRecipient(v, companyId, teams);
        var a :| 0 <= a < |users| && users[a] == u;
        var b :| 0 <= b < |users| && users[b] == v;
        assert a == b;
      }
    }
    assert rows == FanOutRows(start, Recipients(users, companyId, teams), policyId, now);
  }

  ghost predicate PolicyRowsSameIds(a: seq<Policy>, b: seq<Policy>) {
    |a| == |b| && forall i :: 0 <= i < |a| ==> a[i].id == b[i].id
  }

  lemma ValidWithPolicies(st: DbState, ps: seq<Policy>)
    requires ValidState(st) && PolicyRowsSameIds(st.policies, ps)
    ensures ValidState(st.(policies := ps))
  {
  }

  /** Records the approval of policy `id`.  When accepted, the other active
      versions of the policy are deactivated and one manual acknowledgement
      request is inserted per employee on the policy's mapped teams. */
  method ApprovePolicy(db: Store, id: int, approvedBy: string, status: ApprovalStatus, now: int)
    returns (r: Result<Policy, Error>)
    requires db.Valid()
    modifies db
    ensures db.Valid()
    ensures r.Err? <==> PolicyIndex(old(db.policies), id).None?
    ensures r.Err? ==> r.error == NotFound && unchanged(db)
    ensures r.Ok? ==>
      var k := PolicyIndex(old(db.policies), id).value;
      && r.value == Approved(old(db.policies)[k], approvedBy, status, now)
      && db.policies == ApprovalTable(old(db.policies), k, approvedBy, status, now)
    ensures r.Ok? && status == Declined ==> db.State() == old(db.State()).(policies := db.policies)
    ensures r.Ok? && status == Accepted ==>
      var userIds := Recipients(old(db.users), r.value.companyId, MappedTeams(old(db.mappings), id));
      db.State() == old(db.State()).(
        policies := db.policies,
        acks := old(db.acks) + FanOutRows(old(db.nextAckId), userIds, id, now),
        nextAckId := old(db.nextAckId) + |userIds|)
  {
    var found := PolicyIndex(db.policies, id);
    if found.None? {
      return Err(NotFound);
    }
    var k := found.value;
    var policy := Approved(db.policies[k], approvedBy, status, now);
    ValidWithPolicies(db.State(), ApprovalTable(db.policies, k, approvedBy, status, now));
    db.policies := ApprovalTable(db.policies, k, approvedBy, status, now);
    r := Ok(policy);
    if status == Declined {
      return;
    }
    var userIds := Recipients(db.users, policy.companyId, MappedTeams(db.mappings, policy.id));
    RecipientsAreUsers(db.users, policy.companyId, MappedTeams(db.mappings, policy.id));
    assert db.policies[k].id == id;
    FanOut(db, userIds, id, now);
  }

  /** Requests an acknowledgement of `policyId` from each of `userIds`, in order. */
  method FanOut(db: Store, userIds: seq<int>, policyId: int, now: int)
    requires db.Valid()
    requires forall i :: 0 <= i < |userIds| ==> 0 < userIds[i] && UserIndex(db.users, userIds[i]).Some?
    requires 0 < policyId && PolicyIndex(db.policies, policyId).Some?
    modifies db
    ensures db.Valid()
    ensures db.State() == old(db.State()).(
      acks := old(db.acks) + FanOutRows(old(db.nextAckId), userIds, policyId, now),
      nextAckId := old(db.nextAckId) + |userIds|)
  {
    var i := 0;
    while i < |userIds|
      invariant 0 <= i <= |userIds|
      invariant db.Valid()
      invariant db.users == old(db.users) && db.policies == old(db.policies)
      invariant db.State() == old(db.State()).(
        acks := old(db.acks) + FanOutRows(old(db.nextAckId), userIds[..i], policyId, now),
        nextAckId := old(db.nextAckId) + i)
    {
      var a := AcknowledgementService.RequestAcknowledgements(db, userIds[i], policyId, Manual, false, now);
      FanOutRowsSnoc(old(db.nextAckId), userIds, i, policyId, now);
      i := i + 1;
    }
    assert userIds[..i] == userIds;
  }
}
