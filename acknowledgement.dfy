/**
 * The acknowledgement tracker (src/services/acknowledgement.ts): requests,
 * pending and overdue queries grouped by template, single and bulk
 * acknowledgement.  Time is counted in whole days; `now` is a parameter.
 */
module AcknowledgementService {
  import opened Wrappers
  import opened Types
  import opened Tables

  /** The response window, in days. */
  const WindowDays := 30

  // ------------------------------------------------------------------ requests

  /** Inserts a request row for `userId` and `policyId`.  A zero id is a
      missing one; an id without a row is refused by the store. */
  method RequestAcknowledgements(
    db: Store, userId: int, policyId: int, ackType: AckType, isWithin30Days: bool, now: int)
    returns (r: Result<Ack, Error>)
    requires db.Valid()
    modifies db
    ensures db.Valid()
    ensures userId == 0 || policyId == 0 ==> r == Err(BadRequest)
    ensures r.Ok? <==>
      userId != 0 && policyId != 0
      && UserIndex(old(db.users), userId).Some? && PolicyIndex(old(db.policies), policyId).Some?
    ensures r.Err? ==> unchanged(db)
    ensures r.Ok? ==>
      && r.value.id == old(db.nextAckId)
      && r.value.userId == userId && r.value.policyId == policyId
      && r.value.status == NotAcknowledged && r.value.version == 1
      && r.value.ackType == ackType && r.value.isWithin30Days == isWithin30Days
      && r.value.requestDate == now && r.value.dueDate == now + WindowDays
      && r.value.acknowledgedAt.None? && !r.value.isEscalated && r.value.triggeredBy.None?
    ensures r.Ok? ==>
      db.State() == old(db.State()).(acks := old(db.acks) + [r.value], nextAckId := old(db.nextAckId) + 1)
  {
    if userId == 0 || policyId == 0 {
      return Err(BadRequest);
    }
    if UserIndex(db.users, userId).None? || PolicyIndex(db.policies, policyId).None? {
      return Err(Persistence);
    }
    var row := Ack(db.nextAckId, userId, policyId, NotAcknowledged, 1, ackType,
                   isWithin30Days, now + WindowDays, now, None, false, None);
    db.acks := db.acks + [row];
    db.nextAckId := db.nextAckId + 1;
    r := Ok(row);
  }

  // ---------------------------------------------------------- pending, overdue

  /** An unacknowledged row, narrowed to an employee and a policy when those are non-zero. */
  predicate IsPending(a: Ack, employeeId: int, policyId: int) {
    && a.acknowledgedAt.None?
    && (employeeId != 0 ==> a.userId == employeeId)
    && (policyId != 0 ==> a.policyId == policyId)
  }

  function PendingRows(rows: seq<Ack>, employeeId: int, policyId: int): (r: seq<Ack>)
    ensures forall a :: a in r <==>
      a in rows && a.acknowledgedAt.None?
      && (employeeId != 0 ==> a.userId == employeeId)
      && (policyId != 0 ==> a.policyId == policyId)
  {
    Filter(rows, (a: Ack) => IsPending(a, employeeId, policyId))
  }

  /** The request was made no more than `WindowDays` days before `now`. */
  predicate WithinWindow(requestDate: int, now: int) {
    requestDate >= now - WindowDays
  }

  predicate IsOverdue(a: Ack, now: int) {
    a.acknowledgedAt.None? && a.status == NotAcknowledged && a.requestDate < now - WindowDays
  }

  function OverdueRows(rows: seq<Ack>, now: int): (r: seq<Ack>)
    ensures forall a :: a in r <==>
      a in rows && a.acknowledgedAt.None? && a.status == NotAcknowledged
      && a.requestDate < now - WindowDays
  {
    Filter(rows, (a: Ack) => IsOverdue(a, now))
  }

  /** For one `now`, an open row is overdue exactly when it is outside the
      window that bulk acknowledgement grants. */
  lemma OverdueIffOutsideWindow(a: Ack, now: int)
    requires a.acknowledgedAt.None? && a.status == NotAcknowledged
    ensures IsOverdue(a, now) <==> !WithinWindow(a.requestDate, now)
  {
  }

  // ------------------------------------------------------- grouping by template

  /** A template with the policies attached to it in a grouped answer. */
  datatype TemplateGroup = TemplateGroup(template: Template, policies: seq<Policy>)

  /** The policy of an acknowledgement row and that policy's template. */
  datatype Placement = Placement(template: Template, policy: Policy)

  /** Where a row goes in a grouped answer: nowhere when its policy has no template. */
  function Place(a: Ack, ps: seq<Policy>, ts: seq<Template>): Option<Placement> {
    match PolicyIndex(ps, a.policyId)
    case None => None
    case Some(k) =>
      if ps[k].templateId.None? then None
      else match TemplateIndex(ts, ps[k].templateId.value)
        case None => None
        case Some(t) => Some(Placement(ts[t], ps[k]))
  }

  /** A row is placed under its policy's template, when both rows exist and
      the policy names a template; otherwise it is left out. */
  lemma PlaceFacts(a: Ack, ps: seq<Policy>, ts: seq<Template>)
    ensures Place(a, ps, ts).Some? ==>
      var pl := Place(a, ps, ts).value;
      && pl.policy in ps && pl.policy.id == a.policyId
      && pl.template in ts && pl.policy.templateId == Some(pl.template.id)
    ensures Place(a, ps, ts).None? <==>
      || PolicyIndex(ps, a.policyId).None?
      || ps[PolicyIndex(ps, a.policyId).value].templateId.None?
      || TemplateIndex(ts, ps[PolicyIndex(ps, a.policyId).value].templateId.value).None?
  {
  }

  function GroupIndex(gs: seq<TemplateGroup>, templateId: int): (r: Option<nat>)
    ensures r.Some? ==> r.value < |gs| && gs[r.value].template.id == templateId
    ensures r.None? <==> forall i :: 0 <= i < |gs| ==> gs[i].template.id != templateId
  {
    if gs == [] then None
    else if gs[0].template.id == templateId then Some(0)
    else match GroupIndex(gs[1..], templateId)
      case None => None
      case Some(k) => Some(k + 1)
  }

  function AddToGroups(gs: seq<TemplateGroup>, o: Option<Placement>): seq<TemplateGroup> {
    match o
    case None => gs
    case Some(pl) =>
      match GroupIndex(gs, pl.template.id)
      case Some(g) => gs[g := gs[g].(policies := gs[g].policies + [pl.policy])]
      case None => gs + [TemplateGroup(pl.template, [pl.policy])]
  }

  /** The grouped answer for `rows`, built row by row as an insertion-ordered map. */
  function Grouped(rows: seq<Ack>, ps: seq<Policy>, ts: seq<Template>): seq<TemplateGroup>
    decreases |rows|
  {
    if rows == [] then []
    else AddToGroups(Grouped(rows[..|rows| - 1], ps, ts), Place(rows[|rows| - 1], ps, ts))
  }

  method GroupByTemplate(rows: seq<Ack>, ps: seq<Policy>, ts: seq<Template>)
    returns (groups: seq<TemplateGroup>)
    ensures groups == Grouped(rows, ps, ts)
  {
    groups := [];
    var i := 0;
    while i < |rows|
      invariant 0 <= i <= |rows|
      invariant groups == Grouped(rows[..i], ps, ts)
    {
      assert rows[..i + 1][..i] == rows[..i];
      match Place(rows[i], ps, ts) {
        case None =>
        case Some(pl) =>
          var g := GroupIndex(groups, pl.template.id);
          if g.Some? {
            groups := groups[g.value := groups[g.value].(policies := groups[g.value].policies + [pl.policy])];
          } else {
            groups := groups + [TemplateGroup(pl.template, [pl.policy])];
          }
      }
      i := i + 1;
    }
    assert rows[..|rows|] == rows;
  }

  method GetPendingAcknowledgements(db: Store, employeeId: int, policyId: int)
    returns (groups: seq<TemplateGroup>)
    ensures groups == Grouped(PendingRows(db.acks, employeeId, policyId), db.policies, db.templates)
  {
    groups := GroupByTemplate(PendingRows(db.acks, employeeId, policyId), db.policies, db.templates);
  }

  method GetOverdueAcknowledgements(db: Store, now: int) returns (groups: seq<TemplateGroup>)
    ensures groups == Grouped(OverdueRows(db.acks, now), db.policies, db.templates)
  {
    groups := GroupByTemplate(OverdueRows(db.acks, now), db.policies, db.templates);
  }

  // ------------------------------------------------- what a grouped answer is

  /** The template ids of the placed rows, in row order (with repeats). */
  function PlacedTemplateIds(rows: seq<Ack>, ps: seq<Policy>, ts: seq<Template>): seq<int>
    decreases |rows|
  {
    if rows == [] then []
    else
      PlacedTemplateIds(rows[..|rows| - 1], ps, ts)
      + match Place(rows[|rows| - 1], ps, ts)
        case None => []
        case Some(pl) => [pl.template.id]
  }

  /** The policies of the rows placed under template `tid`, in row order. */
  function PoliciesUnder(rows: seq<Ack>, ps: seq<Policy>, ts: seq<Template>, tid: int): seq<Policy>
    decreases |rows|
  {
    if rows == [] then []
    else
      PoliciesUnder(rows[..|rows| - 1], ps, ts, tid)
      + match Place(rows[|rows| - 1], ps, ts)
        case Some(pl) => if pl.template.id == tid then [pl.policy] else []
        case None => []
  }

  /** `s` without repeats, each element at its first occurrence. */
  function FirstOccurrences(s: seq<int>): seq<int>
    decreases |s|
  {
    if s == [] then []
    else
      var d := FirstOccurrences(s[..|s| - 1]);
      if s[|s| - 1] in d then d else d + [s[|s| - 1]]
  }

  ghost predicate Distinct(s: seq<int>) {
    forall i, j :: 0 <= i < j < |s| ==> s[i] != s[j]
  }

  function GroupIds(gs: seq<TemplateGroup>): (r: seq<int>)
    ensures |r| == |gs| && forall i :: 0 <= i < |gs| ==> r[i] == gs[i].template.id
  {
    if gs == [] then [] else [gs[0].template.id] + GroupIds(gs[1..])
  }

  lemma {:induction false} FirstOccurrencesFacts(s: seq<int>)
    ensures forall x :: x in FirstOccurrences(s) <==> x in s
    ensures Distinct(FirstOccurrences(s))
  {
    if s != [] {
      FirstOccurrencesFacts(s[..|s| - 1]);
      assert s == s[..|s| - 1] + [s[|s| - 1]];
    }
  }

  lemma {:induction false} PoliciesUnderUnplaced(rows: seq<Ack>, ps: seq<Policy>, ts: seq<Template>, tid: int)
    requires tid !in PlacedTemplateIds(rows, ps, ts)
    ensures PoliciesUnder(rows, ps, ts, tid) == []
    decreases |rows|
  {
    if rows != [] {
      PoliciesUnderUnplaced(rows[..|rows| - 1], ps, ts, tid);
    }
  }

  /** The three facts that make `Grouped(rows, ps, ts)` a group-by of the placed rows. */
  ghost predicate IsGroupBy(rows: seq<Ack>, ps: seq<Policy>, ts: seq<Template>) {
    && GroupIds(Grouped(rows, ps, ts)) == FirstOccurrences(PlacedTemplateIds(rows, ps, ts))
    && Distinct(GroupIds(Grouped(rows, ps, ts)))
    && forall g :: 0 <= g < |Grouped(rows, ps, ts)| ==>
         Grouped(rows, ps, ts)[g].policies == PoliciesUnder(rows, ps, ts, Grouped(rows, ps, ts)[g].template.id)
  }

  /** A row with no placement leaves a group-by as it was. */
  lemma {:induction false} GroupedStepSkipped(rows: seq<Ack>, ps: seq<Policy>, ts: seq<Template>)
    requires rows != [] && Place(rows[|rows| - 1], ps, ts).None?
    requires IsGroupBy(rows[..|rows| - 1], ps, ts)
    ensures IsGroupBy(rows, ps, ts)
  {
    var pre := rows[..|rows| - 1];
    assert PlacedTemplateIds(rows, ps, ts) == PlacedTemplateIds(pre, ps, ts);
    forall tid | true
      ensures PoliciesUnder(rows, ps, ts, tid) == PoliciesUnder(pre, ps, ts, tid)
    {
    }
  }

  /** The last row adds its policy to the list of its own template only. */
  lemma PoliciesUnderLast(rows: seq<Ack>, ps: seq<Policy>, ts: seq<Template>, tid: int)
    requires rows != [] && Place(rows[|rows| - 1], ps, ts).Some?
    ensures PoliciesUnder(rows, ps, ts, tid) ==
      PoliciesUnder(rows[..|rows| - 1], ps, ts, tid)
      + if Place(rows[|rows| - 1], ps, ts).value.template.id == tid
        then [Place(rows[|rows| - 1], ps, ts).value.policy] else []
  {
  }

  /** The template ids of the placed rows grow by the last row's template. */
  lemma PlacedTemplateIdsLast(rows: seq<Ack>, ps: seq<Policy>, ts: seq<Template>)
    requires rows != [] && Place(rows[|rows| - 1], ps, ts).Some?
    ensures PlacedTemplateIds(rows, ps, ts)
      == PlacedTemplateIds(rows[..|rows| - 1], ps, ts) + [Place(rows[|rows| - 1], ps, ts).value.template.id]
  {
  }

  /** Appending a value keeps the first occurrences, and adds the value when it is new. */
  lemma FirstOccurrencesSnoc(s: seq<int>, x: int)
    ensures FirstOccurrences(s + [x])
      == if x in FirstOccurrences(s) then FirstOccurrences(s) else FirstOccurrences(s) + [x]
  {
    assert (s + [x])[..|s|] == s;
  }

  lemma GroupIdsSnoc(gs: seq<TemplateGroup>, grp: TemplateGroup)
    ensures GroupIds(gs + [grp]) == GroupIds(gs) + [grp.template.id]
  {
  }

  /** A placed row whose template already has a group joins that group. */
  lemma {:induction false} GroupedStepJoined(rows: seq<Ack>, ps: seq<Policy>, ts: seq<Template>)
    requires rows != [] && Place(rows[|rows| - 1], ps, ts).Some?
    requires GroupIndex(Grouped(rows[..|rows| - 1], ps, ts), Place(rows[|rows| - 1], ps, ts).value.template.id).Some?
    requires IsGroupBy(rows[..|rows| - 1], ps, ts)
    ensures IsGroupBy(rows, ps, ts)
  {
    var pre := rows[..|rows| - 1];
    var gs := Grouped(pre, ps, ts);
    var pl := Place(rows[|rows| - 1], ps, ts).value;
    var tid := pl.template.id;
    var g0 := GroupIndex(gs, tid).value;
    var gs' := Grouped(rows, ps, ts);
    assert gs' == gs[g0 := gs[g0].(policies := gs[g0].policies + [pl.policy])];
    assert GroupIds(gs') == GroupIds(gs);
    PlacedTemplateIdsLast(rows, ps, ts);
    assert GroupIds(gs)[g0] == tid;
    FirstOccurrencesSnoc(PlacedTemplateIds(pre, ps, ts), tid);
    forall g | 0 <= g < |gs'|
      ensures gs'[g].policies == PoliciesUnder(rows, ps, ts, gs'[g].template.id)
    {
      PoliciesUnderLast(rows, ps, ts, gs'[g].template.id);
      if g != g0 {
        assert GroupIds(gs)[g] != GroupIds(gs)[g0];
      }
    }
  }

  /** A placed row whose template has no group yet opens one at the end:
      the group ids grow by its template ... */
  lemma {:induction false} OpenedGroupIds(rows: seq<Ack>, ps: seq<Policy>, ts: seq<Template>)
    requires rows != [] && Place(rows[|rows| - 1], ps, ts).Some?
    requires GroupIndex(Grouped(rows[..|rows| - 1], ps, ts), Place(rows[|rows| - 1], ps, ts).value.template.id).None?
    requires IsGroupBy(rows[..|rows| - 1], ps, ts)
    ensures GroupIds(Grouped(rows, ps, ts)) == FirstOccurrences(PlacedTemplateIds(rows, ps, ts))
    ensures Distinct(GroupIds(Grouped(rows, ps, ts)))
  {
    var pre := rows[..|rows| - 1];
    var gs := Grouped(pre, ps, ts);
    var pl := Place(rows[|rows| - 1], ps, ts).value;
    var tid := pl.template.id;
    assert Grouped(rows, ps, ts) == gs + [TemplateGroup(pl.template, [pl.policy])];
    assert tid !in GroupIds(gs);
    GroupIdsSnoc(gs, TemplateGroup(pl.template, [pl.policy]));
    PlacedTemplateIdsLast(rows, ps, ts);
    FirstOccurrencesSnoc(PlacedTemplateIds(pre, ps, ts), tid);
  }

  /** ... and the new group lists the row's policy alone, while the other
      groups keep theirs. */
  lemma {:induction false} OpenedGroupPolicies(rows: seq<Ack>, ps: seq<Policy>, ts: seq<Template>)
    requires rows != [] && Place(rows[|rows| - 1], ps, ts).Some?
    requires GroupIndex(Grouped(rows[..|rows| - 1], ps, ts), Place(rows[|rows| - 1], ps, ts).value.template.id).None?
    requires IsGroupBy(rows[..|rows| - 1], ps, ts)
    ensures forall g :: 0 <= g < |Grouped(rows, ps, ts)| ==>
      Grouped(rows, ps, ts)[g].policies == PoliciesUnder(rows, ps, ts, Grouped(rows, ps, ts)[g].template.id)
  {
    var pre := rows[..|rows| - 1];
    var gs := Grouped(pre, ps, ts);
    var pl := Place(rows[|rows| - 1], ps, ts).value;
    var tid := pl.template.id;
    assert Grouped(rows, ps, ts) == gs + [TemplateGroup(pl.template, [pl.policy])];
    var gs' := Grouped(rows, ps, ts);
    assert tid !in GroupIds(gs);
    FirstOccurrencesFacts(PlacedTemplateIds(pre, ps, ts));
    PoliciesUnderUnplaced(pre, ps, ts, tid);
    forall g | 0 <= g < |gs'|
      ensures gs'[g].policies == PoliciesUnder(rows, ps, ts, gs'[g].template.id)
    {
      PoliciesUnderLast(rows, ps, ts, gs'[g].template.id);
      if g < |gs| {
        assert GroupIds(gs)[g] != tid;
      }
    }
  }

  /** A grouped answer has one entry per template that some row is placed
      under, in order of first appearance, and each entry lists exactly the
      policies of the rows placed under it, in row order.  Rows whose policy
      has no template contribute nothing. */
  lemma {:induction false} GroupedIsGroupBy(rows: seq<Ack>, ps: seq<Policy>, ts: seq<Template>)
    ensures GroupIds(Grouped(rows, ps, ts)) == FirstOccurrences(PlacedTemplateIds(rows, ps, ts))
    ensures Distinct(GroupIds(Grouped(rows, ps, ts)))
    ensures forall g :: 0 <= g < |Grouped(rows, ps, ts)| ==>
      Grouped(rows, ps, ts)[g].policies == PoliciesUnder(rows, ps, ts, Grouped(rows, ps, ts)[g].template.id)
    decreases |rows|
  {
    if rows == [] {
      assert IsGroupBy(rows, ps, ts);
    } else {
      GroupedIsGroupBy(rows[..|rows| - 1], ps, ts);
      if Place(rows[|rows| - 1], ps, ts).None? {
        GroupedStepSkipped(rows, ps, ts);
      } else if GroupIndex(Grouped(rows[..|rows| - 1], ps, ts), Place(rows[|rows| - 1], ps, ts).value.template.id).Some? {
        GroupedStepJoined(rows, ps, ts);
      } else {
        OpenedGroupIds(rows, ps, ts);
        OpenedGroupPolicies(rows, ps, ts);
      }
    }
  }

  // ------------------------------------------------------- single acknowledge

  /** Stamps row `id` as acknowledged at `now` and re-targets it to the given
      employee and policy; its status is left as it was. */
  method AcknowledgePolicy(db: Store, id: int, employeeId: int, policyId: int, now: int)
    returns (r: Result<Ack, Error>)
    requires db.Valid()
    modifies db
    ensures db.Valid()
    ensures AckIndex(old(db.acks), id).None? ==> r == Err(NotFound)
    ensures AckIndex(old(db.acks), id).Some?
            && (UserIndex(old(db.users), employeeId).None? || PolicyIndex(old(db.policies), policyId).None?)
            ==> r == Err(Persistence)
    ensures r.Ok? <==>
      && AckIndex(old(db.acks), id).Some?
      && UserIndex(old(db.users), employeeId).Some?
      && PolicyIndex(old(db.policies), policyId).Some?
    ensures r.Err? ==> unchanged(db)
    ensures r.Ok? ==>
      && AckIndex(old(db.acks), id).Some?
      && var k := AckIndex(old(db.acks), id).value;
      && r.value.acknowledgedAt == Some(now)
      && r.value.userId == employeeId && r.value.policyId == policyId
      && r.value == old(db.acks)[k].(acknowledgedAt := Some(now), userId := employeeId, policyId := policyId)
      && r.value.status == old(db.acks)[k].status
      && db.State() == old(db.State()).(acks := old(db.acks)[k := r.value])
  {
    var k := AckIndex(db.acks, id);
    if k.None? {
      return Err(NotFound);
    }
    if UserIndex(db.users, employeeId).None? || PolicyIndex(db.policies, policyId).None? {
      return Err(Persistence);
    }
    var row := db.acks[k.value].(acknowledgedAt := Some(now), userId := employeeId, policyId := policyId);
    db.acks := db.acks[k.value := row];
    r := Ok(row);
  }

  function GetAcknowledgementById(rows: seq<Ack>, id: int): (r: Option<Ack>)
    ensures r.Some? ==> r.value in rows && r.value.id == id
    ensures r.None? <==> forall a :: a in rows ==> a.id != id
  {
    match AckIndex(rows, id)
    case None => None
    case Some(k) => Some(rows[k])
  }

  // --------------------------------------------------------- bulk acknowledge

  /** The rows bulk acknowledgement selects. */
  predicate Matches(a: Ack, employeeId: int, policyIds: seq<int>) {
    a.userId == employeeId && a.policyId in policyIds
    && a.acknowledgedAt.None? && a.status == NotAcknowledged
  }

  function Matching(rows: seq<Ack>, employeeId: int, policyIds: seq<int>): (r: seq<Ack>)
    ensures forall a :: a in r <==>
      a in rows && a.userId == employeeId && a.policyId in policyIds
      && a.acknowledgedAt.None? && a.status == NotAcknowledged
  {
    Filter(rows, (a: Ack) => Matches(a, employeeId, policyIds))
  }

  /** The window flag computed for one selected row, keyed by its policy. */
  datatype WindowUpdate = WindowUpdate(policyId: int, within: bool)

  function WindowUpdates(matched: seq<Ack>, now: int): (r: seq<WindowUpdate>)
    ensures |r| == |matched|
    ensures forall i :: 0 <= i < |r| ==>
      r[i].policyId == matched[i].policyId && (r[i].within <==> matched[i].requestDate >= now - WindowDays)
  {
    seq(|matched|, i requires 0 <= i < |matched| =>
      WindowUpdate(matched[i].policyId, WithinWindow(matched[i].requestDate, now)))
  }

  /** The first pass: every selected row is stamped, with a placeholder flag. */
  function MarkAcknowledged(rows: seq<Ack>, employeeId: int, policyIds: seq<int>, now: int): (r: seq<Ack>)
    ensures |r| == |rows| && forall i :: 0 <= i < |rows| ==> r[i].id == rows[i].id
    ensures forall i :: 0 <= i < |rows| ==>
      if Matches(rows[i], employeeId, policyIds)
      then r[i].acknowledgedAt == Some(now) && r[i].status == Acknowledged && r[i].userId == rows[i].userId
           && r[i].policyId == rows[i].policyId && r[i].requestDate == rows[i].requestDate
      else r[i] == rows[i]
  {
    seq(|rows|, i requires 0 <= i < |rows| =>
      if Matches(rows[i], employeeId, policyIds)
      then rows[i].(acknowledgedAt := Some(now), status := Acknowledged, isWithin30Days := true)
      else rows[i])
  }

  /** One step of the second pass: every acknowledged row of the employee
      and the policy gets the computed flag. */
  function SetWindowFlag(rows: seq<Ack>, employeeId: int, u: WindowUpdate): (r: seq<Ack>)
    ensures |r| == |rows| && forall i :: 0 <= i < |rows| ==> r[i].id == rows[i].id
    ensures forall i :: 0 <= i < |rows| ==>
      r[i] == rows[i].(isWithin30Days := r[i].isWithin30Days)
      && (rows[i].userId == employeeId && rows[i].policyId == u.policyId && rows[i].acknowledgedAt.Some?
          ==> r[i].isWithin30Days == u.within)
      && (rows[i].userId != employeeId || rows[i].policyId != u.policyId || rows[i].acknowledgedAt.None?
          ==> r[i] == rows[i])
  {
    seq(|rows|, i requires 0 <= i < |rows| =>
      if rows[i].userId == employeeId && rows[i].policyId == u.policyId && rows[i].acknowledgedAt.Some?
      then rows[i].(isWithin30Days := u.within)
      else rows[i])
  }

  function ApplyWindowUpdates(rows: seq<Ack>, employeeId: int, us: seq<WindowUpdate>): seq<Ack>
    decreases |us|
  {
    if us == [] then rows
    else SetWindowFlag(ApplyWindowUpdates(rows, employeeId, us[..|us| - 1]), employeeId, us[|us| - 1])
  }

  /** The acknowledgement table after a successful bulk acknowledgement. */
  function AcknowledgedTable(rows: seq<Ack>, employeeId: int, policyIds: seq<int>, now: int): seq<Ack> {
    ApplyWindowUpdates(
      MarkAcknowledged(rows, employeeId, policyIds, now),
      employeeId,
      WindowUpdates(Matching(rows, employeeId, policyIds), now))
  }

  lemma SameIdsKeepAckIdsOk(rows: seq<Ack>, rows': seq<Ack>, next: int)
    requires AckIdsOk(rows, next)
    requires |rows'| == |rows| && forall i :: 0 <= i < |rows| ==> rows'[i].id == rows[i].id
    ensures AckIdsOk(rows', next)
  {
  }

  /** The second pass: one update of the window flag per computed value, in order. */
  method SetWindowFlags(db: Store, employeeId: int, updates: seq<WindowUpdate>)
    requires AckIdsOk(db.acks, db.nextAckId)
    modifies db`acks
    ensures db.acks == ApplyWindowUpdates(old(db.acks), employeeId, updates)
    ensures AckIdsOk(db.acks, db.nextAckId)
  {
    ghost var marked := db.acks;
    var i := 0;
    while i < |updates|
      invariant 0 <= i <= |updates|
      invariant db.acks == ApplyWindowUpdates(marked, employeeId, updates[..i])
      invariant AckIdsOk(db.acks, db.nextAckId)
    {
      assert updates[..i + 1][..i] == updates[..i];
      ghost var prev := db.acks;
      db.acks := SetWindowFlag(db.acks, employeeId, updates[i]);
      SameIdsKeepAckIdsOk(prev, db.acks, db.nextAckId);
      i := i + 1;
    }
    assert updates[..|updates|] == updates;
  }

  method AcknowledgePolicies(db: Store, employeeId: int, policyIds: seq<int>, now: int)
    returns (r: Result<nat, Error>)
    requires db.Valid()
    modifies db
    ensures db.Valid()
    ensures employeeId == 0 || policyIds == [] ==> r == Err(BadRequest)
    ensures employeeId != 0 && policyIds != [] && Matching(old(db.acks), employeeId, policyIds) == []
            ==> r == Err(NotFound)
    ensures r.Ok? <==> employeeId != 0 && policyIds != [] && Matching(old(db.acks), employeeId, policyIds) != []
    ensures r.Err? ==> unchanged(db)
    ensures r.Ok? ==> r.value == |Matching(old(db.acks), employeeId, policyIds)| > 0
    ensures r.Ok? ==>
      db.State() == old(db.State()).(acks := AcknowledgedTable(old(db.acks), employeeId, policyIds, now))
  {
    if employeeId == 0 || |policyIds| == 0 {
      return Err(BadRequest);
    }
    var matched := Matching(db.acks, employeeId, policyIds);
    if |matched| == 0 {
      return Err(NotFound);
    }
    var updates := WindowUpdates(matched, now);
    ghost var before := db.acks;
    db.acks := MarkAcknowledged(db.acks, employeeId, policyIds, now);
    SameIdsKeepAckIdsOk(before, db.acks, db.nextAckId);
    SetWindowFlags(db, employeeId, updates);
    assert db.acks == AcknowledgedTable(before, employeeId, policyIds, now);
    assert db.State() == old(db.State()).(acks := db.acks);
    ValidWithAcks(old(db.State()), db.acks);
    r := Ok(|matched|);
  }

  // ---------------------------------------------- what bulk acknowledgement does

  /** The flag the second pass leaves for `policyId`: the last one computed for it. */
  function LastWindowValue(us: seq<WindowUpdate>, policyId: int): Option<bool>
    decreases |us|
  {
    if us == [] then None
    else if us[|us| - 1].policyId == policyId then Some(us[|us| - 1].within)
    else LastWindowValue(us[..|us| - 1], policyId)
  }

  lemma {:induction false} LastWindowValueDefined(us: seq<WindowUpdate>, policyId: int)
    ensures LastWindowValue(us, policyId).Some? <==> exists j :: 0 <= j < |us| && us[j].policyId == policyId
    decreases |us|
  {
    if us != [] {
      var pre := us[..|us| - 1];
      LastWindowValueDefined(pre, policyId);
      assert forall j :: 0 <= j < |pre| ==> pre[j] == us[j];
    }
  }

  /** The second pass changes nothing but the window flag, and leaves on
      every acknowledged row of the employee the last flag computed for the
      row's policy, whether or not this call acknowledged that row. */
  lemma {:induction false} ApplyWindowUpdatesEffect(rows: seq<Ack>, employeeId: int, us: seq<WindowUpdate>)
    ensures |ApplyWindowUpdates(rows, employeeId, us)| == |rows|
    ensures forall i :: 0 <= i < |rows| ==>
      ApplyWindowUpdates(rows, employeeId, us)[i]
        == rows[i].(isWithin30Days := ApplyWindowUpdates(rows, employeeId, us)[i].isWithin30Days)
    ensures forall i :: 0 <= i < |rows| ==>
      ApplyWindowUpdates(rows, employeeId, us)[i].isWithin30Days ==
        if rows[i].userId == employeeId && rows[i].acknowledgedAt.Some?
           && LastWindowValue(us, rows[i].policyId).Some?
        then LastWindowValue(us, rows[i].policyId).value
        else rows[i].isWithin30Days
    decreases |us|
  {
    if us != [] {
      ApplyWindowUpdatesEffect(rows, employeeId, us[..|us| - 1]);
    }
  }

  /** Bulk acknowledgement stamps exactly the selected rows (acknowledged at
      `now`, status acknowledged), changes no other row's status or
      acknowledgement time, changes no field but those three, and sets the
      window flag as the second pass computes it. */
  lemma AcknowledgedTableEffect(rows: seq<Ack>, employeeId: int, policyIds: seq<int>, now: int)
    ensures |AcknowledgedTable(rows, employeeId, policyIds, now)| == |rows|
    ensures forall i :: 0 <= i < |rows| && Matches(rows[i], employeeId, policyIds) ==>
      && AcknowledgedTable(rows, employeeId, policyIds, now)[i].status == Acknowledged
      && AcknowledgedTable(rows, employeeId, policyIds, now)[i].acknowledgedAt == Some(now)
    ensures forall i :: 0 <= i < |rows| && !Matches(rows[i], employeeId, policyIds) ==>
      && AcknowledgedTable(rows, employeeId, policyIds, now)[i].status == rows[i].status
      && AcknowledgedTable(rows, employeeId, policyIds, now)[i].acknowledgedAt == rows[i].acknowledgedAt
    ensures forall i :: 0 <= i < |rows| ==>
      var t := AcknowledgedTable(rows, employeeId, policyIds, now)[i];
      t == rows[i].(status := t.status, acknowledgedAt := t.acknowledgedAt, isWithin30Days := t.isWithin30Days)
    ensures forall i :: 0 <= i < |rows| ==>
      var t := AcknowledgedTable(rows, employeeId, policyIds, now)[i];
      var last := LastWindowValue(WindowUpdates(Matching(rows, employeeId, policyIds), now), rows[i].policyId);
      t.isWithin30Days ==
        if rows[i].userId == employeeId && t.acknowledgedAt.Some? && last.Some?
        then last.value
        else rows[i].isWithin30Days
  {
    var marked := MarkAcknowledged(rows, employeeId, policyIds, now);
    var matched := Matching(rows, employeeId, policyIds);
    var us := WindowUpdates(matched, now);
    ApplyWindowUpdatesEffect(marked, employeeId, us);
    forall i | 0 <= i < |rows| && Matches(rows[i], employeeId, policyIds)
      ensures LastWindowValue(us, rows[i].policyId).Some?
    {
      assert rows[i] in matched;
      var j :| 0 <= j < |matched| && matched[j] == rows[i];
      assert us[j].policyId == rows[i].policyId;
      LastWindowValueDefined(us, rows[i].policyId);
    }
  }

  /** Submitting the same bulk acknowledgement again selects nothing, so it
      fails with NotFound and changes nothing. */
  lemma ResubmissionSelectsNothing(rows: seq<Ack>, employeeId: int, policyIds: seq<int>, now: int)
    ensures Matching(AcknowledgedTable(rows, employeeId, policyIds, now), employeeId, policyIds) == []
  {
    var t := AcknowledgedTable(rows, employeeId, policyIds, now);
    AcknowledgedTableEffect(rows, employeeId, policyIds, now);
    forall i | 0 <= i < |t| ensures !Matches(t[i], employeeId, policyIds) {
      if !Matches(rows[i], employeeId, policyIds) {
        assert t[i].userId == rows[i].userId && t[i].policyId == rows[i].policyId;
      }
    }
    FilterEmpty(t, (a: Ack) => Matches(a, employeeId, policyIds));
  }
}
