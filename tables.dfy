/**
 * The persisted state the services work on: one row datatype per table of
 * the relational store, and the `Store` object that holds the tables, as the
 * single persistence handle every service receives.  Ids are allocated from
 * per-table counters, as the store's auto-increment keys are.
 */
module Tables {
  import opened Wrappers
  import opened Types

  /** The failures the services report. */
  datatype Error =
    | BadRequest    // missing or malformed input
    | NotFound      // no row with the given id
    | Unauthorized  // the acting user may not perform the operation
    | Persistence   // the store refused a write (a foreign key without a row)

  datatype Company = Company(id: int, name: string, domain: string)

  /** The role row a user points to: its name ("employee", "cto", ...) and team. */
  datatype Role = Role(name: string, team: string)

  datatype User = User(id: int, companyId: int, role: Role)

  datatype Template = Template(
    id: int,
    companyId: int,
    name: string,
    kind: string,
    version: int,
    defaultContent: string,
    isActive: bool,
    createdBy: string)

  datatype Policy = Policy(
    id: int,
    companyId: int,
    templateId: Option<int>,
    name: string,
    kind: string,
    content: string,
    version: int,
    isActive: bool,
    approvedBy: Option<string>,
    approvalDate: Option<int>)

  /** A team that must acknowledge a policy. */
  datatype RoleMapping = RoleMapping(id: int, policyId: int, name: string)

  datatype Ack = Ack(
    id: int,
    userId: int,
    policyId: int,
    status: AckStatus,
    version: int,
    ackType: AckType,
    isWithin30Days: bool,
    dueDate: int,
    requestDate: int,
    acknowledgedAt: Option<int>,
    isEscalated: bool,
    triggeredBy: Option<string>)

  // ------------------------------------------------------------ key discipline

  ghost predicate CompanyIdsOk(cs: seq<Company>) {
    && (forall i :: 0 <= i < |cs| ==> 0 < cs[i].id)
    && (forall i, j :: 0 <= i < j < |cs| ==> cs[i].id < cs[j].id)
  }

  ghost predicate UserIdsOk(us: seq<User>) {
    && (forall i :: 0 <= i < |us| ==> 0 < us[i].id)
    && (forall i, j :: 0 <= i < j < |us| ==> us[i].id < us[j].id)
  }

  ghost predicate TemplateIdsOk(ts: seq<Template>, next: int) {
    && 0 < next
    && (forall i :: 0 <= i < |ts| ==> 0 < ts[i].id < next)
    && (forall i, j :: 0 <= i < j < |ts| ==> ts[i].id < ts[j].id)
  }

  ghost predicate PolicyIdsOk(ps: seq<Policy>, next: int) {
    && 0 < next
    && (forall i :: 0 <= i < |ps| ==> 0 < ps[i].id < next)
    && (forall i, j :: 0 <= i < j < |ps| ==> ps[i].id < ps[j].id)
  }

  /** Mapping ids are increasing and every mapping points below the policy counter. */
  ghost predicate MappingIdsOk(ms: seq<RoleMapping>, next: int, nextPolicy: int) {
    && 0 < next
    && (forall i :: 0 <= i < |ms| ==> 0 < ms[i].id < next && 0 < ms[i].policyId < nextPolicy)
    && (forall i, j :: 0 <= i < j < |ms| ==> ms[i].id < ms[j].id)
  }

  ghost predicate AckIdsOk(rows: seq<Ack>, next: int) {
    && 0 < next
    && (forall i :: 0 <= i < |rows| ==> 0 < rows[i].id < next)
    && (forall i, j :: 0 <= i < j < |rows| ==> rows[i].id < rows[j].id)
  }

  // ------------------------------------------------------------------- lookups

  predicate HasCompany(cs: seq<Company>, id: int) {
    exists i :: 0 <= i < |cs| && cs[i].id == id
  }

  function UserIndex(us: seq<User>, id: int): (r: Option<nat>)
    ensures r.Some? ==> r.value < |us| && us[r.value].id == id
    ensures r.None? <==> forall i :: 0 <= i < |us| ==> us[i].id != id
  {
    if us == [] then None
    else if us[0].id == id then Some(0)
    else match UserIndex(us[1..], id)
      case None => None
      case Some(k) => Some(k + 1)
  }

  function TemplateIndex(ts: seq<Template>, id: int): (r: Option<nat>)
    ensures r.Some? ==> r.value < |ts| && ts[r.value].id == id
    ensures r.None? <==> forall i :: 0 <= i < |ts| ==> ts[i].id != id
  {
    if ts == [] then None
    else if ts[0].id == id then Some(0)
    else match TemplateIndex(ts[1..], id)
      case None => None
      case Some(k) => Some(k + 1)
  }

  function PolicyIndex(ps: seq<Policy>, id: int): (r: Option<nat>)
    ensures r.Some? ==> r.value < |ps| && ps[r.value].id == id
    ensures r.None? <==> forall i :: 0 <= i < |ps| ==> ps[i].id != id
  {
    if ps == [] then None
    else if ps[0].id == id then Some(0)
    else match PolicyIndex(ps[1..], id)
      case None => None
      case Some(k) => Some(k + 1)
  }

  function AckIndex(rows: seq<Ack>, id: int): (r: Option<nat>)
    ensures r.Some? ==> r.value < |rows| && rows[r.value].id == id
    ensures r.None? <==> forall i :: 0 <= i < |rows| ==> rows[i].id != id
  {
    if rows == [] then None
    else if rows[0].id == id then Some(0)
    else match AckIndex(rows[1..], id)
      case None => None
      case Some(k) => Some(k + 1)
  }

  // -------------------------------------------------------------------- filter

  /** The rows of `s` that satisfy `f`, in table order: a `where` clause. */
  function Filter<T(==,!new)>(s: seq<T>, f: T -> bool): (r: seq<T>)
    ensures |r| <= |s|
    ensures forall x :: x in r <==> x in s && f(x)
    ensures forall i :: 0 <= i < |r| ==> f(r[i])
  {
    if s == [] then []
    else
      assert forall x :: x in s <==> x == s[0] || x in s[1..];
      (if f(s[0]) then [s[0]] else []) + Filter(s[1..], f)
  }

  /** Nothing survives the filter exactly when no element satisfies it. */
  lemma {:induction false} FilterEmpty<T(!new)>(s: seq<T>, f: T -> bool)
    ensures Filter(s, f) == [] <==> forall x :: x in s ==> !f(x)
  {
    if s != [] {
      if !f(s[0]) {
        FilterEmpty(s[1..], f);
        assert forall x :: x in s <==> x == s[0] || x in s[1..];
      }
    }
  }

  lemma {:induction false} FilterAppend<T(!new)>(a: seq<T>, b: seq<T>, f: T -> bool)
    ensures Filter(a + b, f) == Filter(a, f) + Filter(b, f)
  {
    if a == [] {
      assert a + b == b;
    } else {
      assert (a + b)[0] == a[0];
      assert (a + b)[1..] == a[1..] + b;
      FilterAppend(a[1..], b, f);
    }
  }

  // ---------------------------------------------------------- decimal numerals

  function DigitChar(d: nat): char
    requires d < 10
  {
    ('0' as int + d) as char
  }

  function DigitValue(c: char): nat {
    if '0' <= c <= '9' then c as int - '0' as int else 0
  }

  /** The decimal numeral of `n`, as `Number.prototype.toString` writes it. */
  function NatToString(n: nat): (s: string)
    ensures |s| > 0
    ensures forall i :: 0 <= i < |s| ==> '0' <= s[i] <= '9'
  {
    if n < 10 then [DigitChar(n)] else NatToString(n / 10) + [DigitChar(n % 10)]
  }

  function IntToString(n: int): string {
    if n < 0 then "-" + NatToString(-n) else NatToString(n)
  }

  function ParseNat(s: string): nat {
    if s == [] then 0 else ParseNat(s[..|s| - 1]) * 10 + DigitValue(s[|s| - 1])
  }

  function ParseInt(s: string): int {
    if |s| > 0 && s[0] == '-' then -(ParseNat(s[1..]) as int) else ParseNat(s)
  }

  lemma {:induction false} ParseNatToString(n: nat)
    ensures ParseNat(NatToString(n)) == n
  {
    var s := NatToString(n);
    if n < 10 {
      assert s[..|s| - 1] == [];
    } else {
      assert s[..|s| - 1] == NatToString(n / 10);
      ParseNatToString(n / 10);
    }
  }

  /** The user id written into `created_by` and `approved_by` can be read back. */
  lemma IntToStringRoundTrip(n: int)
    ensures ParseInt(IntToString(n)) == n
  {
    if n < 0 {
      ParseNatToString(-n);
      assert IntToString(n)[1..] == NatToString(-n);
    } else {
      ParseNatToString(n);
    }
  }

  // --------------------------------------------------------------------- store

  /** The whole content of a store, as one value: lets a contract say
      "everything else is as before" in one equation. */
  datatype DbState = DbState(
    companies: seq<Company>,
    users: seq<User>,
    templates: seq<Template>,
    policies: seq<Policy>,
    mappings: seq<RoleMapping>,
    acks: seq<Ack>,
    nextTemplateId: int,
    nextPolicyId: int,
    nextMappingId: int,
    nextAckId: int)

  /** Every table's ids are positive, increasing in insertion order and
      below the table's counter; role mappings point below the policy counter. */
  ghost predicate ValidState(st: DbState) {
    && CompanyIdsOk(st.companies)
    && UserIdsOk(st.users)
    && TemplateIdsOk(st.templates, st.nextTemplateId)
    && PolicyIdsOk(st.policies, st.nextPolicyId)
    && MappingIdsOk(st.mappings, st.nextMappingId, st.nextPolicyId)
    && AckIdsOk(st.acks, st.nextAckId)
  }

  lemma ValidWithAcks(st: DbState, acks: seq<Ack>)
    requires ValidState(st) && AckIdsOk(acks, st.nextAckId)
    ensures ValidState(st.(acks := acks))
  {
  }

  lemma ValidWithTemplates(st: DbState, templates: seq<Template>, next: int)
    requires ValidState(st) && TemplateIdsOk(templates, next)
    ensures ValidState(st.(templates := templates, nextTemplateId := next))
  {
  }

  /** The relational store: one sequence per table, in insertion order, and
      the next free id of each table whose rows the services insert. */
  class Store {
    var companies: seq<Company>
    var users: seq<User>
    var templates: seq<Template>
    var policies: seq<Policy>
    var mappings: seq<RoleMapping>
    var acks: seq<Ack>
    var nextTemplateId: int
    var nextPolicyId: int
    var nextMappingId: int
    var nextAckId: int

    ghost predicate Valid()
      reads this
    {
      ValidState(State())
    }

    function State(): DbState
      reads this
    {
      DbState(companies, users, templates, policies, mappings, acks,
              nextTemplateId, nextPolicyId, nextMappingId, nextAckId)
    }

    /** Puts back a saved content: the rollback of an aborted transaction. */
    method Restore(st: DbState)
      modifies this
      ensures State() == st
      ensures companies == st.companies && users == st.users && templates == st.templates
      ensures policies == st.policies && mappings == st.mappings && acks == st.acks
      ensures nextTemplateId == st.nextTemplateId && nextPolicyId == st.nextPolicyId
      ensures nextMappingId == st.nextMappingId && nextAckId == st.nextAckId
    {
      companies, users, templates, policies, mappings, acks := st.companies, st.users, st.templates, st.policies, st.mappings, st.acks;
      nextTemplateId, nextPolicyId, nextMappingId, nextAckId := st.nextTemplateId, st.nextPolicyId, st.nextMappingId, st.nextAckId;
    }

    /** A store holding the given companies and users and nothing else. */
    constructor (companies: seq<Company>, users: seq<User>)
      requires CompanyIdsOk(companies) && UserIdsOk(users)
      ensures Valid()
      ensures this.companies == companies && this.users == users
      ensures templates == [] && policies == [] && mappings == [] && acks == []
    {
      this.companies := companies;
      this.users := users;
      templates, policies, mappings, acks := [], [], [], [];
      nextTemplateId, nextPolicyId, nextMappingId, nextAckId := 1, 1, 1, 1;
    }
  }
}
