/** Search domains over the event table, and the confidentiality rule that
    `Event.search` adds to every domain when a user is in scope. */
module Visibility {
  import opened Values

  const Confidential: Value := Text("confidential")

  datatype Operator = Eq | Ne | In

  /** A calendar: its owner and the users granted write access. */
  datatype Calendar = Calendar(owner: int, writeUsers: set<int>)

  /** A search domain. A Python list of domains is a conjunction, a list
      headed by 'OR' a disjunction. */
  datatype Domain =
    | Clause(field: string, op: Operator, operand: Value)  // (field, op, operand) on the event itself
    | OwnerIs(user: int)                                   // ('calendar.owner', '=', user)
    | WriteUsersHas(user: int)                             // ('calendar.write_users', '=', user)
    | All(parts: seq<Domain>)
    | Any(parts: seq<Domain>)

  /** The value of a column of the row stored under `id`; a missing key is NULL. */
  function FieldValue(id: int, row: Record, field: string): Value
  {
    if field == "id" then Int(id) else if field in row then row[field] else Null
  }

  /** SQL comparison: a NULL column never satisfies `!=` or `in` against a
      value; `= None` and `!= None` are the null tests. */
  predicate Compare(v: Value, op: Operator, operand: Value)
  {
    match op
    case Eq => v == operand
    case Ne => v != Null && v != operand
    case In => v != Null && operand.List? && v in operand.elems
  }

  /** The calendar a row refers to, when the reference resolves. */
  function CalendarOf(row: Record, cals: map<int, Calendar>): Option<Calendar>
  {
    if "calendar" in row && row["calendar"].Int? && row["calendar"].i in cals
    then Some(cals[row["calendar"].i]) else None
  }

  predicate Holds(d: Domain, id: int, row: Record, cals: map<int, Calendar>)
    decreases d
  {
    match d
    case Clause(f, op, x) => Compare(FieldValue(id, row, f), op, x)
    case OwnerIs(u) => CalendarOf(row, cals).Some? && CalendarOf(row, cals).value.owner == u
    case WriteUsersHas(u) => CalendarOf(row, cals).Some? && u in CalendarOf(row, cals).value.writeUsers
    case All(ps) => forall i :: 0 <= i < |ps| ==> Holds(ps[i], id, row, cals)
    case Any(ps) => exists i :: 0 <= i < |ps| && Holds(ps[i], id, row, cals)
  }

  /** The rule calendar.py:23-33 adds for `user`. */
  function ConfidentialRule(user: int): Domain
  {
    Any([
      All([Clause("classification", Eq, Confidential), Any([OwnerIs(user), WriteUsersHas(user)])]),
      Clause("classification", Ne, Confidential)])
  }

  /** `Event.search`: the domain it hands to the generic search. User 0
      (root) is false in Python, so then the domain passes unchanged. */
  function FilteredDomain(domain: Domain, user: int): Domain
  {
    if user != 0 then All([domain, ConfidentialRule(user)]) else domain
  }

  /** Reference definition of who may see an event: anyone when no user is
      in scope; otherwise a non-confidential event, or a confidential one
      whose calendar the user owns or may write. An event whose
      classification is NULL passes neither branch of the rule. */
  predicate Visible(row: Record, cals: map<int, Calendar>, user: int)
  {
    var c := FieldValue(0, row, "classification");
    var cal := CalendarOf(row, cals);
    || user == 0
    || (c != Null && c != Confidential)
    || (c == Confidential && cal.Some? && (cal.value.owner == user || user in cal.value.writeUsers))
  }

  /** The ids of the table that satisfy a domain, as the generic search finds them. */
  function Matching(rows: map<int, Record>, cals: map<int, Calendar>, d: Domain): set<int>
  {
    set id | id in rows && Holds(d, id, rows[id], cals)
  }

  /** What `Event.search` finds: the generic search on the filtered domain. */
  function Search(rows: map<int, Record>, cals: map<int, Calendar>, user: int, d: Domain): set<int>
  {
    Matching(rows, cals, FilteredDomain(d, user))
  }

  /** The rule holds of an event exactly when the event is non-confidential
      (and its classification not NULL), or confidential on a calendar the
      user owns or may write. */
  lemma ConfidentialRuleIff(user: int, id: int, row: Record, cals: map<int, Calendar>)
    ensures var c, cal := FieldValue(id, row, "classification"), CalendarOf(row, cals);
      Holds(ConfidentialRule(user), id, row, cals)
        == ((c != Null && c != Confidential)
            || (c == Confidential && cal.Some? && (cal.value.owner == user || user in cal.value.writeUsers)))
  {
    var rule := ConfidentialRule(user);
    var conf, either := rule.parts[0], rule.parts[0].parts[1];
    assert Holds(either, id, row, cals)
      <==> Holds(either.parts[0], id, row, cals) || Holds(either.parts[1], id, row, cals);
    assert Holds(conf, id, row, cals)
      <==> Holds(conf.parts[0], id, row, cals) && Holds(either, id, row, cals);
    assert Holds(rule, id, row, cals)
      <==> Holds(conf, id, row, cals) || Holds(rule.parts[1], id, row, cals);
  }

  /** The filtered domain holds of an event exactly when the caller's domain
      does and the event is visible to the user. */
  lemma FilteredDomainIff(d: Domain, user: int, id: int, row: Record, cals: map<int, Calendar>)
    ensures Holds(FilteredDomain(d, user), id, row, cals)
        <==> Holds(d, id, row, cals) && Visible(row, cals, user)
  {
    if user != 0 {
      var f := FilteredDomain(d, user);
      assert Holds(f, id, row, cals) <==> Holds(f.parts[0], id, row, cals) && Holds(f.parts[1], id, row, cals);
      ConfidentialRuleIff(user, id, row, cals);
    }
  }

  /** The filter only removes results: what `Event.search` finds is what the
      generic search finds on the caller's domain, less the invisible events;
      with no user in scope it is exactly that. */
  lemma SearchIsVisibleSubset(rows: map<int, Record>, cals: map<int, Calendar>, user: int, d: Domain)
    ensures Search(rows, cals, user, d) == set id | id in Matching(rows, cals, d) && Visible(rows[id], cals, user)
    ensures Search(rows, cals, user, d) <= Matching(rows, cals, d)
    ensures user == 0 ==> Search(rows, cals, user, d) == Matching(rows, cals, d)
  {
    forall id | id in rows
      ensures id in Search(rows, cals, user, d) <==> id in Matching(rows, cals, d) && Visible(rows[id], cals, user)
    {
      FilteredDomainIff(d, user, id, rows[id], cals);
    }
  }

  /** A confidential event is never found by a user who neither owns its
      calendar nor may write it, whatever the caller's domain. */
  lemma ConfidentialHidden(rows: map<int, Record>, cals: map<int, Calendar>, user: int, d: Domain, id: int)
    requires user != 0 && id in rows
    requires FieldValue(id, rows[id], "classification") == Confidential
    requires CalendarOf(rows[id], cals).Some? ==>
      CalendarOf(rows[id], cals).value.owner != user && user !in CalendarOf(rows[id], cals).value.writeUsers
    ensures id !in Search(rows, cals, user, d)
  {
    FilteredDomainIff(d, user, id, rows[id], cals);
  }
}
