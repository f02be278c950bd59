/** The calendar.event model (calendar.py:9-142): the event table, the
    calendars it refers to, the user of the transaction and the write rule,
    with `create`, `read`, `write` and `delete` wrapped in access checks. */
module CalendarEvent {
  import opened Values
  import opened Visibility
  import opened Redaction
  import opened Guards
  import opened Reading

  /** The rows after the store writes `values` into every row of `ids`. */
  function Updated(rows: map<int, Record>, ids: seq<int>, values: Record): (r: map<int, Record>)
    ensures r.Keys == rows.Keys
  {
    map x | x in rows :: if x in ids then rows[x] + values else rows[x]
  }

  /** Visibility depends on the classification and calendar columns only. */
  lemma VisibleDependsOnAccessFields(a: Record, b: Record, cals: map<int, Calendar>, user: int)
    requires FieldValue(0, a, "classification") == FieldValue(0, b, "classification")
    requires CalendarOf(a, cals) == CalendarOf(b, cals)
    ensures Visible(a, cals, user) == Visible(b, cals, user)
  {
  }

  /** A write that touches neither classification nor calendar cannot make
      a visible event invisible, so `write`'s second check (calendar.py:131-133)
      passes whenever its first did. */
  lemma WriteKeepsVisibility(rows: map<int, Record>, cals: map<int, Calendar>, user: int, ids: seq<int>, values: Record)
    requires "classification" !in values && "calendar" !in values
    requires AllVisible(rows, cals, user, ids)
    ensures AllVisible(Updated(rows, ids, values), cals, user, ids)
  {
    var after := Updated(rows, ids, values);
    forall x | x in ids ensures x in after && Visible(after[x], cals, user) {
      assert after[x] == rows[x] + values;
      assert FieldValue(0, after[x], "classification") == FieldValue(0, rows[x], "classification");
      assert CalendarOf(after[x], cals) == CalendarOf(rows[x], cals);
      VisibleDependsOnAccessFields(after[x], rows[x], cals, user);
    }
  }

  class Event {
    /** The event table: id to stored row; a missing key is a NULL column. */
    var rows: map<int, Record>
    /** The next id the store hands out. */
    var nextId: int
    /** The calendar table. */
    const calendars: map<int, Calendar>
    /** `Transaction().user`; 0 is the root user. */
    const user: int
    /** The write rule of `ir.rule` for this user; None when it is empty. */
    const writeRule: Option<Domain>
    /** `cursor.IN_MAX`, the most ids one query may name. */
    const inMax: int

    ghost predicate Valid()
      reads this
    {
      inMax > 0 && forall id :: id in rows ==> id < nextId
    }

    constructor (rows: map<int, Record>, nextId: int, calendars: map<int, Calendar>, user: int,
                 writeRule: Option<Domain>, inMax: int)
      requires inMax > 0 && forall id :: id in rows ==> id < nextId
      ensures Valid()
      ensures this.rows == rows && this.nextId == nextId && this.calendars == calendars
      ensures this.user == user && this.writeRule == writeRule && this.inMax == inMax
    {
      this.rows := rows;
      this.nextId := nextId;
      this.calendars := calendars;
      this.user := user;
      this.writeRule := writeRule;
      this.inMax := inMax;
    }

    /** `Event.create` (calendar.py:37-41): the store inserts the row, then
        the new id must be counted exactly once by `Event.search`. The
        insert is not undone when the check fails. */
    method Create(values: Record) returns (r: Result<int>)
      requires Valid()
      modifies this
      ensures Valid()
      ensures rows == old(rows)[old(nextId) := values] && nextId == old(nextId) + 1
      ensures r == if Visible(values, calendars, user) then Success(old(nextId)) else Failure(AccessError)
    {
      var newId := nextId;
      rows := rows[newId := values];
      nextId := nextId + 1;
      CountNewId(rows, calendars, user, newId);
      if |Search(rows, calendars, user, Clause("id", Eq, Int(newId)))| != 1 {
        return Failure(AccessError);
      }
      return Success(newId);
    }

    /** `Event.write` (calendar.py:124-134): the count check, the store write,
        and the count check again. After a failed second check the write
        stays applied. */
    method Write(arg: IdArg, values: Record) returns (r: Result<bool>)
      requires Valid()
      modifies this
      ensures Valid() && nextId == old(nextId)
      ensures !AllVisible(old(rows), calendars, user, AsList(arg)) ==>
        r == Failure(AccessError) && rows == old(rows)
      ensures AllVisible(old(rows), calendars, user, AsList(arg)) ==>
        && rows == Updated(old(rows), AsList(arg), values)
        && r == if AllVisible(rows, calendars, user, AsList(arg)) then Success(true) else Failure(AccessError)
    {
      var ids := AsList(arg);
      GuardIff(rows, calendars, user, ids);
      if |Distinct(ids)| != |Search(rows, calendars, user, IdsDomain(ids))| {
        return Failure(AccessError);
      }
      rows := Updated(rows, ids, values);
      GuardIff(rows, calendars, user, ids);
      if |Distinct(ids)| != |Search(rows, calendars, user, IdsDomain(ids))| {
        return Failure(AccessError);
      }
      return Success(true);
    }

    /** `Event.delete` (calendar.py:136-142): the count check, then the store
        deletes the rows. */
    method Delete(arg: IdArg) returns (r: Result<bool>)
      requires Valid()
      modifies this
      ensures Valid() && nextId == old(nextId)
      ensures !AllVisible(old(rows), calendars, user, AsList(arg)) ==>
        r == Failure(AccessError) && rows == old(rows)
      ensures AllVisible(old(rows), calendars, user, AsList(arg)) ==>
        rows == old(rows) - Distinct(AsList(arg)) && r == Success(true)
    {
      var ids := AsList(arg);
      GuardIff(rows, calendars, user, ids);
      if |Distinct(ids)| != |Search(rows, calendars, user, IdsDomain(ids))| {
        return Failure(AccessError);
      }
      rows := rows - Distinct(ids);
      return Success(true);
    }

    /** The writable ids of calendar.py:91-103: every requested id when the
        write rule is empty, else the union over the slices of `ids` of what
        one query per slice finds. `slices` records the slices visited. */
    method WritableIds(ids: seq<int>) returns (writable: set<int>, ghost slices: seq<seq<int>>)
      requires Valid()
      ensures writable == Writable(rows, calendars, writeRule, ids)
      ensures writeRule.Some? ==> slices == Chunks(ids, inMax)
    {
      if writeRule.None? {
        return Distinct(ids), [];
      }
      var rule := writeRule.value;
      writable, slices := {}, [];
      var i := 0;
      while i < |ids|
        invariant 0 <= i <= |ids|
        invariant slices + Chunks(ids[i..], inMax) == Chunks(ids, inMax)
        invariant writable == RuleIds(rows, calendars, rule, ids[..i])
      {
        var end := if i + inMax < |ids| then i + inMax else |ids|;
        var sub := ids[i..end];
        assert ids[..end] == ids[..i] + sub;
        assert Chunks(ids[i..], inMax) == [sub] + Chunks(ids[end..], inMax) by {
          if i + inMax < |ids| {
            assert ids[i..][..inMax] == sub && ids[i..][inMax..] == ids[end..];
          } else {
            assert ids[i..] == sub && ids[end..] == [];
          }
        }
        writable := writable + RuleIds(rows, calendars, rule, sub);
        slices := slices + [sub];
        i := end;
      }
      assert ids[..i] == ids;
      assert Chunks(ids[i..], inMax) == [];
    }

    /** `Event.read` (calendar.py:80-122). */
    method Read(arg: IdArg, fieldsNames: Option<seq<string>>) returns (r: Result<ReadValue>)
      requires Valid()
      ensures r == ReadOutcome(rows, calendars, user, writeRule, arg, fieldsNames)
    {
      var ids := AsList(arg);
      if |Distinct(ids)| != |Search(rows, calendars, user, IdsDomain(ids))| {
        return Failure(AccessError);
      }
      GuardIff(rows, calendars, user, ids);
      var writable, _ := WritableIds(ids);
      var fields, toRemove := ExtendFields(Requested(fieldsNames));
      var read := StoreRead(rows, ids, Names(fields));
      StoreReadKeys(rows, ids, Names(fields));
      assert "classification" in Names(Internal) && "transp" in Names(Internal);
      var done := PostProcess(ids, read, writable, toRemove);
      if done.Failure? {
        return Failure(done.error);
      }
      var res := done.value;
      if arg.OneId? {
        return Success(One(res[0]));
      }
      return Success(Many(res));
    }
  }
}
