/** Worked cases: one calendar owned by user 1 with no write grantees, a
    private opaque event 1 and a confidential event 2 on it, and user 2
    as the other party. */
module Scenarios {
  import opened Values
  import opened Visibility
  import opened Redaction
  import opened Guards
  import opened Reading
  import CalendarEvent

  const Owner: int := 1
  const Other: int := 2

  const Cals: map<int, Calendar> := map[10 := Calendar(Owner, {})]

  const Lunch: Record := map[
    "classification" := Text("private"), "calendar" := Int(10), "transp" := Text("opaque"),
    "summary" := Text("Lunch"), "description" := Text("secret")]

  const Board: Record := map[
    "classification" := Text("confidential"), "calendar" := Int(10), "transp" := Text("opaque"),
    "summary" := Text("Board")]

  const Rows: map<int, Record> := map[1 := Lunch, 2 := Board]

  /** A write rule admitting the events of calendars the user owns or may
      write; the program's own rule comes from `ir.rule`, which is not part
      of this model, and this one stands in for it. */
  function RuleFor(user: int): Option<Domain>
  {
    Some(Any([OwnerIs(user), WriteUsersHas(user)]))
  }

  /** The private event is visible to every user. */
  lemma LunchVisible()
    ensures forall user :: AllVisible(Rows, Cals, user, [1])
  {
    assert Rows[1] == Lunch;
  }

  /** The owner may write the private event, the other user may not. */
  lemma LunchWritable()
    ensures Writable(Rows, Cals, RuleFor(Other), [1]) == {}
    ensures Writable(Rows, Cals, RuleFor(Owner), [1]) == {1}
  {
    assert Rows[1] == Lunch && CalendarOf(Lunch, Cals) == Some(Calendar(Owner, {}));
    assert !Holds(RuleFor(Other).value, 1, Lunch, Cals) by {
      assert !Holds(OwnerIs(Other), 1, Lunch, Cals) && !Holds(WriteUsersHas(Other), 1, Lunch, Cals);
    }
    assert Holds(RuleFor(Owner).value, 1, Lunch, Cals) by {
      assert Holds(RuleFor(Owner).value.parts[0], 1, Lunch, Cals);
    }
  }

  const Asked: set<string> := {"description", "summary"}

  /** A record with the description, the summary and the id only. */
  lemma ThreeKeys(m: Record, description: Value, summary: Value, id: Value)
    requires m.Keys == {"description", "summary", "id"}
    requires m["description"] == description && m["summary"] == summary && m["id"] == id
    ensures m == map["description" := description, "summary" := summary, "id" := id]
  {
  }

  /** The record the other user gets for the private event. */
  lemma OtherRecord()
    ensures RecordAt(Rows, Cals, RuleFor(Other), [1], Asked, 0)
         == Success(map["description" := Text(""), "summary" := Text("Busy"), "id" := Int(1)])
  {
    LunchVisible();
    LunchWritable();
    RecordAtShape(Rows, Cals, RuleFor(Other), [1], Asked, 0);
    var out := RecordAt(Rows, Cals, RuleFor(Other), [1], Asked, 0).value;
    OtherRecordValues(out);
    ThreeKeys(out, Text(""), Text("Busy"), Int(1));
  }

  /** The two values of that record the redaction decides. */
  lemma OtherRecordValues(out: Record)
    requires RecordAt(Rows, Cals, RuleFor(Other), [1], Asked, 0) == Success(out)
    requires out.Keys == {"description", "summary", "id"}
    ensures out["description"] == Text("") && out["summary"] == Text("Busy")
  {
    LunchVisible();
    LunchWritable();
    RecordAtRedacted(Rows, Cals, RuleFor(Other), [1], Asked, 0);
    assert Blanks[0] == ("description", Text(""));
    assert FieldValue(1, Lunch, "transp") == Text("opaque");
  }

  /** The record the owner gets for the private event. */
  lemma OwnerRecord()
    ensures RecordAt(Rows, Cals, RuleFor(Owner), [1], Asked, 0)
         == Success(map["description" := Text("secret"), "summary" := Text("Lunch"), "id" := Int(1)])
  {
    LunchVisible();
    LunchWritable();
    RecordAtShape(Rows, Cals, RuleFor(Owner), [1], Asked, 0);
    RecordAtPlain(Rows, Cals, RuleFor(Owner), [1], Asked, 0);
    var out := RecordAt(Rows, Cals, RuleFor(Owner), [1], Asked, 0).value;
    assert out["description"] == FieldValue(1, Lunch, "description");
    assert out["summary"] == FieldValue(1, Lunch, "summary");
    ThreeKeys(out, Text("secret"), Text("Lunch"), Int(1));
  }

  /** The other user reads the private event: its description is blanked and
      its summary is the label for 'opaque'. */
  lemma OtherReadsPrivate()
    ensures ReadOutcome(Rows, Cals, Other, RuleFor(Other), OneId(1), Some(["description", "summary"]))
         == Success(One(map["description" := Text(""), "summary" := Text("Busy"), "id" := Int(1)]))
  {
    assert Names(["description", "summary"]) == Asked;
    LunchVisible();
    LunchWritable();
    OtherRecord();
    ReadRecords(Rows, Cals, Other, RuleFor(Other), OneId(1), Some(["description", "summary"]));
  }

  /** The owner reads the same event in full. */
  lemma OwnerReadsPrivate()
    ensures ReadOutcome(Rows, Cals, Owner, RuleFor(Owner), OneId(1), Some(["description", "summary"]))
         == Success(One(map["description" := Text("secret"), "summary" := Text("Lunch"), "id" := Int(1)]))
  {
    assert Names(["description", "summary"]) == Asked;
    LunchVisible();
    LunchWritable();
    OwnerRecord();
    ReadRecords(Rows, Cals, Owner, RuleFor(Owner), OneId(1), Some(["description", "summary"]));
  }

  /** A search with no condition finds the confidential event for the owner
      and not for the other user. */
  lemma ConfidentialSearch()
    ensures 2 !in Search(Rows, Cals, Other, All([]))
    ensures 2 in Search(Rows, Cals, Owner, All([]))
  {
    assert Rows[2] == Board && CalendarOf(Board, Cals) == Some(Calendar(Owner, {}));
    assert FieldValue(2, Board, "classification") == Confidential;
    FilteredDomainIff(All([]), Other, 2, Board, Cals);
    FilteredDomainIff(All([]), Owner, 2, Board, Cals);
  }

  /** The checks around `write` look at read visibility only: the other user
      sees the private event, so both checks pass for a write of its summary
      (whether the store then refuses the write is up to its own rules). */
  lemma OtherWritesPrivate()
    ensures AllVisible(Rows, Cals, Other, [1])
    ensures AllVisible(CalendarEvent.Updated(Rows, [1], map["summary" := Text("x")]), Cals, Other, [1])
  {
    CalendarEvent.WriteKeepsVisibility(Rows, Cals, Other, [1], map["summary" := Text("x")]);
  }
}
