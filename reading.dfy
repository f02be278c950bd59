/** What `Event.read` returns (calendar.py:80-122), as a function of the
    stored rows, the calendars, the user, the write rule and the arguments;
    the method in module CalendarEvent computes it step by step. */
module Reading {
  import opened Values
  import opened Visibility
  import opened Redaction
  import opened Guards

  const Private: Value := Text("private")

  /** The fields `read` always needs (calendar.py:109). */
  const Internal: seq<string> := ["classification", "calendar", "transp"]

  function Names(fields: seq<string>): set<string>
  {
    set f | f in fields
  }

  /** The fields list handed to the store: the caller's list (or [] for
      None), copied, with each internal field it lacks appended; and the
      appended fields, to be stripped again (calendar.py:105-112). */
  method ExtendFields(requested: seq<string>) returns (fields: seq<string>, toRemove: set<string>)
    ensures |fields| >= |requested| && fields[..|requested|] == requested
    ensures forall f :: f in fields[|requested|..] ==> f in Internal && f !in requested
    ensures Names(fields) == Names(requested) + Names(Internal)
    ensures toRemove == Names(Internal) - Names(requested)
  {
    fields := requested;
    toRemove := {};
    var k := 0;
    while k < |Internal|
      invariant 0 <= k <= |Internal|
      invariant |fields| >= |requested| && fields[..|requested|] == requested
      invariant forall f :: f in fields[|requested|..] ==> f in Internal[..k] && f !in requested
      invariant Names(fields) == Names(requested) + Names(Internal[..k])
      invariant toRemove == Names(Internal[..k]) - Names(requested)
    {
      var field := Internal[k];
      assert Internal[..k + 1] == Internal[..k] + [field];
      assert field !in Internal[..k];
      assert Names(Internal[..k + 1]) == Names(Internal[..k]) + {field};
      if field !in fields {
        assert Names(fields + [field]) == Names(fields) + {field};
        fields := fields + [field];
        toRemove := toRemove + {field};
      }
      k := k + 1;
    }
    assert Internal[..k] == Internal;
  }

  /** The dictionary the store returns for one row: the requested fields
      (NULL where the row has no value) and 'id'. */
  function Project(id: int, row: Record, fields: set<string>): (rec: Record)
    ensures rec.Keys == fields + {"id"}
    ensures forall f :: f in rec ==> rec[f] == FieldValue(id, row, f)
  {
    map f | f in fields + {"id"} :: FieldValue(id, row, f)
  }

  /** The redaction decision of calendar.py:115-116. */
  predicate Redacts(id: int, rec: Record, writable: set<int>)
    requires "classification" in rec
  {
    rec["classification"] == Private && id !in writable
  }

  /** One record after the loop body of calendar.py:115-119. */
  function Finish(id: int, rec: Record, writable: set<int>, toRemove: set<string>): Result<Record>
    requires "classification" in rec && "transp" in rec
  {
    if Redacts(id, rec, writable) then
      match Cleaned(rec, rec["transp"])
      case Success(c) => Success(c - toRemove)
      case Failure(e) => Failure(e)
    else Success(rec - toRemove)
  }

  /** What `read` returns: one dictionary for a scalar id, a list otherwise. */
  datatype ReadValue = One(record: Record) | Many(records: seq<Record>)

  function RecordsOf(v: ReadValue): seq<Record>
  {
    match v
    case One(r) => [r]
    case Many(rs) => rs
  }

  function Requested(fieldsNames: Option<seq<string>>): seq<string>
  {
    if fieldsNames.None? then [] else fieldsNames.value
  }

  /** The rows of the requested ids as the store reads them, after the
      fields have been extended. */
  function StoreRead(rows: map<int, Record>, ids: seq<int>, fields: set<string>): seq<Record>
    requires forall x :: x in ids ==> x in rows
  {
    seq(|ids|, i requires 0 <= i < |ids| => Project(ids[i], rows[ids[i]], fields))
  }

  /** The store returns one record per id, each holding the fields asked for. */
  lemma StoreReadKeys(rows: map<int, Record>, ids: seq<int>, fields: set<string>)
    requires forall x :: x in ids ==> x in rows
    ensures |StoreRead(rows, ids, fields)| == |ids|
    ensures forall i :: 0 <= i < |ids| ==> StoreRead(rows, ids, fields)[i].Keys == fields + {"id"}
  {
  }

  /** The records after redaction and stripping, or the first failure. */
  function FinishAll(ids: seq<int>, recs: seq<Record>, writable: set<int>, toRemove: set<string>): Result<seq<Record>>
    requires |recs| == |ids|
    requires forall i :: 0 <= i < |recs| ==> "classification" in recs[i] && "transp" in recs[i]
  {
    if exists i :: 0 <= i < |recs| && Finish(ids[i], recs[i], writable, toRemove).Failure? then Failure(ParseError)
    else Success(seq(|recs|, i requires 0 <= i < |recs| =>
      var f := Finish(ids[i], recs[i], writable, toRemove); if f.Success? then f.value else map[]))
  }

  /** The loop of calendar.py:114-119 over the records the store returned:
      redact where `Redacts` says so, then strip the appended fields. The
      dictionaries are replaced one by one in the list. */
  method PostProcess(ids: seq<int>, read: seq<Record>, writable: set<int>, toRemove: set<string>)
    returns (r: Result<seq<Record>>)
    requires |read| == |ids|
    requires forall i :: 0 <= i < |read| ==> "classification" in read[i] && "transp" in read[i]
    ensures r == FinishAll(ids, read, writable, toRemove)
  {
    var res := read;
    var i := 0;
    while i < |res|
      invariant 0 <= i <= |res| == |read|
      invariant forall j :: 0 <= j < i ==> Finish(ids[j], read[j], writable, toRemove) == Success(res[j])
      invariant forall j :: i <= j < |res| ==> res[j] == read[j]
    {
      var record := res[i];
      // record['id'] is ids[i]
      if record["classification"] == Private && ids[i] !in writable {
        var cleaned := CleanPrivate(record, record["transp"]);
        if cleaned.Failure? {
          assert Finish(ids[i], read[i], writable, toRemove).Failure?;
          return Failure(cleaned.error);
        }
        record := cleaned.value;
      }
      record := record - toRemove;
      res := res[i := record];
      i := i + 1;
    }
    ghost var all := FinishAll(ids, read, writable, toRemove);
    assert all.Success?;
    assert all.value == res;
    return Success(res);
  }

  /** `Event.read` as a function of the store state and the arguments. */
  function ReadOutcome(rows: map<int, Record>, cals: map<int, Calendar>, user: int, rule: Option<Domain>,
                       arg: IdArg, fieldsNames: Option<seq<string>>): Result<ReadValue>
  {
    var ids := AsList(arg);
    if !Guard(rows, cals, user, ids) then Failure(AccessError)
    else
      GuardIff(rows, cals, user, ids);
      var requested := Requested(fieldsNames);
      var recs := StoreRead(rows, ids, Names(requested) + Names(Internal));
      match FinishAll(ids, recs, Writable(rows, cals, rule, ids), Names(Internal) - Names(requested))
      case Failure(e) => Failure(e)
      case Success(out) => if arg.OneId? then Success(One(out[0])) else Success(Many(out))
  }

  /** `read` redacts the `i`-th record: a private event the user may not write. */
  predicate RedactedAt(rows: map<int, Record>, cals: map<int, Calendar>, rule: Option<Domain>, ids: seq<int>, i: int)
    requires 0 <= i < |ids| && forall x :: x in ids ==> x in rows
  {
    FieldValue(ids[i], rows[ids[i]], "classification") == Private && ids[i] !in Writable(rows, cals, rule, ids)
  }

  /** The check at the start of `read` (calendar.py:87-89): access is denied
      exactly when some requested id is missing or invisible to the user, and
      no other failure is reported as an access error. */
  lemma ReadDenied(rows: map<int, Record>, cals: map<int, Calendar>, user: int, rule: Option<Domain>,
                   arg: IdArg, fieldsNames: Option<seq<string>>)
    ensures ReadOutcome(rows, cals, user, rule, arg, fieldsNames) == Failure(AccessError)
        <==> !AllVisible(rows, cals, user, AsList(arg))
  {
    GuardIff(rows, cals, user, AsList(arg));
  }

  /** A record of `read` fails only when it is redacted and its vevent
      does not parse. */
  lemma FinishFails(id: int, rec: Record, writable: set<int>, toRemove: set<string>)
    requires "classification" in rec && "transp" in rec
    ensures Finish(id, rec, writable, toRemove).Failure? <==> Redacts(id, rec, writable) && Unparseable(rec)
    ensures Finish(id, rec, writable, toRemove).Failure? ==> Finish(id, rec, writable, toRemove).error == ParseError
  {
  }

  /** `read` keeps the keys of a record except those it strips, and its id. */
  lemma FinishKeys(id: int, rec: Record, writable: set<int>, toRemove: set<string>)
    requires "classification" in rec && "transp" in rec && "id" in rec && "id" !in toRemove
    ensures Finish(id, rec, writable, toRemove).Success? ==>
      var out := Finish(id, rec, writable, toRemove).value;
      out.Keys == rec.Keys - toRemove && out["id"] == rec["id"]
  {
    if Redacts(id, rec, writable) && !Unparseable(rec) {
      CleanedRecord(rec, rec["transp"]);
      assert Untouched("id");
    }
  }

  /** The store reads the requested and the internal fields; stripping the
      internal ones the caller did not ask for leaves the requested ones and 'id'. */
  lemma ProjectStripped(id: int, row: Record, fields: set<string>)
    ensures var rec := Project(id, row, fields + Names(Internal));
      && "classification" in rec && "transp" in rec && "id" in rec && rec["id"] == Int(id)
      && rec.Keys - (Names(Internal) - fields) == fields + {"id"}
  {
    assert Names(Internal) == {"classification", "calendar", "transp"};
  }

  /** The outcome for the `i`-th requested id on its own: its stored row as
      the store reads it, redacted or not, with the internal fields stripped. */
  function RecordAt(rows: map<int, Record>, cals: map<int, Calendar>, rule: Option<Domain>, ids: seq<int>,
                    fields: set<string>, i: int): Result<Record>
    requires 0 <= i < |ids| && forall x :: x in ids ==> x in rows
  {
    var rec := Project(ids[i], rows[ids[i]], fields + Names(Internal));
    Finish(ids[i], rec, Writable(rows, cals, rule, ids), Names(Internal) - fields)
  }

  lemma FinishAllAt(ids: seq<int>, recs: seq<Record>, writable: set<int>, toRemove: set<string>)
    requires |recs| == |ids|
    requires forall i :: 0 <= i < |recs| ==> "classification" in recs[i] && "transp" in recs[i]
    ensures var all := FinishAll(ids, recs, writable, toRemove);
      && (all.Failure? <==> exists i :: 0 <= i < |recs| && Finish(ids[i], recs[i], writable, toRemove).Failure?)
      && (all.Failure? ==> all.error == ParseError)
      && (all.Success? ==>
            && |all.value| == |recs|
            && forall i :: 0 <= i < |recs| ==> Finish(ids[i], recs[i], writable, toRemove) == Success(all.value[i]))
  {
  }

  /** When every requested id is visible, `read` gives one record per id, in
      order, each being that id's own outcome; it fails, with a parse error,
      exactly when one of them does. A scalar id gives one record. */
  lemma ReadRecords(rows: map<int, Record>, cals: map<int, Calendar>, user: int, rule: Option<Domain>,
                    arg: IdArg, fieldsNames: Option<seq<string>>)
    requires AllVisible(rows, cals, user, AsList(arg))
    ensures var ids, fields := AsList(arg), Names(Requested(fieldsNames));
      var out := ReadOutcome(rows, cals, user, rule, arg, fieldsNames);
      && (out.Failure? <==> exists i :: 0 <= i < |ids| && RecordAt(rows, cals, rule, ids, fields, i).Failure?)
      && (out.Failure? ==> out.error == ParseError)
      && (out.Success? ==>
            && (out.value.One? <==> arg.OneId?)
            && |RecordsOf(out.value)| == |ids|
            && forall i :: 0 <= i < |ids| ==> RecordAt(rows, cals, rule, ids, fields, i) == Success(RecordsOf(out.value)[i]))
  {
    var ids, requested := AsList(arg), Requested(fieldsNames);
    var fields := Names(requested);
    GuardIff(rows, cals, user, ids);
    var recs := StoreRead(rows, ids, Names(requested) + Names(Internal));
    StoreReadKeys(rows, ids, Names(requested) + Names(Internal));
    assert "classification" in Names(Internal) && "transp" in Names(Internal);
    var writable, toRemove := Writable(rows, cals, rule, ids), Names(Internal) - Names(requested);
    FinishAllAt(ids, recs, writable, toRemove);
    forall i | 0 <= i < |ids|
      ensures Finish(ids[i], recs[i], writable, toRemove) == RecordAt(rows, cals, rule, ids, fields, i)
    {
    }
  }

  /** What a redacted record keeps: the keys that survive stripping, with
      the values `_clean_private` leaves. */
  lemma FinishRedacted(id: int, rec: Record, writable: set<int>, toRemove: set<string>)
    requires "classification" in rec && "transp" in rec
    requires Redacts(id, rec, writable) && !Unparseable(rec)
    ensures Finish(id, rec, writable, toRemove).Success?
    ensures var out := Finish(id, rec, writable, toRemove).value;
      && ("summary" in out ==> out["summary"] == Label(rec["transp"]))
      && (forall j :: 0 <= j < |Blanks| && Blanks[j].0 in out ==> out[Blanks[j].0] == Blanks[j].1)
      && (forall j :: 0 <= j < |Blanks| && Blanks[j].0 + RecNameSuffix in out ==>
            out[Blanks[j].0 + RecNameSuffix] == Text(""))
      && (forall k :: k in out && Untouched(k) ==> out[k] == rec[k])
      && ("vevent" in out && !Truthy(rec["vevent"]) ==> out["vevent"] == rec["vevent"])
      && ("vevent" in out && Truthy(rec["vevent"]) ==>
            && out["vevent"].Doc? && rec["vevent"].Doc?
            && var before, after := rec["vevent"].parts, out["vevent"].parts;
            && after.Keys == before.Keys - NamesOf(Blanks)
            && ("summary" in before ==> "summary" in after && after["summary"] == Label(rec["transp"]))
            && (forall k :: k in after && k != "summary" ==> after[k] == before[k]))
  {
    CleanedRecord(rec, rec["transp"]);
    if "vevent" in rec {
      CleanedVevent(rec, rec["transp"]);
    }
  }

  /** One requested id (calendar.py:113-119): its record fails to come out
      exactly when it is redacted, the caller asked for 'vevent' and the
      stored vevent is non-empty yet does not parse; otherwise it holds the
      requested fields and its own id. */
  lemma RecordAtShape(rows: map<int, Record>, cals: map<int, Calendar>, rule: Option<Domain>, ids: seq<int>,
                      fields: set<string>, i: int)
    requires 0 <= i < |ids| && forall x :: x in ids ==> x in rows
    ensures var v := FieldValue(ids[i], rows[ids[i]], "vevent");
      var bad := RedactedAt(rows, cals, rule, ids, i) && "vevent" in fields && Truthy(v) && !v.Doc?;
      RecordAt(rows, cals, rule, ids, fields, i).Failure? <==> bad
    ensures RecordAt(rows, cals, rule, ids, fields, i).Success? ==>
      var out := RecordAt(rows, cals, rule, ids, fields, i).value;
      out.Keys == fields + {"id"} && out["id"] == Int(ids[i])
  {
    var id := ids[i];
    var rec := Project(id, rows[id], fields + Names(Internal));
    ProjectStripped(id, rows[id], fields);
    var writable, toRemove := Writable(rows, cals, rule, ids), Names(Internal) - fields;
    FinishFails(id, rec, writable, toRemove);
    FinishKeys(id, rec, writable, toRemove);
    assert "vevent" in rec <==> "vevent" in fields;
  }

  /** A record `read` does not redact carries the stored values of the
      requested fields. */
  lemma RecordAtPlain(rows: map<int, Record>, cals: map<int, Calendar>, rule: Option<Domain>, ids: seq<int>,
                      fields: set<string>, i: int)
    requires 0 <= i < |ids| && forall x :: x in ids ==> x in rows
    requires !RedactedAt(rows, cals, rule, ids, i)
    ensures RecordAt(rows, cals, rule, ids, fields, i).Success?
    ensures var out := RecordAt(rows, cals, rule, ids, fields, i).value;
      forall f :: f in out ==> out[f] == FieldValue(ids[i], rows[ids[i]], f)
  {
    ProjectStripped(ids[i], rows[ids[i]], fields);
  }

  /** A record `read` redacts (calendar.py:115-117 with calendar.py:50-52,
      62-73): of the requested fields, the summary carries the label for the
      stored transparency, the content fields their blanks, the companion
      keys the empty text, and every field but these and 'vevent' its stored
      value. */
  lemma RecordAtRedacted(rows: map<int, Record>, cals: map<int, Calendar>, rule: Option<Domain>, ids: seq<int>,
                         fields: set<string>, i: int)
    requires 0 <= i < |ids| && forall x :: x in ids ==> x in rows
    requires RedactedAt(rows, cals, rule, ids, i)
    requires RecordAt(rows, cals, rule, ids, fields, i).Success?
    ensures var out := RecordAt(rows, cals, rule, ids, fields, i).value;
      var id, row := ids[i], rows[ids[i]];
      && ("summary" in fields ==> out["summary"] == Label(FieldValue(id, row, "transp")))
      && (forall j :: 0 <= j < |Blanks| && Blanks[j].0 in fields ==> out[Blanks[j].0] == Blanks[j].1)
      && (forall j :: 0 <= j < |Blanks| && Blanks[j].0 + RecNameSuffix in fields ==>
            out[Blanks[j].0 + RecNameSuffix] == Text(""))
      && (forall f :: f in out && Untouched(f) ==> out[f] == FieldValue(id, row, f))
  {
    var id := ids[i];
    var rec := Project(id, rows[id], fields + Names(Internal));
    ProjectStripped(id, rows[id], fields);
    var writable, toRemove := Writable(rows, cals, rule, ids), Names(Internal) - fields;
    FinishKeys(id, rec, writable, toRemove);
    FinishRedacted(id, rec, writable, toRemove);
  }

  /** The vevent of a record `read` redacts (calendar.py:54-60, 74-78): an
      empty one is returned as stored; a non-empty one has its summary, when
      it has one, carry the label, the seven content sub-fields removed, and
      every other sub-field kept. */
  lemma RecordAtRedactedVevent(rows: map<int, Record>, cals: map<int, Calendar>, rule: Option<Domain>, ids: seq<int>,
                               fields: set<string>, i: int)
    requires 0 <= i < |ids| && forall x :: x in ids ==> x in rows
    requires RedactedAt(rows, cals, rule, ids, i)
    requires RecordAt(rows, cals, rule, ids, fields, i).Success? && "vevent" in fields
    ensures var out := RecordAt(rows, cals, rule, ids, fields, i).value;
      var id, row := ids[i], rows[ids[i]];
      var v := FieldValue(id, row, "vevent");
      && (!Truthy(v) ==> out["vevent"] == v)
      && (Truthy(v) ==>
            && out["vevent"].Doc? && v.Doc?
            && out["vevent"].parts.Keys == v.parts.Keys - NamesOf(Blanks)
            && ("summary" in v.parts ==>
                  "summary" in out["vevent"].parts && out["vevent"].parts["summary"] == Label(FieldValue(id, row, "transp")))
            && (forall k :: k in out["vevent"].parts && k != "summary" ==> out["vevent"].parts[k] == v.parts[k]))
  {
    var id := ids[i];
    var rec := Project(id, rows[id], fields + Names(Internal));
    ProjectStripped(id, rows[id], fields);
    var writable, toRemove := Writable(rows, cals, rule, ids), Names(Internal) - fields;
    FinishKeys(id, rec, writable, toRemove);
    FinishRedacted(id, rec, writable, toRemove);
    KeysNotBlank();
  }

  /** With an empty write rule every requested id is writable
      (calendar.py:101-102): a read of visible ids cannot fail and returns
      the stored values of the requested fields, private or not. */
  lemma ReadWithoutRule(rows: map<int, Record>, cals: map<int, Calendar>, user: int,
                        arg: IdArg, fieldsNames: Option<seq<string>>)
    requires AllVisible(rows, cals, user, AsList(arg))
    ensures var out := ReadOutcome(rows, cals, user, None, arg, fieldsNames);
      && out.Success?
      && |RecordsOf(out.value)| == |AsList(arg)|
      && forall i, f :: 0 <= i < |AsList(arg)| && f in RecordsOf(out.value)[i] ==>
           RecordsOf(out.value)[i][f] == FieldValue(AsList(arg)[i], rows[AsList(arg)[i]], f)
  {
    var ids, fields := AsList(arg), Names(Requested(fieldsNames));
    ReadRecords(rows, cals, user, None, arg, fieldsNames);
    forall i | 0 <= i < |ids|
      ensures RecordAt(rows, cals, None, ids, fields, i).Success?
      ensures var out := RecordAt(rows, cals, None, ids, fields, i).value;
        forall f :: f in out ==> out[f] == FieldValue(ids[i], rows[ids[i]], f)
    {
      assert ids[i] in Writable(rows, cals, None, ids);
      RecordAtPlain(rows, cals, None, ids, fields, i);
    }
  }
}
