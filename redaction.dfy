/** `Event._clean_private`: how a private event is blanked out, in the
    record dictionary and in its embedded vevent, for a reader who may not
    write it. */
module Redaction {
  import opened Values

  /** The message table of the model (calendar.py:14-17). */
  const Messages: map<string, string> := map["transparent" := "Free", "opaque" := "Busy"]

  /** The label for a time transparency. A key missing from the message
      table stands for itself, as the message lookup does. */
  function Label(transp: Value): (shown: Value)
    ensures transp == Text("transparent") ==> shown == Text("Free")
    ensures transp == Text("opaque") ==> shown == Text("Busy")
  {
    if transp.Text? && transp.s in Messages then Text(Messages[transp.s]) else transp
  }

  /** The content fields and the blank value each is reset to, in the order
      calendar.py:62-69 visits them. */
  const Blanks: seq<(string, Value)> := [
    ("description", Text("")),
    ("categories", List([])),
    ("location", Bool(false)),
    ("status", Text("")),
    ("organizer", Text("")),
    ("attendees", List([])),
    ("alarms", List([]))]

  const RecNameSuffix: string := ".rec_name"

  /** The field names of a blank table. */
  function NamesOf(blanks: seq<(string, Value)>): set<string>
  {
    set p | p in blanks :: p.0
  }

  /** The companion keys of a blank table. */
  function RecNamesOf(blanks: seq<(string, Value)>): set<string>
  {
    set p | p in blanks :: p.0 + RecNameSuffix
  }

  /** The value key `k` holds after the blanks in `blanks` have been applied,
      one after the other, to a record in which it held `v`. */
  function ResetBy(k: string, v: Value, blanks: seq<(string, Value)>): Value
    decreases |blanks|
  {
    if blanks == [] then v
    else
      var last := blanks[|blanks| - 1];
      if k == last.0 then last.1
      else if k == last.0 + RecNameSuffix then Text("")
      else ResetBy(k, v, blanks[..|blanks| - 1])
  }

  /** The embedded vevent after redaction: its summary, when it has one,
      carries the label, and the seven content sub-fields are gone. */
  function CleanedDoc(parts: map<string, Value>, tag: Value, blanks: seq<(string, Value)>): map<string, Value>
  {
    (if "summary" in parts then parts["summary" := tag] else parts) - NamesOf(blanks)
  }

  /** A vevent value `_clean_private` cannot parse: non-empty, yet not a document. */
  predicate Unparseable(record: Record)
  {
    "vevent" in record && Truthy(record["vevent"]) && !record["vevent"].Doc?
  }

  /** The record `_clean_private` leaves behind, or the parse failure it raises. */
  function Cleaned(record: Record, transp: Value): Result<Record>
  {
    if Unparseable(record) then Failure(ParseError) else Success(CleanedWith(record, Label(transp), Blanks))
  }

  /** The record with its summary replaced by `tag`, its vevent cleaned and
      its content fields and companion keys reset. */
  function CleanedWith(record: Record, tag: Value, blanks: seq<(string, Value)>): Record
  {
    map k | k in record ::
      if k == "summary" then tag
      else if k == "vevent" && Truthy(record[k]) && record[k].Doc? then Doc(CleanedDoc(record[k].parts, tag, blanks))
      else ResetBy(k, record[k], blanks)
  }

  /** `_clean_private` (calendar.py:43-78): the summary is replaced, the
      vevent is parsed, the content fields are reset (`ResetContent`) and the
      edited vevent is stored back. */
  method CleanPrivate(record: Record, transp: Value) returns (r: Result<Record>)
    ensures r == Cleaned(record, transp)
  {
    var summary := Label(transp);
    var rec := record;
    if "summary" in rec {
      rec := rec["summary" := summary];
    }
    var vevent: Option<map<string, Value>> := None;
    if "vevent" in rec && Truthy(rec["vevent"]) {
      if !rec["vevent"].Doc? {
        return Failure(ParseError);
      }
      var parts := rec["vevent"].parts;
      if "summary" in parts {
        parts := parts["summary" := summary];
      }
      vevent := Some(parts);
    }
    ghost var summarized := rec;
    ghost var parsed := vevent;
    var reset;
    reset, vevent := ResetContent(rec, vevent, Blanks);
    rec := reset;
    if vevent.Some? {
      rec := rec["vevent" := Doc(vevent.value)];
    }
    KeysNotBlank();
    Reassembled(record, summary, Blanks, summarized, parsed, reset, vevent);
    return Success(rec);
  }

  /** The pieces `CleanPrivate` puts together make up `Cleaned`: `summarized`
      is the record once its summary is replaced, `parsed` the vevent once its
      summary is replaced, `reset` and `doc` what the content loop leaves. */
  lemma Reassembled(record: Record, tag: Value, blanks: seq<(string, Value)>, summarized: Record, parsed: Option<map<string, Value>>,
                    reset: Record, doc: Option<map<string, Value>>)
    requires !Unparseable(record)
    requires "summary" !in NamesOf(blanks) && "summary" !in RecNamesOf(blanks)
    requires "vevent" !in NamesOf(blanks) && "vevent" !in RecNamesOf(blanks)
    requires summarized == if "summary" in record then record["summary" := tag] else record
    requires parsed == if "vevent" in record && Truthy(record["vevent"])
      then Some(var p := record["vevent"].parts; if "summary" in p then p["summary" := tag] else p)
      else None
    requires reset.Keys == summarized.Keys
    requires forall k :: k in reset ==> reset[k] == ResetBy(k, summarized[k], blanks)
    requires doc == if parsed.Some? then Some(parsed.value - NamesOf(blanks)) else None
    ensures (if doc.Some? then reset["vevent" := Doc(doc.value)] else reset) == CleanedWith(record, tag, blanks)
  {
    var rec := if doc.Some? then reset["vevent" := Doc(doc.value)] else reset;
    var want := CleanedWith(record, tag, blanks);
    if "summary" in record {
      ResetByUntouched("summary", tag, blanks);
    }
    if "vevent" in record {
      ResetByUntouched("vevent", record["vevent"], blanks);
    }
    forall k | k in record ensures rec[k] == want[k] {
      if k == "vevent" && parsed.Some? {
        assert rec[k] == Doc(parsed.value - NamesOf(blanks));
      } else {
        assert rec[k] == ResetBy(k, summarized[k], blanks);
      }
    }
    assert rec.Keys == want.Keys;
  }

  /** The loop of calendar.py:62-76 over a blank table: each field present
      is reset, each companion key present is blanked, and each field is
      deleted from the parsed vevent. */
  method ResetContent(record: Record, vevent: Option<map<string, Value>>, blanks: seq<(string, Value)>)
    returns (rec: Record, doc: Option<map<string, Value>>)
    ensures rec.Keys == record.Keys
    ensures forall k :: k in rec ==> rec[k] == ResetBy(k, record[k], blanks)
    ensures doc == if vevent.Some? then Some(vevent.value - NamesOf(blanks)) else None
  {
    rec, doc := record, vevent;
    var i := 0;
    assert NamesOf(blanks[..0]) == {};
    assert vevent.Some? ==> vevent.value - {} == vevent.value;
    while i < |blanks|
      invariant 0 <= i <= |blanks|
      invariant rec.Keys == record.Keys
      invariant forall k :: k in rec ==> rec[k] == ResetBy(k, record[k], blanks[..i])
      invariant doc == if vevent.Some? then Some(vevent.value - NamesOf(blanks[..i])) else None
    {
      var field, value := blanks[i].0, blanks[i].1;
      ghost var before := rec;
      if field in rec {
        rec := rec[field := value];
      }
      if field + RecNameSuffix in rec {
        rec := rec[field + RecNameSuffix := Text("")];
      }
      ResetStep(record, before, rec, blanks, i);
      ghost var kept := doc;
      if doc.Some? && field in doc.value {
        doc := Some(doc.value - {field});
      }
      DropStep(vevent, kept, doc, blanks, i);
      i := i + 1;
    }
    assert blanks[..i] == blanks;
  }

  /** One pass of the loop: the blank `blanks[i]` applied after those before it. */
  lemma ResetStep(record: Record, rec: Record, next: Record, blanks: seq<(string, Value)>, i: int)
    requires 0 <= i < |blanks|
    requires forall k :: k in rec ==> k in record && rec[k] == ResetBy(k, record[k], blanks[..i])
    requires next.Keys == rec.Keys
    requires forall k :: k in next ==>
      next[k] == if k == blanks[i].0 then blanks[i].1 else if k == blanks[i].0 + RecNameSuffix then Text("") else rec[k]
    ensures forall k :: k in next ==> next[k] == ResetBy(k, record[k], blanks[..i + 1])
  {
    assert blanks[..i + 1][..i] == blanks[..i];
  }

  /** One pass of the loop on the parsed vevent: the sub-field `blanks[i].0`
      goes too. */
  lemma DropStep(vevent: Option<map<string, Value>>, doc: Option<map<string, Value>>,
                 next: Option<map<string, Value>>, blanks: seq<(string, Value)>, i: int)
    requires 0 <= i < |blanks|
    requires doc == if vevent.Some? then Some(vevent.value - NamesOf(blanks[..i])) else None
    requires next == if doc.Some? && blanks[i].0 in doc.value then Some(doc.value - {blanks[i].0}) else doc
    ensures next == if vevent.Some? then Some(vevent.value - NamesOf(blanks[..i + 1])) else None
  {
    if vevent.Some? {
      NamesOfSnoc(blanks[..i], blanks[i]);
      assert blanks[..i + 1] == blanks[..i] + [blanks[i]];
      RemoveOneMore(vevent.value, NamesOf(blanks[..i]), blanks[i].0);
    }
  }

  lemma NamesOfSnoc(blanks: seq<(string, Value)>, p: (string, Value))
    ensures NamesOf(blanks + [p]) == NamesOf(blanks) + {p.0}
  {
    assert forall q :: q in blanks + [p] <==> q in blanks || q == p;
  }

  lemma RemoveOneMore(m: map<string, Value>, gone: set<string>, k: string)
    ensures (if k in m - gone then (m - gone) - {k} else m - gone) == m - (gone + {k})
  {
  }

  /** A key that is neither a reset field nor a companion key keeps its value. */
  lemma {:induction false} ResetByUntouched(k: string, v: Value, blanks: seq<(string, Value)>)
    requires k !in NamesOf(blanks) && k !in RecNamesOf(blanks)
    ensures ResetBy(k, v, blanks) == v
    decreases |blanks|
  {
    if blanks != [] {
      var init := blanks[..|blanks| - 1];
      assert blanks[|blanks| - 1] in blanks;
      assert NamesOf(init) <= NamesOf(blanks) && RecNamesOf(init) <= RecNamesOf(blanks) by {
        forall p | p in init ensures p in blanks { }
      }
      ResetByUntouched(k, v, init);
    }
  }

  /** 'summary' and 'vevent' are neither blank fields nor companion keys. */
  lemma KeysNotBlank()
    ensures "summary" !in NamesOf(Blanks) && "summary" !in RecNamesOf(Blanks)
    ensures "vevent" !in NamesOf(Blanks) && "vevent" !in RecNamesOf(Blanks)
  {
  }

  /** A blank table whose names are distinct and free of '.', so that no
      companion key is ever a name. */
  predicate WellFormed(blanks: seq<(string, Value)>)
  {
    && (forall i, j :: 0 <= i < j < |blanks| ==> blanks[i].0 != blanks[j].0)
    && (forall i :: 0 <= i < |blanks| ==> '.' !in blanks[i].0)
  }

  lemma BlanksWellFormed()
    ensures WellFormed(Blanks)
  {
  }

  lemma WellFormedPrefix(blanks: seq<(string, Value)>)
    requires WellFormed(blanks) && blanks != []
    ensures WellFormed(blanks[..|blanks| - 1])
  {
    var init := blanks[..|blanks| - 1];
    assert forall i :: 0 <= i < |init| ==> init[i] == blanks[i];
  }

  /** A companion key contains a '.', so it is never a name of a well-formed table. */
  lemma Suffixed(a: string)
    ensures '.' in a + RecNameSuffix
  {
    assert (a + RecNameSuffix)[|a|] == '.';
  }

  lemma SuffixCancels(a: string, b: string)
    requires a + RecNameSuffix == b + RecNameSuffix
    ensures a == b
  {
    assert |a| == |b|;
    assert a == (a + RecNameSuffix)[..|a|];
    assert b == (b + RecNameSuffix)[..|b|];
  }

  /** In a well-formed table, a field ends up with its own blank value. */
  lemma {:induction false} ResetByField(k: string, v: Value, blanks: seq<(string, Value)>, j: int)
    requires WellFormed(blanks) && 0 <= j < |blanks| && k == blanks[j].0
    ensures ResetBy(k, v, blanks) == blanks[j].1
    decreases |blanks|
  {
    var n := |blanks| - 1;
    if j < n {
      Suffixed(blanks[n].0);
      assert blanks[n].0 != k && blanks[n].0 + RecNameSuffix != k;
      WellFormedPrefix(blanks);
      ResetByField(k, v, blanks[..n], j);
    }
  }

  /** In a well-formed table, a companion key ends up as the empty text. */
  lemma {:induction false} ResetByRecName(k: string, v: Value, blanks: seq<(string, Value)>, j: int)
    requires WellFormed(blanks) && 0 <= j < |blanks| && k == blanks[j].0 + RecNameSuffix
    ensures ResetBy(k, v, blanks) == Text("")
    decreases |blanks|
  {
    var n := |blanks| - 1;
    if j < n {
      Suffixed(blanks[j].0);
      assert k != blanks[n].0;
      if k == blanks[n].0 + RecNameSuffix {
        SuffixCancels(blanks[j].0, blanks[n].0);
        assert false;
      }
      WellFormedPrefix(blanks);
      ResetByRecName(k, v, blanks[..n], j);
    }
  }

  /** Resetting twice is resetting once. */
  lemma {:induction false} ResetByIdempotent(k: string, v: Value, blanks: seq<(string, Value)>)
    ensures ResetBy(k, ResetBy(k, v, blanks), blanks) == ResetBy(k, v, blanks)
    decreases |blanks|
  {
    if blanks != [] {
      var init := blanks[..|blanks| - 1];
      var last := blanks[|blanks| - 1];
      if k != last.0 && k != last.0 + RecNameSuffix {
        ResetByIdempotent(k, v, init);
      }
    }
  }

  /** A key `_clean_private` leaves alone. */
  predicate Untouched(k: string)
  {
    k != "summary" && k != "vevent" && k !in NamesOf(Blanks) && k !in RecNamesOf(Blanks)
  }

  /** `_clean_private` on the record dictionary (calendar.py:50-52, 62-73):
      it fails only on a vevent it cannot parse; otherwise no key is added or
      removed, the summary carries the label for `transp`, each content field
      present holds its blank value, each companion key present is the empty
      text, and every other key except 'vevent' keeps its value. */
  lemma CleanedRecord(record: Record, transp: Value)
    ensures Cleaned(record, transp).Failure? <==> Unparseable(record)
    ensures Cleaned(record, transp).Success? ==>
      var r := Cleaned(record, transp).value;
      && r.Keys == record.Keys
      && ("summary" in record ==> r["summary"] == Label(transp))
      && (forall j :: 0 <= j < |Blanks| && Blanks[j].0 in record ==> r[Blanks[j].0] == Blanks[j].1)
      && (forall j :: 0 <= j < |Blanks| && Blanks[j].0 + RecNameSuffix in record ==>
            r[Blanks[j].0 + RecNameSuffix] == Text(""))
      && (forall k :: k in record && Untouched(k) ==> r[k] == record[k])
  {
    if !Unparseable(record) {
      var r := Cleaned(record, transp).value;
      BlanksWellFormed();
      KeysNotBlank();
      forall j | 0 <= j < |Blanks| && Blanks[j].0 in record
        ensures r[Blanks[j].0] == Blanks[j].1
      {
        ResetByField(Blanks[j].0, record[Blanks[j].0], Blanks, j);
      }
      forall j | 0 <= j < |Blanks| && Blanks[j].0 + RecNameSuffix in record
        ensures r[Blanks[j].0 + RecNameSuffix] == Text("")
      {
        ResetByRecName(Blanks[j].0 + RecNameSuffix, record[Blanks[j].0 + RecNameSuffix], Blanks, j);
      }
      forall k | k in record && Untouched(k)
        ensures r[k] == record[k]
      {
        ResetByUntouched(k, record[k], Blanks);
      }
    }
  }

  /** `_clean_private` on the embedded vevent (calendar.py:54-60, 74-78): the
      record's 'vevent' is rewritten only when it is non-empty, and then its
      summary sub-field, if any, carries the label, the seven content
      sub-fields are gone and all other sub-fields are kept. */
  lemma CleanedVevent(record: Record, transp: Value)
    requires Cleaned(record, transp).Success? && "vevent" in record
    ensures var r := Cleaned(record, transp).value;
      if Truthy(record["vevent"]) then
        && r["vevent"].Doc?
        && var before, after := record["vevent"].parts, r["vevent"].parts;
        && after.Keys == before.Keys - NamesOf(Blanks)
        && ("summary" in before ==> "summary" in after && after["summary"] == Label(transp))
        && (forall k :: k in after && k != "summary" ==> after[k] == before[k])
      else r["vevent"] == record["vevent"]
  {
    KeysNotBlank();
    ResetByUntouched("vevent", record["vevent"], Blanks);
  }

  /** Cleaning a cleaned record changes nothing more. */
  lemma CleanedIdempotent(record: Record, transp: Value)
    requires Cleaned(record, transp).Success?
    ensures Cleaned(Cleaned(record, transp).value, transp) == Cleaned(record, transp)
  {
    KeysNotBlank();
    CleanedWithIdempotent(record, Label(transp), Blanks);
  }

  lemma CleanedWithIdempotent(record: Record, tag: Value, blanks: seq<(string, Value)>)
    requires "summary" !in NamesOf(blanks) && "summary" !in RecNamesOf(blanks)
    requires "vevent" !in NamesOf(blanks) && "vevent" !in RecNamesOf(blanks)
    requires !Unparseable(record)
    ensures !Unparseable(CleanedWith(record, tag, blanks))
    ensures CleanedWith(CleanedWith(record, tag, blanks), tag, blanks) == CleanedWith(record, tag, blanks)
  {
    var r := CleanedWith(record, tag, blanks);
    if "vevent" in record {
      ResetByUntouched("vevent", record["vevent"], blanks);
    }
    var rr := CleanedWith(r, tag, blanks);
    forall k | k in r ensures rr[k] == r[k] {
      if k == "vevent" {
        ResetByUntouched("vevent", r[k], blanks);
      } else if k != "summary" {
        ResetByIdempotent(k, record[k], blanks);
      }
    }
    assert rr == r;
  }
}
