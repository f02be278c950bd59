# calendar.event access control and redaction, in Dafny

This project models the `calendar.event` model of Tryton's calendar module
(`calendar.py`). That model wraps the generic ORM's `search`, `create`,
`read`, `write` and `delete` with three mechanisms:

- **Confidentiality filter.** When a user is in scope, `search` ANDs the
  caller's domain with a rule. The rule hides a confidential event from
  everyone except its calendar's owner and the calendar's `write_users`.
- **Redaction of private events.** `read` blanks out a private event the
  reader may not write, both in the returned dictionary and in its embedded
  vevent (`_clean_private`). It also fetches `classification`, `calendar`
  and `transp` internally, and strips them again when the caller did not
  ask for them.
- **Count checks.** Each of `read`, `write` and `delete` compares the number
  of distinct requested ids with the number the filtered search can see,
  and rejects the call with `access_error` on a mismatch. `write` checks
  again after the store write. `create` checks that the new id is found
  exactly once.

How the model represents the system:

- The store is a map from id to row, where a row is a record dictionary with a
  missing key meaning a NULL column. Calendars have an owner and a set of
  `write_users`. The acting user is an integer, and 0 (root, false in
  Python) means no user is in scope.
- The write rule of `ir.rule` is an optional domain; `None` means its SQL
  fragment is empty.
- A raised user error is a `Failure` result.
- An embedded vevent that parses is a map of named sub-fields
  (`Doc`). Any other non-empty vevent value stands for a blob that does not
  parse.

Modules:

- `values.dfy`: values, records, truthiness, results.
- `visibility.dfy`: domains, SQL comparison semantics, the filter and
  `Visible`, its reference definition.
- `redaction.dfy`: `_clean_private` as a method, proved against the function
  `Cleaned`.
- `guards.dfy`: the count check, and the chunked lookup of writable ids.
- `reading.dfy`: field bookkeeping and post-processing in `read`, and
  `read`'s outcome as a function with its properties.
- `event.dfy`: the `Event` class holding the table, with `Create`, `Write`,
  `Delete`, `Read` and `WritableIds`.
- `scenarios.dfy`: worked cases with one calendar, a private event and a
  confidential event.

Behaviour of calendar.py worth knowing:

- The companion key that is cleared is `<field>.rec_name` (calendar.py:72-73).
- A field or companion key is reset only if the record already has it
  (calendar.py:70, 72).
- `location` is reset to `False`, and `categories` to `[]` (calendar.py:64-65).
- The checks around `write` and `delete` use read visibility (the
  confidentiality filter), not the write rule. So a user who may not write
  a private event still passes both checks on it (`Scenarios.OtherWritesPrivate`).
  Whether the store then refuses the write is decided by the ORM's own
  rules, which are not part of this model.
- An event whose classification is NULL satisfies neither branch of the
  rule (SQL `!=` is never true on NULL), so a user in scope never sees it.

## Model

| member | source | states |
|---|---|---|
| Visibility.ConfidentialRuleIff | calendar.py:23-33 | the added rule holds of an event iff its classification is non-NULL and not confidential, or it is confidential and its calendar's owner is the user or the user is in `write_users` |
| Visibility.FilteredDomainIff | calendar.py:21-33 | the domain `search` passes on holds iff the caller's domain holds and the event is `Visible`; with user 0 the domain is unchanged |
| Visibility.SearchIsVisibleSubset | calendar.py:19-35 | `search` finds exactly the events matching the caller's domain that are visible; a subset of the unfiltered result, equal to it when no user is in scope |
| Visibility.ConfidentialHidden | calendar.py:21-35 | a confidential event is never found by a user in scope who neither owns its calendar nor is among its `write_users`, whatever the domain |
| Redaction.Label | calendar.py:14-17 | 'transparent' is labelled 'Free', 'opaque' 'Busy' |
| Redaction.CleanPrivate | calendar.py:43-78 | `_clean_private` step by step returns exactly `Cleaned(record, transp)`: the parse failure, or the cleaned record |
| Redaction.Reassembled | calendar.py:50-78 | the summary update, the parsed vevent, the reset loop's result and the vevent written back together make the cleaned record |
| Redaction.ResetContent | calendar.py:62-76 | the loop over the seven fields keeps the record's keys, gives each key its value after all resets, and removes exactly the seven names from the parsed vevent |
| Redaction.ResetStep | calendar.py:70-73 | one pass of the loop sets the field to its blank and the companion key to '' and leaves other keys |
| Redaction.DropStep | calendar.py:74-76 | one pass of the loop deletes that sub-field from the parsed vevent |
| Redaction.ResetByUntouched | calendar.py:62-73 | a key that is neither a listed field nor a companion key keeps its value |
| Redaction.ResetByField | calendar.py:70-71 | a listed field ends up with its own blank value |
| Redaction.ResetByRecName | calendar.py:72-73 | a companion key `<field>.rec_name` ends up as '' |
| Redaction.BlanksWellFormed | calendar.py:62-69 | the seven field names are distinct and contain no '.', so no companion key is a field name |
| Redaction.CleanedRecord | calendar.py:50-73 | cleaning fails iff the vevent is non-empty and unparseable; otherwise no key is added or removed, the summary is the label for `transp`, each present field is blank, each present companion key is '', every other key except 'vevent' is unchanged |
| Redaction.CleanedVevent | calendar.py:54-78 | a non-empty vevent comes back with its summary (if any) set to the label, the seven sub-fields removed and all others kept; an empty one is left as it was |
| Redaction.CleanedIdempotent | calendar.py:43-78 | cleaning a cleaned record changes nothing |
| Guards.SearchIds | calendar.py:87-88 | the search on `('id', 'in', ids)` finds the distinct requested ids that exist and are visible |
| Guards.GuardIff | calendar.py:87-89 | the count check passes iff every requested id exists and is visible; duplicates do not matter |
| Guards.CountNewId | calendar.py:39 | the count for the new id is 1 if the new row is visible, else 0 |
| Guards.ChunksCover | calendar.py:94-95 | the slices concatenate to the id list, so each id lies in exactly one slice, in order |
| Guards.ChunksBounded | calendar.py:94-95 | no slice is empty or longer than `IN_MAX` |
| Guards.WritableRequested | calendar.py:91-103 | writable ids are requested ids; with an empty rule they are all requested ids |
| Reading.ExtendFields | calendar.py:105-112 | the store's field list starts with the caller's list, appends only missing internal fields, covers both, and the fields to strip are the internal ones not requested |
| Reading.StoreReadKeys | calendar.py:113 | one record per requested id, each holding the fields asked for and 'id' |
| Reading.PostProcess | calendar.py:114-119 | the loop over the store's records returns `FinishAll`: each record redacted when private and not writable, then stripped, or the parse failure |
| Reading.FinishFails | calendar.py:115-117 | one record fails only when it is redacted and its vevent does not parse, and then with a parse error |
| Reading.FinishKeys | calendar.py:114-119 | a finished record keeps all keys except those stripped, and its id |
| Reading.ProjectStripped | calendar.py:105-119 | after stripping, the keys are exactly the requested fields and 'id' |
| Reading.FinishAllAt | calendar.py:114-119 | the whole list fails iff one record fails; otherwise record i is the finish of the i-th store record |
| Reading.ReadDenied | calendar.py:87-89 | `read` gives access_error iff some requested id is missing or invisible; no other failure is an access error |
| Reading.ReadRecords | calendar.py:113-122 | with all ids visible, `read` gives one record per id in order, fails (parse error) iff one of them does, and gives one record for a scalar id, a list otherwise |
| Reading.RecordAtShape | calendar.py:113-119 | a record fails iff it is redacted, 'vevent' was requested and the stored vevent is non-empty and unparseable; otherwise it holds the requested fields and its own id |
| Reading.RecordAtPlain | calendar.py:114-119 | a record that is not redacted carries the stored values |
| Reading.FinishRedacted | calendar.py:115-119 | a redacted record keeps, after stripping, the values `_clean_private` leaves |
| Reading.RecordAtRedacted | calendar.py:115-117 | a redacted record has the label as summary, the blanks as content fields, '' as companion keys and the stored value elsewhere |
| Reading.RecordAtRedactedVevent | calendar.py:115-117 | a redacted record's non-empty vevent has the label as summary, lacks the seven sub-fields and keeps the rest; an empty one is returned as stored |
| Reading.ReadWithoutRule | calendar.py:101-102 | with an empty write rule, a read of visible ids never fails and returns stored values, private or not |
| CalendarEvent.Updated | calendar.py:130 | the store write keeps the table's ids |
| CalendarEvent.VisibleDependsOnAccessFields | calendar.py:21-33 | visibility depends on the classification and calendar columns only |
| CalendarEvent.WriteKeepsVisibility | calendar.py:127-133 | a write touching neither classification nor calendar keeps visible ids visible, so the second check passes if the first did |
| CalendarEvent.Event.Create | calendar.py:37-41 | the row is inserted under the next id; the call succeeds with that id iff the row is visible, and the insert stays otherwise |
| CalendarEvent.Event.Write | calendar.py:124-134 | if an id is missing or invisible: access_error, table unchanged; else the table is updated and the result is true iff the ids are still all visible, access_error otherwise |
| CalendarEvent.Event.Delete | calendar.py:136-142 | if an id is missing or invisible: access_error, table unchanged; else exactly the requested rows are removed and the result is true |
| CalendarEvent.Event.WritableIds | calendar.py:91-103 | the chunked loop computes `Writable`, visiting the slices `Chunks(ids, IN_MAX)` |
| CalendarEvent.Event.Read | calendar.py:80-122 | the method computes `ReadOutcome` |
| Scenarios.LunchVisible | calendar.py:21-33 | the private event is visible to every user, whatever the user id |
| Scenarios.LunchWritable | calendar.py:91-100 | under a stand-in write rule `RuleFor` (admit events on calendars the user owns or may write; not the program's `ir.rule`), the calendar owner may write the event and another user may not |
| Scenarios.OtherRecord | calendar.py:114-119 | the other user's record has '' as description and 'Busy' as summary |
| Scenarios.OtherRecordValues | calendar.py:115-117 | the description and summary of that record are the blank and the label |
| Scenarios.OwnerRecord | calendar.py:114-119 | the owner's record carries the stored description and summary |
| Scenarios.OtherReadsPrivate | calendar.py:80-122 | another user reading the private opaque event gets description '' and summary 'Busy' |
| Scenarios.OwnerReadsPrivate | calendar.py:80-122 | the owner reading it gets the stored description and summary |
| Scenarios.ConfidentialSearch | calendar.py:19-35 | an unconditioned search finds the confidential event for the owner and not for the other user |
| Scenarios.OtherWritesPrivate | calendar.py:124-134 | both checks of `write` pass for a user who may see but not write a private event |

## Left out

- vobject parsing and serialization (calendar.py:58, 78). A vevent that
  parses is a `Doc` map of sub-fields, and serializing it back is the
  identity. A parse failure is the `ParseError` result, raised for any
  non-empty vevent value that is not a `Doc`.
- Redaction.CleanedVevent, Reading.RecordAtRedactedVevent: sub-fields are
  named by the very strings calendar.py:62-69 passes to `hasattr` and
  `delattr` ('attendees', 'alarms', ...). vobject itself is not part of this
  model. If it names a VEVENT's children by their iCalendar names
  ('attendee', 'valarm'), then in the program the lookups for 'attendees'
  and 'alarms' find nothing. The ATTENDEE lines and VALARM blocks would then
  stay in a redacted vevent. The two lemmas prove that these sub-fields are
  removed only under the naming the model assumes.
- The SQL of the writable-id lookup (calendar.py:96-100): `reduce_ids`, the
  query text, the cursor. One slice's query is `RuleIds`, the ids of the
  slice whose row satisfies the rule domain. `ir.rule.domain_get` is the
  `writeRule` parameter. `cursor.IN_MAX` is the `inMax` field, assumed
  positive.
- The generic ORM behind the `super()` calls. It is modelled as the map of
  rows:
  - `create` inserts under a fresh id;
  - `write` merges the values into each row;
  - `delete` removes the rows;
  - `read` returns one dictionary per requested id, in order, with the
    requested fields and 'id'.
  
  Store defaults, field types, function fields, the ORM's own access rules
  and its handling of ids that do not exist are not modelled.
- CalendarEvent.Event.Write, CalendarEvent.Event.Delete: the source returns
  whatever `super().write` and `super().delete` return (calendar.py:130,
  134, 142). The model takes that result to be `True`, so both methods
  return `Success(true)` once their checks pass.
- `offset`, `limit`, `order`, `count` and `query_string` of `search`. The
  model returns the set of matching ids, and its size stands for the count.
- Dotted-path domain leaves other than `calendar.owner` and
  `calendar.write_users`. Domain operators other than `=`, `!=` and `in`.
- The translation machinery of `raise_user_error`. The label is the fixed
  table of calendar.py:14-17, and an unknown key stands for itself.
  `access_error` is the `AccessError` result, without its message.
- Transaction rollback after a failed post-check. This code performs none,
  and the model keeps the insert or write applied.
- The Python 2 `int`/`long` dispatch. `IdArg` distinguishes a scalar id from
  a list.
- Pool registration (calendar.py:144) and `__init__` (calendar.py:12-17),
  beyond the message table.
- `Event.Read`: the caller's `fields_names` list is a sequence value, so the
  guarantee that it is copied rather than mutated holds by construction. It
  is not stated as a separate property.
