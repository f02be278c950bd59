/** The access checks `read`, `write`, `delete` and `create` run through
    `Event.search`, and the chunked lookup of writable ids in `read`. */
module Guards {
  import opened Values
  import opened Visibility

  /** The `ids` argument: a single integer id or a list of ids. */
  datatype IdArg = OneId(id: int) | IdList(ids: seq<int>)

  /** A scalar id becomes a one-element list (calendar.py:84-86, 125-126, 137-138). */
  function AsList(arg: IdArg): (ids: seq<int>)
    ensures arg.OneId? ==> ids == [arg.id]
    ensures arg.IdList? ==> ids == arg.ids
  {
    match arg
    case OneId(id) => [id]
    case IdList(ids) => ids
  }

  function IdValues(ids: seq<int>): seq<Value>
  {
    seq(|ids|, i requires 0 <= i < |ids| => Int(ids[i]))
  }

  /** The domain [('id', 'in', ids)]. */
  function IdsDomain(ids: seq<int>): Domain
  {
    Clause("id", In, List(IdValues(ids)))
  }

  /** The number of distinct ids, `len({}.fromkeys(ids))`. */
  function Distinct(ids: seq<int>): set<int>
  {
    set x | x in ids
  }

  /** The check of calendar.py:87-89, 127-133 and 139-141: as many distinct
      ids as `Event.search` can count among them. */
  predicate Guard(rows: map<int, Record>, cals: map<int, Calendar>, user: int, ids: seq<int>)
  {
    |Distinct(ids)| == |Search(rows, cals, user, IdsDomain(ids))|
  }

  /** The rows the user may see. */
  predicate AllVisible(rows: map<int, Record>, cals: map<int, Calendar>, user: int, ids: seq<int>)
  {
    forall x :: x in ids ==> x in rows && Visible(rows[x], cals, user)
  }

  lemma SubsetSameSize(a: set<int>, b: set<int>)
    requires a <= b && |a| == |b|
    ensures a == b
  {
    assert b == a + (b - a);
    assert a * (b - a) == {};
    assert |b - a| == 0;
  }

  /** What `Event.search` finds among `ids`. */
  lemma SearchIds(rows: map<int, Record>, cals: map<int, Calendar>, user: int, ids: seq<int>)
    ensures Search(rows, cals, user, IdsDomain(ids))
         == set x | x in Distinct(ids) && x in rows && Visible(rows[x], cals, user)
  {
    forall x | x in rows
      ensures Holds(IdsDomain(ids), x, rows[x], cals) <==> x in ids
    {
      if x in ids {
        var i :| 0 <= i < |ids| && ids[i] == x;
        assert IdValues(ids)[i] == Int(x);
      }
    }
    SearchIsVisibleSubset(rows, cals, user, IdsDomain(ids));
  }

  /** The count check passes exactly when every requested id exists and is
      visible to the user; duplicates do not matter. */
  lemma GuardIff(rows: map<int, Record>, cals: map<int, Calendar>, user: int, ids: seq<int>)
    ensures Guard(rows, cals, user, ids) <==> AllVisible(rows, cals, user, ids)
  {
    SearchIds(rows, cals, user, ids);
    var found := Search(rows, cals, user, IdsDomain(ids));
    assert found <= Distinct(ids);
    if Guard(rows, cals, user, ids) {
      SubsetSameSize(found, Distinct(ids));
      forall x | x in ids ensures x in rows && Visible(rows[x], cals, user) {
        assert x in Distinct(ids);
      }
    }
    if AllVisible(rows, cals, user, ids) {
      forall x | x in Distinct(ids) ensures x in found { }
      assert Distinct(ids) <= found;
      assert found == Distinct(ids);
    }
  }

  /** The count of `create`'s check (calendar.py:39): 1 when the new row is
      visible, 0 when it is not. */
  lemma CountNewId(rows: map<int, Record>, cals: map<int, Calendar>, user: int, id: int)
    requires id in rows
    ensures |Search(rows, cals, user, Clause("id", Eq, Int(id)))|
         == if Visible(rows[id], cals, user) then 1 else 0
  {
    var found := Search(rows, cals, user, Clause("id", Eq, Int(id)));
    SearchIsVisibleSubset(rows, cals, user, Clause("id", Eq, Int(id)));
    assert found == if Visible(rows[id], cals, user) then {id} else {};
  }

  /** The slices `read` cuts the ids into: `ids[i:i + IN_MAX]` for
      i in range(0, len(ids), IN_MAX). */
  function Chunks(ids: seq<int>, size: int): seq<seq<int>>
    requires size > 0
    decreases |ids|
  {
    if ids == [] then []
    else if |ids| <= size then [ids]
    else [ids[..size]] + Chunks(ids[size..], size)
  }

  function Flatten(chunks: seq<seq<int>>): seq<int>
  {
    if chunks == [] then [] else chunks[0] + Flatten(chunks[1..])
  }

  /** Every id falls in exactly one slice, in order. */
  lemma {:induction false} ChunksCover(ids: seq<int>, size: int)
    requires size > 0
    ensures Flatten(Chunks(ids, size)) == ids
    decreases |ids|
  {
    if |ids| > size {
      ChunksCover(ids[size..], size);
      var chunks := Chunks(ids, size);
      assert chunks == [ids[..size]] + Chunks(ids[size..], size);
      assert chunks[0] == ids[..size] && chunks[1..] == Chunks(ids[size..], size);
      assert Flatten(chunks) == ids[..size] + ids[size..];
      assert ids == ids[..size] + ids[size..];
    } else if ids != [] {
      var chunks := Chunks(ids, size);
      assert chunks == [ids];
      assert chunks[1..] == [];
    }
  }

  /** No slice is empty or longer than the chunk size. */
  lemma {:induction false} ChunksBounded(ids: seq<int>, size: int)
    requires size > 0
    ensures forall c :: c in Chunks(ids, size) ==> 0 < |c| <= size
    decreases |ids|
  {
    if |ids| > size {
      ChunksBounded(ids[size..], size);
    }
  }

  /** What the SQL query of one slice returns: the ids of the slice whose
      row exists and satisfies the write rule. */
  function RuleIds(rows: map<int, Record>, cals: map<int, Calendar>, rule: Domain, sub: seq<int>): set<int>
  {
    set x | x in sub && x in rows && Holds(rule, x, rows[x], cals)
  }

  /** `writable_ids` of calendar.py:91-103: all requested ids when the write
      rule is empty, otherwise those the rule admits. */
  function Writable(rows: map<int, Record>, cals: map<int, Calendar>, rule: Option<Domain>, ids: seq<int>): set<int>
  {
    if rule.None? then Distinct(ids) else RuleIds(rows, cals, rule.value, ids)
  }

  /** Writable ids are always requested ids. */
  lemma WritableRequested(rows: map<int, Record>, cals: map<int, Calendar>, rule: Option<Domain>, ids: seq<int>)
    ensures Writable(rows, cals, rule, ids) <= Distinct(ids)
    ensures rule.None? ==> Writable(rows, cals, rule, ids) == Distinct(ids)
  {
  }
}
