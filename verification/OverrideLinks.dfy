// The override rows of the schedule and the links between them. A rescheduled session leaves a
// cancelled override behind, and the override that replaces it links back to that cancel.
module OverrideLinks {
  import opened Prelude
  import opened Schedule

  type Rows = map<nat, Override>

  predicate Live(rows: Rows, id: nat) {
    id in rows && !rows[id].deleted
  }

  predicate Links(rows: Rows, a: nat, b: nat) {
    Live(rows, a) && rows[a].link == Some(b)
  }

  predicate HasKey(rows: Rows, id: nat, eventId: nat, rule: OverrideRule) {
    Live(rows, id) && rows[id].eventId == eventId && rows[id].rule == rule
  }

  predicate SameKey(rows: Rows, a: nat, b: nat) {
    Live(rows, a) && HasKey(rows, b, rows[a].eventId, rows[a].rule)
  }

  /** The partial unique index on (event_id, override_rrule). */
  predicate UniqueKeys(rows: Rows) {
    forall a, b | a in rows && b in rows && SameKey(rows, a, b) :: a == b
  }

  ghost predicate LinksLand(rows: Rows) {
    forall a, b | Links(rows, a, b) :: Live(rows, b) && rows[b].cancelled
  }

  ghost predicate OneTarget(rows: Rows) {
    forall a, b, c | Links(rows, a, c) && Links(rows, b, c) :: rows[a].cancelled || rows[b].cancelled || a == b
  }

  ghost predicate LinkPath(rows: Rows, p: seq<nat>) {
    |p| > 0 && forall i | 0 <= i < |p| - 1 :: Links(rows, p[i], p[i + 1])
  }

  ghost predicate Acyclic(rows: Rows) {
    forall p | LinkPath(rows, p) && |p| > 1 :: p[0] != p[|p| - 1]
  }

  ghost predicate Consistent(rows: Rows) {
    UniqueKeys(rows) && LinksLand(rows) && OneTarget(rows) && Acyclic(rows)
  }

  /** No live override other than `id` itself links to `id`. */
  ghost predicate Unlinked(rows: Rows, id: nat) {
    forall a | Links(rows, a, id) :: a == id
  }

  ghost predicate NoOtherTarget(rows: Rows, id: nat, parent: nat) {
    forall a | Links(rows, a, parent) :: a == id || rows[a].cancelled
  }

  /** Soft deletion: only rows that are still live change. */
  function SoftDelete(rows: Rows, ids: set<nat>): Rows {
    map id | id in rows :: if id in ids then rows[id].(deleted := true) else rows[id]
  }

  /** What the new content of one row must satisfy for the table to stay consistent. */
  ghost predicate PutFits(rows: Rows, id: nat, row: Override) {
    && (row.link.Some? ==> row.link.value != id && Live(rows, row.link.value) && rows[row.link.value].cancelled)
    && (row.link.Some? && !row.cancelled ==> NoOtherTarget(rows, id, row.link.value))
    && (!row.cancelled ==> Unlinked(rows, id))
  }

  lemma PutKeepsAcyclic(rows: Rows, id: nat, row: Override)
    requires Acyclic(rows) && PutFits(rows, id, row)
    requires Unlinked(rows, id) || (Live(rows, id) && rows[id].link == row.link)
    ensures Acyclic(rows[id := row])
  {
    var rows' := rows[id := row];
    forall p | LinkPath(rows', p) && |p| > 1
      ensures p[0] != p[|p| - 1]
    {
      if p[0] == p[|p| - 1] {
        forall i | 0 <= i < |p| - 1
          ensures Links(rows, p[i], p[i + 1])
        {
          assert Links(rows', p[i], p[i + 1]);
          if p[i] == id && !(Live(rows, id) && rows[id].link == row.link) {
            var before := if i == 0 then |p| - 2 else i - 1;
            assert Links(rows', p[before], p[before + 1]) && p[before + 1] == id;
            assert p[before] != id ==> Links(rows, p[before], id);
            assert false;
          }
        }
        assert LinkPath(rows, p);
        assert false;
      }
    }
  }

  lemma ConsistentPutFits(rows: Rows, id: nat, row: Override)
    requires Consistent(rows[id := row]) && !row.deleted
    requires row.link == Some(id) ==> !row.cancelled
    ensures PutFits(rows, id, row)
  {
    var rows' := rows[id := row];
    assert row.link.Some? ==> Links(rows', id, row.link.value);
    forall a, b | a != id && Links(rows, a, b)
      ensures Links(rows', a, b)
    {
    }
  }

  /** Writing one row keeps the table consistent exactly when the row fits. */
  lemma PutConsistent(rows: Rows, id: nat, row: Override)
    requires Consistent(rows) && !row.deleted
    requires forall a | HasKey(rows, a, row.eventId, row.rule) :: a == id
    requires !row.cancelled || Unlinked(rows, id) || (Live(rows, id) && rows[id].link == row.link)
    requires row.link == Some(id) ==> !row.cancelled
    ensures Consistent(rows[id := row]) <==> PutFits(rows, id, row)
  {
    var rows' := rows[id := row];
    if Consistent(rows') {
      ConsistentPutFits(rows, id, row);
    }
    if PutFits(rows, id, row) {
      PutKeepsAcyclic(rows, id, row);
      forall a, b | SameKey(rows', a, b)
        ensures a == b
      {
        assert a != id && b != id ==> SameKey(rows, a, b);
        assert a == id && b != id ==> HasKey(rows, b, row.eventId, row.rule);
        assert a != id && b == id ==> HasKey(rows, a, row.eventId, row.rule);
      }
      assert forall a, b | a != id :: Links(rows', a, b) ==> Links(rows, a, b);
      assert LinksLand(rows');
      assert OneTarget(rows');
    }
  }

  /** Deleting rows keeps the table consistent when no survivor links to a deleted row. */
  lemma DeleteConsistent(rows: Rows, ids: set<nat>)
    requires Consistent(rows)
    requires forall a, b | Links(rows, a, b) && b in ids :: a in ids
    ensures Consistent(SoftDelete(rows, ids))
  {
    var rows' := SoftDelete(rows, ids);
    assert forall a, b :: Links(rows', a, b) ==> Links(rows, a, b);
    forall p | LinkPath(rows', p) && |p| > 1
      ensures p[0] != p[|p| - 1]
    {
      assert forall i | 0 <= i < |p| - 1 :: Links(rows', p[i], p[i + 1]);
      assert LinkPath(rows, p);
    }
    assert forall a, b :: SameKey(rows', a, b) ==> SameKey(rows, a, b);
  }
}
