/**
 * The `buffers` table and its full-text shadow `buffers_fts` as values
 * (src-tauri/src/db/schema.rs): what each statement of
 * src-tauri/src/db/queries.rs does to the rows, what each synchronisation
 * trigger does to the index, and the proof that the two together keep the
 * index an exact mirror of the `content` column.
 */
module Rows {
  import opened Wrappers
  import opened Text

  /**
   * One row of `buffers`, with SQLite's implicit `rowid`, which is what the
   * external-content index `buffers_fts` is keyed by.
   */
  datatype Row = Row(
    rowid: int,
    content: string,
    createdAt: int,
    updatedAt: int,
    accessedAt: int,
    isArchived: bool,
    isPinned: bool,
    sortOrder: int)

  /** The rows of `buffers`, by the primary key `id`. */
  type Table = map<string, Row>

  /** `buffers_fts`: the content indexed under each rowid. */
  type Index = map<int, string>

  /** The column defaults of `buffers`. */
  const DefaultContent: string := ""
  const DefaultArchived: bool := false
  const DefaultPinned: bool := false
  const DefaultSortOrder: int := 0

  /**
   * The values an `INSERT INTO buffers` supplies; `content` may be left out,
   * and the other defaulted columns always are.
   */
  datatype Insertion = Insertion(
    content: Option<string>,
    createdAt: int,
    updatedAt: int,
    accessedAt: int)

  /** The row an insertion stores under `rowid`: what it leaves out takes its default. */
  function NewRow(rowid: int, values: Insertion): (r: Row)
    ensures r.rowid == rowid && !r.isArchived && !r.isPinned && r.sortOrder == 0
    ensures values.content.None? ==> r.content == ""
  {
    Row(rowid, values.content.GetOr(DefaultContent), values.createdAt, values.updatedAt,
        values.accessedAt, DefaultArchived, DefaultPinned, DefaultSortOrder)
  }

  /** The `SET` clause of each `UPDATE buffers … WHERE id = ?` statement. */
  datatype Assignment =
    | SetContent(content: string, updatedAt: int)  // SET content = ?, updated_at = ?
    | SetAccessedAt(accessedAt: int)               // SET accessed_at = ?
    | SetArchived                                  // SET is_archived = 1
    | FlipPinned                                   // SET is_pinned = NOT is_pinned

  /**
   * One assignment applied to a row: the rowid, creation time and sort order
   * never change, and only `SetContent` touches the content.
   */
  function Apply(a: Assignment, r: Row): (r': Row)
    ensures r'.rowid == r.rowid && r'.createdAt == r.createdAt && r'.sortOrder == r.sortOrder
    ensures r'.content == if a.SetContent? then a.content else r.content
    ensures r'.isPinned == if a.FlipPinned? then !r.isPinned else r.isPinned
  {
    match a
    case SetContent(c, t) => r.(content := c, updatedAt := t)
    case SetAccessedAt(t) => r.(accessedAt := t)
    case SetArchived => r.(isArchived := true)
    case FlipPinned => r.(isPinned := !r.isPinned)
  }

  /**
   * `UPDATE buffers SET … WHERE id = ?`: changes at most the row with that
   * id, and keeps every key.
   */
  function UpdateWhereId(t: Table, id: string, a: Assignment): (t': Table)
    ensures t'.Keys == t.Keys
    ensures forall k :: k in t && k != id ==> t'[k] == t[k]
    ensures id in t ==> t'[id] == Apply(a, t[id])
  {
    if id in t then t[id := Apply(a, t[id])] else t
  }

  /** The ids of the rows with `is_archived = 0`. */
  function LiveIds(t: Table): set<string> {
    set id | id in t && !t[id].isArchived
  }

  // ---- The full-text index ----

  /**
   * `id` is a key of `t`. The invariants below quantify over the keys through
   * this predicate, so a proof brings them to bear on the ids it names
   * (`assert Has(t, id)`) and nowhere else.
   */
  predicate Has(t: Table, id: string) {
    id in t
  }

  /** No two rows share a rowid. */
  ghost predicate RowidsUnique(t: Table) {
    forall a, b {:trigger Has(t, a), Has(t, b)} :: Has(t, a) && Has(t, b) && a != b ==> t[a].rowid != t[b].rowid
  }

  /** The rowids in use. */
  function Rowids(t: Table): set<int> {
    set id | id in t :: t[id].rowid
  }

  /**
   * `fts` mirrors `t`: it has an entry for exactly the rowids in use, and
   * each row's content is indexed under the row's rowid.
   */
  ghost predicate Mirrors(t: Table, fts: Index) {
    fts.Keys == Rowids(t)
    && forall id {:trigger Has(t, id)} :: Has(t, id) ==> t[id].rowid in fts && fts[t[id].rowid] == t[id].content
  }

  /** `INSERT INTO buffers_fts(rowid, content) VALUES (…)` */
  function FtsInsert(fts: Index, rowid: int, content: string): Index {
    fts[rowid := content]
  }

  /**
   * `INSERT INTO buffers_fts(buffers_fts, rowid, content) VALUES('delete', …)`:
   * removes the terms of `content` from under `rowid`. FTS5 trusts the caller
   * to give the content that was indexed; given anything else it removes the
   * wrong terms, which this model shows as the stale entry staying in place.
   */
  function FtsDelete(fts: Index, rowid: int, content: string): (r: Index)
    ensures r.Keys <= fts.Keys && forall x :: x in r ==> r[x] == fts[x]
    ensures rowid in r <==> rowid in fts && fts[rowid] != content
    ensures forall x :: x != rowid ==> (x in r <==> x in fts)
  {
    if rowid in fts && fts[rowid] == content then fts - {rowid} else fts
  }

  /** Trigger `buffers_ai`. */
  function AfterInsert(fts: Index, inserted: Row): (r: Index)
    ensures r.Keys == fts.Keys + {inserted.rowid} && r[inserted.rowid] == inserted.content
    ensures forall x :: x in fts && x != inserted.rowid ==> r[x] == fts[x]
  {
    FtsInsert(fts, inserted.rowid, inserted.content)
  }

  /** Trigger `buffers_ad`. */
  function AfterDelete(fts: Index, deleted: Row): (r: Index)
    ensures fts.Keys - {deleted.rowid} <= r.Keys <= fts.Keys
    ensures forall x :: x in r ==> r[x] == fts[x]
    ensures deleted.rowid in fts && fts[deleted.rowid] == deleted.content ==> deleted.rowid !in r
  {
    FtsDelete(fts, deleted.rowid, deleted.content)
  }

  /** Trigger `buffers_au`, which fires on every update, whatever the columns. */
  function AfterUpdate(fts: Index, before: Row, after: Row): (r: Index)
    ensures r.Keys <= fts.Keys + {after.rowid} && after.rowid in r && r[after.rowid] == after.content
    ensures forall x :: x in fts && x != before.rowid && x != after.rowid ==> x in r && r[x] == fts[x]
  {
    FtsInsert(FtsDelete(fts, before.rowid, before.content), after.rowid, after.content)
  }

  /** Over a table whose rowids are unique, there is only one mirror. */
  lemma MirrorIsUnique(t: Table, a: Index, b: Index)
    requires RowidsUnique(t) && Mirrors(t, a) && Mirrors(t, b)
    ensures a == b
  {
    forall x | x in a ensures a[x] == b[x] {
      var id :| id in t && t[id].rowid == x;
      assert Has(t, id);
    }
  }

  /** The insert trigger keeps the mirror, for a new id under an unused rowid. */
  lemma MirrorAfterInsert(t: Table, fts: Index, id: string, r: Row)
    requires RowidsUnique(t) && Mirrors(t, fts) && id !in t
    requires forall k :: k in t ==> t[k].rowid != r.rowid
    ensures RowidsUnique(t[id := r])
    ensures Mirrors(t[id := r], AfterInsert(fts, r))
  {
    var t' := t[id := r];
    var f' := AfterInsert(fts, r);
    forall a, b | Has(t', a) && Has(t', b) && a != b ensures t'[a].rowid != t'[b].rowid {
      if a != id && b != id {
        assert Has(t, a) && Has(t, b);
      }
    }
    assert Rowids(t') == Rowids(t) + {r.rowid} by {
      forall x | x in Rowids(t') ensures x in Rowids(t) + {r.rowid} {
        var k :| k in t' && t'[k].rowid == x;
        if k != id {
          assert t'[k] == t[k];
        }
      }
      forall x | x in Rowids(t) ensures x in Rowids(t') {
        var k :| k in t && t[k].rowid == x;
        assert t'[k] == t[k];
      }
      assert t'[id].rowid == r.rowid;
    }
    forall k | Has(t', k) ensures t'[k].rowid in f' && f'[t'[k].rowid] == t'[k].content {
      if k != id {
        assert Has(t, k);
      }
    }
  }

  /** The delete trigger keeps the mirror: the deleted row's entry is the one removed. */
  lemma MirrorAfterDelete(t: Table, fts: Index, id: string)
    requires RowidsUnique(t) && Mirrors(t, fts) && id in t
    ensures RowidsUnique(t - {id})
    ensures Mirrors(t - {id}, AfterDelete(fts, t[id]))
    ensures t[id].rowid !in AfterDelete(fts, t[id])
  {
    var t' := t - {id};
    var gone := t[id].rowid;
    var f' := AfterDelete(fts, t[id]);
    assert Has(t, id);
    assert f' == fts - {gone};
    forall a, b | Has(t', a) && Has(t', b) && a != b ensures t'[a].rowid != t'[b].rowid {
      assert Has(t, a) && Has(t, b);
    }
    assert Rowids(t') == Rowids(t) - {gone} by {
      forall x | x in Rowids(t') ensures x in Rowids(t) - {gone} {
        var k :| k in t' && t'[k].rowid == x;
        assert Has(t, k);
      }
      forall x | x in Rowids(t) - {gone} ensures x in Rowids(t') {
        var k :| k in t && t[k].rowid == x;
        assert k != id && t'[k] == t[k];
      }
    }
    forall k | Has(t', k) ensures t'[k].rowid in f' && f'[t'[k].rowid] == t'[k].content {
      assert Has(t, k);
    }
  }

  /** An update keeps every row's rowid, so it keeps the set of rowids. */
  lemma UpdateKeepsRowids(t: Table, id: string, a: Assignment)
    ensures Rowids(UpdateWhereId(t, id, a)) == Rowids(t)
  {
    var t' := UpdateWhereId(t, id, a);
    forall x | x in Rowids(t') ensures x in Rowids(t) {
      var k :| k in t' && t'[k].rowid == x;
      assert t'[k].rowid == t[k].rowid;
    }
    forall x | x in Rowids(t) ensures x in Rowids(t') {
      var k :| k in t && t[k].rowid == x;
      assert t'[k].rowid == t[k].rowid;
    }
  }

  /**
   * The update trigger keeps the mirror: whatever an update assigns, the old
   * entry is replaced by the row's current content.
   */
  lemma MirrorAfterUpdate(t: Table, fts: Index, id: string, a: Assignment)
    requires RowidsUnique(t) && Mirrors(t, fts) && id in t
    ensures RowidsUnique(UpdateWhereId(t, id, a))
    ensures Mirrors(UpdateWhereId(t, id, a), AfterUpdate(fts, t[id], Apply(a, t[id])))
  {
    var t' := UpdateWhereId(t, id, a);
    var r := Apply(a, t[id]);
    var f' := AfterUpdate(fts, t[id], r);
    assert Has(t, id);
    assert f' == (fts - {r.rowid})[r.rowid := r.content];
    forall p, q | Has(t', p) && Has(t', q) && p != q ensures t'[p].rowid != t'[q].rowid {
      assert Has(t, p) && Has(t, q);
    }
    UpdateKeepsRowids(t, id, a);
    forall k | Has(t', k) ensures t'[k].rowid in f' && f'[t'[k].rowid] == t'[k].content {
      if k != id {
        assert Has(t, k);
      }
    }
  }

  // ---- The table and its index together ----

  /**
   * What holds of `buffers` and `buffers_fts` between statements: rowids are
   * unique and below the next one to be handed out, the index mirrors the
   * table, and `sort_order` holds its default, since no statement sets it.
   */
  ghost predicate Consistent(t: Table, fts: Index, nextRowid: int) {
    RowidsUnique(t)
    && (forall id {:trigger Has(t, id)} :: Has(t, id) ==> t[id].rowid < nextRowid && t[id].sortOrder == DefaultSortOrder)
    && Mirrors(t, fts)
  }

  /** Each row's content is what the index holds under its rowid. */
  lemma IndexedContent(t: Table, fts: Index, nextRowid: int, id: string)
    requires Consistent(t, fts, nextRowid) && id in t
    ensures t[id].rowid in fts && fts[t[id].rowid] == t[id].content
    ensures t[id].rowid < nextRowid && t[id].sortOrder == DefaultSortOrder
  {
    assert Has(t, id);
  }

  /** An insert of a new id under the next rowid, with its trigger, keeps the table consistent. */
  lemma InsertKeepsConsistent(t: Table, fts: Index, nextRowid: int, id: string, values: Insertion)
    requires Consistent(t, fts, nextRowid) && id !in t
    ensures Consistent(t[id := NewRow(nextRowid, values)], AfterInsert(fts, NewRow(nextRowid, values)), nextRowid + 1)
  {
    var r := NewRow(nextRowid, values);
    var t' := t[id := r];
    forall k | k in t ensures t[k].rowid != r.rowid {
      assert Has(t, k);
    }
    MirrorAfterInsert(t, fts, id, r);
    forall k | Has(t', k) ensures t'[k].rowid < nextRowid + 1 && t'[k].sortOrder == DefaultSortOrder {
      if k != id {
        assert Has(t, k);
      }
    }
  }

  /** Any update of an existing row, with its trigger, keeps the table consistent. */
  lemma UpdateKeepsConsistent(t: Table, fts: Index, nextRowid: int, id: string, a: Assignment)
    requires Consistent(t, fts, nextRowid) && id in t
    ensures Consistent(UpdateWhereId(t, id, a), AfterUpdate(fts, t[id], Apply(a, t[id])), nextRowid)
    ensures !a.SetContent? ==> AfterUpdate(fts, t[id], Apply(a, t[id])) == fts
  {
    MirrorAfterUpdate(t, fts, id, a);
    var t' := UpdateWhereId(t, id, a);
    forall k | Has(t', k) ensures t'[k].rowid < nextRowid && t'[k].sortOrder == DefaultSortOrder {
      assert Has(t, k);
    }
    if !a.SetContent? {
      var before := t[id];
      assert Has(t, id);
      var f' := AfterUpdate(fts, before, Apply(a, before));
      assert f' == (fts - {before.rowid})[before.rowid := before.content];
      assert forall x :: x in f' <==> x in fts;
      assert forall x :: x in f' ==> f'[x] == fts[x];
    }
  }

  /** A delete, with its trigger, keeps the table consistent and drops the row's entry. */
  lemma DeleteKeepsConsistent(t: Table, fts: Index, nextRowid: int, id: string)
    requires Consistent(t, fts, nextRowid) && id in t
    ensures Consistent(t - {id}, AfterDelete(fts, t[id]), nextRowid)
    ensures t[id].rowid !in AfterDelete(fts, t[id])
  {
    MirrorAfterDelete(t, fts, id);
    var t' := t - {id};
    forall k | Has(t', k) ensures t'[k].rowid < nextRowid && t'[k].sortOrder == DefaultSortOrder {
      assert Has(t, k);
    }
  }

  // ---- Properties of the statements ----

  /** Toggling the pin of the same id twice restores the table. */
  lemma TogglePinTwice(t: Table, id: string)
    ensures UpdateWhereId(UpdateWhereId(t, id, FlipPinned), id, FlipPinned) == t
  {
    if id in t {
      var once := UpdateWhereId(t, id, FlipPinned);
      assert once[id].isPinned == !t[id].isPinned;
      assert once[id := Apply(FlipPinned, once[id])][id] == t[id];
    }
  }

  /** Archiving a live row takes exactly one row out of the live set; the rest stays. */
  lemma ArchiveLiveCount(t: Table, id: string)
    ensures LiveIds(UpdateWhereId(t, id, SetArchived)) == LiveIds(t) - {id}
    ensures |LiveIds(UpdateWhereId(t, id, SetArchived))|
         == |LiveIds(t)| - (if id in LiveIds(t) then 1 else 0)
  {
    var after := UpdateWhereId(t, id, SetArchived);
    assert LiveIds(after) == LiveIds(t) - {id};
  }

  /** Updates other than archiving leave the live set alone. */
  lemma UpdateKeepsLive(t: Table, id: string, a: Assignment)
    requires !a.SetArchived?
    ensures LiveIds(UpdateWhereId(t, id, a)) == LiveIds(t)
  {
    var after := UpdateWhereId(t, id, a);
    assert forall k :: k in after <==> k in t;
    assert forall k :: k in t ==> after[k].isArchived == t[k].isArchived;
  }

  // ---- Sidebar order ----

  /** `ORDER BY is_pinned DESC, accessed_at DESC`: `a` may be listed before `b`. */
  predicate ListedBefore(a: Row, b: Row) {
    (a.isPinned && !b.isPinned) || (a.isPinned == b.isPinned && a.accessedAt >= b.accessedAt)
  }

  /** ListedBefore is a total preorder. */
  lemma ListedBeforeTotal(a: Row, b: Row, c: Row)
    ensures ListedBefore(a, b) || ListedBefore(b, a)
    ensures ListedBefore(a, b) && ListedBefore(b, c) ==> ListedBefore(a, c)
  {
  }

  /** Every non-empty set of rows has a row that may be listed before all of them. */
  lemma {:induction false} FirstInOrderExists(t: Table, s: set<string>)
    requires s != {} && s <= t.Keys
    ensures exists b :: b in s && forall o :: o in s ==> ListedBefore(t[b], t[o])
    decreases |s|
  {
    var x :| x in s;
    if s == {x} {
      assert forall o :: o in s ==> o == x;
    } else {
      var rest := s - {x};
      FirstInOrderExists(t, rest);
      var b :| b in rest && forall o :: o in rest ==> ListedBefore(t[b], t[o]);
      if ListedBefore(t[b], t[x]) {
        assert forall o :: o in s ==> o == x || o in rest;
      } else {
        forall o | o in s ensures ListedBefore(t[x], t[o]) {
          if o != x {
            ListedBeforeTotal(t[x], t[b], t[o]);
          }
        }
      }
    }
  }

  /**
   * `WHERE id ∈ live ORDER BY is_pinned DESC, accessed_at DESC LIMIT limit`,
   * by repeated selection of a row that may come first among those not yet
   * taken: at most `limit` distinct ids of `live`, in sidebar order, fewer
   * only when all of `live` is taken, and each id taken may be listed before
   * every id left out.
   */
  method SelectInOrder(t: Table, live: set<string>, limit: nat) returns (ids: seq<string>)
    requires live <= t.Keys
    ensures |ids| == Min(limit, |live|)
    ensures forall i :: 0 <= i < |ids| ==> ids[i] in live
    ensures forall i, j :: 0 <= i < j < |ids| ==> ids[i] != ids[j]
    ensures forall i, j :: 0 <= i < j < |ids| ==> ListedBefore(t[ids[i]], t[ids[j]])
    ensures forall i, o :: 0 <= i < |ids| && o in live && o !in ids ==> ListedBefore(t[ids[i]], t[o])
  {
    var remaining := live;
    ids := [];
    while |ids| < limit && remaining != {}
      invariant remaining <= live
      invariant forall o :: o in live ==> (o in remaining <==> o !in ids)
      invariant |ids| + |remaining| == |live|
      invariant |ids| <= limit
      invariant forall i :: 0 <= i < |ids| ==> ids[i] in live
      invariant forall i, j :: 0 <= i < j < |ids| ==> ids[i] != ids[j]
      invariant forall i, j :: 0 <= i < j < |ids| ==> ListedBefore(t[ids[i]], t[ids[j]])
      invariant forall i, o :: 0 <= i < |ids| && o in remaining ==> ListedBefore(t[ids[i]], t[o])
      decreases |remaining|
    {
      FirstInOrderExists(t, remaining);
      var b :| b in remaining && forall o :: o in remaining ==> ListedBefore(t[b], t[o]);
      ids := ids + [b];
      remaining := remaining - {b};
    }
  }

  /**
   * `LIMIT limit` over a result set whose order is not part of the model: at
   * most `limit` distinct ids of `found`, fewer only when all are taken.
   */
  method SelectAny(found: set<string>, limit: nat) returns (ids: seq<string>)
    ensures |ids| == Min(limit, |found|)
    ensures forall i :: 0 <= i < |ids| ==> ids[i] in found
    ensures forall i, j :: 0 <= i < j < |ids| ==> ids[i] != ids[j]
    ensures |ids| < limit ==> forall o :: o in found ==> o in ids
  {
    var remaining := found;
    ids := [];
    while |ids| < limit && remaining != {}
      invariant remaining <= found
      invariant forall o :: o in found ==> (o in remaining <==> o !in ids)
      invariant |ids| + |remaining| == |found|
      invariant |ids| <= limit
      invariant forall i :: 0 <= i < |ids| ==> ids[i] in found
      invariant forall i, j :: 0 <= i < j < |ids| ==> ids[i] != ids[j]
      decreases |remaining|
    {
      var b :| b in remaining;
      ids := ids + [b];
      remaining := remaining - {b};
    }
  }
}
