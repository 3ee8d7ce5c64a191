/** The managers that run statements for record sets and records they hold by pointer. */
module Managers {
  import opened Enums
  import opened Names
  import opened Protocol
  import opened ResourceRecords
  import opened Tables

  class Database {
    var zones: map<Name, nat>
    var tables: Tables

    constructor (zones: map<Name, nat>, tables: Tables)
      ensures this.zones == zones && this.tables == tables
    {
      this.zones, this.tables := zones, tables;
    }
  }

  // ----- Record sets ---------------------------------------------------------------------------

  function IdOf(rows: seq<RRSetRow>, v: RRSetValue): nat {
    RRSetId(rows, v.zone.id, v.rrLabel, v.rrtype)
  }

  datatype Inserted<R> = Inserted(rows: seq<R>, ids: seq<nat>, ok: bool)

  /** Inserting these sets one after the other, up to one that violates the unique index. */
  function InsertRRSets(rows: seq<RRSetRow>, vs: seq<RRSetValue>): (r: Inserted<RRSetRow>)
    ensures r.ok ==> |r.ids| == |vs|
  {
    if vs == [] then Inserted(rows, [], true)
    else
      var before, v := InsertRRSets(rows, vs[..|vs| - 1]), vs[|vs| - 1];
      if !before.ok then before
      else if IndexViolated(before.rows, v.zone.id, v.rrLabel, v.cls, v.rrtype) then before.(ok := false)
      else Inserted(InsertRRSet(before.rows, v.zone.id, v.rrLabel, v.cls, v.rrtype),
                    before.ids + [NextRRSetId(before.rows)], true)
  }

  lemma NoSetInserted(rows: seq<RRSetRow>, vs: seq<RRSetValue>)
    ensures InsertRRSets(rows, vs[..0]) == Inserted(rows, [], true)
  {
  }

  /** Inserting one more of the sets. */
  lemma InsertRRSetsNext(rows: seq<RRSetRow>, vs: seq<RRSetValue>, i: nat)
    requires i < |vs| && InsertRRSets(rows, vs[..i]).ok
    ensures var before, v := InsertRRSets(rows, vs[..i]), vs[i];
            InsertRRSets(rows, vs[..i + 1])
            == if IndexViolated(before.rows, v.zone.id, v.rrLabel, v.cls, v.rrtype) then before.(ok := false)
               else Inserted(InsertRRSet(before.rows, v.zone.id, v.rrLabel, v.cls, v.rrtype),
                             before.ids + [NextRRSetId(before.rows)], true)
  {
    assert vs[..i + 1][..i] == vs[..i];
  }

  /** A pointer held several times keeps the id of its last insertion. */
  predicate LastAt<T(==)>(xs: seq<T>, j: nat, n: nat)
    requires j < n <= |xs|
  {
    forall k | j < k < n :: xs[k] != xs[j]
  }

  function RRSetValues(rrsets: seq<RRSet>): seq<RRSetValue>
    reads rrsets
  {
    seq(|rrsets|, i requires 0 <= i < |rrsets| reads rrsets => rrsets[i].Value())
  }

  class RRSetMgr {
    const db: Database
    var rrsets: seq<RRSet>

    constructor (db: Database)
      ensures this.db == db && rrsets == []
    {
      this.db, rrsets := db, [];
    }

    method AddRRSet(rrset: RRSet)
      modifies this
      ensures rrsets == old(rrsets) + [rrset]
    {
      rrsets := rrsets + [rrset];
    }

    /** Gives each set the id of its row, or 0. */
    method LookupIds()
      modifies rrsets
      ensures forall r | r in rrsets :: r.Value() == old(r.Value()).(id := IdOf(db.tables.rrsets, old(r.Value())))
    {
      var i := 0;
      while i < |rrsets|
        invariant 0 <= i <= |rrsets|
        invariant forall r | r in rrsets :: r.Value() == old(r.Value()).(id := r.id)
        invariant forall j | 0 <= j < i :: rrsets[j].id == IdOf(db.tables.rrsets, old(rrsets[j].Value()))
      {
        var rrset := rrsets[i];
        TextKeys(db.tables.rrsets, rrset.zone.id, rrset.rrLabel, rrset.rrtype);
        rrset.id := RRSetIdByText(db.tables.rrsets, rrset.zone.id, Uri(rrset.rrLabel), rrset.rrtype.ToString());
        i := i + 1;
      }
    }

    /** Inserts each set and gives it the id of its new row; `ok` is false where the database
        refuses a row, and then the rows before it stay. */
    method Insert() returns (ok: bool)
      modifies db`tables, rrsets
      ensures var r := InsertRRSets(old(db.tables.rrsets), old(RRSetValues(rrsets)));
              ok == r.ok && db.tables == old(db.tables).(rrsets := r.rows)
              && (ok ==> forall j | 0 <= j < |rrsets| && LastAt(rrsets, j, |rrsets|) :: rrsets[j].id == r.ids[j])
      ensures forall r | r in rrsets :: r.Value() == old(r.Value()).(id := r.id)
    {
      hide IndexViolated, NextRRSetId, InsertRRSet, InsertRRSets;
      ghost var vs := RRSetValues(rrsets);
      ghost var ids: seq<nat> := [];
      assert InsertRRSets(db.tables.rrsets, vs[..0]) == Inserted(db.tables.rrsets, [], true) by {
        NoSetInserted(db.tables.rrsets, vs);
      }
      var i := 0;
      while i < |rrsets|
        invariant 0 <= i <= |rrsets| && |ids| == i
        invariant InsertRRSets(old(db.tables.rrsets), vs[..i]) == Inserted(db.tables.rrsets, ids, true)
        invariant db.tables == old(db.tables).(rrsets := db.tables.rrsets)
        invariant forall r | r in rrsets :: r.Value() == old(r.Value()).(id := r.id)
        invariant forall j | 0 <= j < i && LastAt(rrsets, j, i) :: rrsets[j].id == ids[j]
      {
        var rrset := rrsets[i];
        assert vs[i] == old(rrset.Value());
        InsertRRSetsNext(old(db.tables.rrsets), vs, i);
        if IndexViolated(db.tables.rrsets, rrset.zone.id, rrset.rrLabel, rrset.cls, rrset.rrtype) {
          RefusedPrefix(old(db.tables.rrsets), vs, i + 1);
          return false;
        }
        var newId := NextRRSetId(db.tables.rrsets);
        db.tables := db.tables.(rrsets :=
          InsertRRSet(db.tables.rrsets, rrset.zone.id, rrset.rrLabel, rrset.cls, rrset.rrtype));
        rrset.id := newId;
        ids := ids + [newId];
        i := i + 1;
      }
      assert vs[..i] == vs;
      ok := true;
    }

    method RemoveRelatedRRs()
      modifies db`tables
      ensures db.tables == old(db.tables).(rrs := RemoveSets(old(db.tables.rrs), RRSetValues(rrsets)))
    {
      ghost var vs := RRSetValues(rrsets);
      assert vs[..0] == [];
      var i := 0;
      while i < |rrsets|
        invariant 0 <= i <= |rrsets|
        invariant db.tables == old(db.tables).(rrs := RemoveSets(old(db.tables.rrs), vs[..i]))
      {
        assert vs[..i + 1][..i] == vs[..i];
        db.tables := db.tables.(rrs := Filter(db.tables.rrs, NotInSet(rrsets[i].id)));
        i := i + 1;
      }
      assert vs[..i] == vs;
    }
  }

  function RemoveSets(rows: seq<RRRow>, vs: seq<RRSetValue>): seq<RRRow> {
    if vs == [] then rows
    else Filter(RemoveSets(rows, vs[..|vs| - 1]), NotInSet(vs[|vs| - 1].id))
  }

  lemma {:induction false} RefusedPrefix(rows: seq<RRSetRow>, vs: seq<RRSetValue>, n: nat)
    requires n <= |vs| && !InsertRRSets(rows, vs[..n]).ok
    ensures InsertRRSets(rows, vs) == InsertRRSets(rows, vs[..n])
  {
    if n == |vs| {
      assert vs[..n] == vs;
    } else {
      assert vs[..|vs| - 1][..n] == vs[..n];
      RefusedPrefix(rows, vs[..|vs| - 1], n);
    }
  }

  /** Sets inserted without a refusal have one row each, behind the old rows and in their order, with
      their zone, label, class and type and under the ids given. */
  lemma {:induction false} InsertedSets(rows: seq<RRSetRow>, vs: seq<RRSetValue>)
    requires InsertRRSets(rows, vs).ok
    ensures var r := InsertRRSets(rows, vs);
            |r.rows| == |rows| + |vs| && |r.ids| == |vs| && rows <= r.rows
            && forall i | 0 <= i < |vs| ::
                 r.rows[|rows| + i] == RRSetRow(r.ids[i], vs[i].zone.id, vs[i].rrLabel, vs[i].cls, vs[i].rrtype)
  {
    hide IndexViolated, NextRRSetId;
    if vs != [] {
      InsertedSets(rows, vs[..|vs| - 1]);
    }
  }

  /** What deleting the records of several sets leaves. */
  lemma {:induction false} RemovedSets(rows: seq<RRRow>, vs: seq<RRSetValue>, r: RRRow)
    ensures r in RemoveSets(rows, vs) <==> r in rows && forall v | v in vs :: r.rrsetId != v.id
  {
    if vs != [] {
      var last := vs[|vs| - 1];
      RemovedSets(rows, vs[..|vs| - 1], r);
      FilterMember(RemoveSets(rows, vs[..|vs| - 1]), NotInSet(last.id), r);
      assert last in vs && forall v | v in vs :: v in vs[..|vs| - 1] || v == last;
    }
  }

  // ----- Records -------------------------------------------------------------------------------

  /** The id a record gets when looked up: its own when the zone or the set is unknown. */
  function LookedUpId(rows: seq<RRRow>, v: RRValue): nat {
    if v.rrset.zone.id == 0 || v.rrset.id == 0 then v.id else RRId(rows, v.rrset.id, v.data)
  }

  function InsertRRs(rows: seq<RRRow>, vs: seq<RRValue>): (r: Inserted<RRRow>)
    ensures |r.ids| == |vs|
  {
    if vs == [] then Inserted(rows, [], true)
    else
      var before, v := InsertRRs(rows, vs[..|vs| - 1]), vs[|vs| - 1];
      var rows' := InsertRR(before.rows, v.rrset.id, v.ttl, v.data);
      Inserted(rows', before.ids + [rows'[|rows'| - 1].id], true)
  }

  lemma NothingInserted(rows: seq<RRRow>, vs: seq<RRValue>)
    ensures InsertRRs(rows, vs[..0]) == Inserted(rows, [], true)
  {
  }

  /** Inserting one more of the records. */
  lemma InsertRRsNext(rows: seq<RRRow>, vs: seq<RRValue>, i: nat)
    requires i < |vs|
    ensures var before := InsertRRs(rows, vs[..i]);
            var rows' := InsertRR(before.rows, vs[i].rrset.id, vs[i].ttl, vs[i].data);
            InsertRRs(rows, vs[..i + 1]) == Inserted(rows', before.ids + [rows'[|rows'| - 1].id], true)
  {
    assert vs[..i + 1][..i] == vs[..i];
  }

  function RemoveRRs(rows: seq<RRRow>, vs: seq<RRValue>): seq<RRRow> {
    if vs == [] then rows
    else Filter(RemoveRRs(rows, vs[..|vs| - 1]), NotId(vs[|vs| - 1].id))
  }

  /** What deleting several records leaves. */
  lemma {:induction false} RemovedRRs(rows: seq<RRRow>, vs: seq<RRValue>, r: RRRow)
    ensures r in RemoveRRs(rows, vs) <==> r in rows && forall v | v in vs :: r.id != v.id
  {
    if vs != [] {
      var last := vs[|vs| - 1];
      RemovedRRs(rows, vs[..|vs| - 1], r);
      FilterMember(RemoveRRs(rows, vs[..|vs| - 1]), NotId(last.id), r);
      assert last in vs && forall v | v in vs :: v in vs[..|vs| - 1] || v == last;
    }
  }

  function RRValues(rrs: seq<RR>): seq<RRValue>
    reads rrs
  {
    seq(|rrs|, i requires 0 <= i < |rrs| reads rrs => rrs[i].Value())
  }

  class RRMgr {
    const db: Database
    var rrs: seq<RR>

    constructor (db: Database)
      ensures this.db == db && rrs == []
    {
      this.db, rrs := db, [];
    }

    method AddRR(rr: RR)
      modifies this
      ensures rrs == old(rrs) + [rr]
    {
      rrs := rrs + [rr];
    }

    method LookupIds()
      modifies rrs
      ensures forall r | r in rrs :: r.Value() == old(r.Value()).(id := LookedUpId(db.tables.rrs, old(r.Value())))
    {
      var i := 0;
      while i < |rrs|
        invariant 0 <= i <= |rrs|
        invariant forall r | r in rrs :: r.Value() == old(r.Value()).(id := r.id)
        invariant forall r | r in rrs :: r.id == old(r.id) || r.id == LookedUpId(db.tables.rrs, old(r.Value()))
        invariant forall j | 0 <= j < i :: rrs[j].id == LookedUpId(db.tables.rrs, old(rrs[j].Value()))
      {
        var rr := rrs[i];
        if rr.rrset.zone.id == 0 || rr.rrset.id == 0 {
          // an id is not initialized: the record keeps the id it came with
        } else {
          rr.id := RRId(db.tables.rrs, rr.rrset.id, rr.data);
        }
        i := i + 1;
      }
    }

    method Remove()
      modifies db`tables
      ensures db.tables == old(db.tables).(rrs := RemoveRRs(old(db.tables.rrs), RRValues(rrs)))
    {
      ghost var vs := RRValues(rrs);
      assert vs[..0] == [];
      var i := 0;
      while i < |rrs|
        invariant 0 <= i <= |rrs|
        invariant db.tables == old(db.tables).(rrs := RemoveRRs(old(db.tables.rrs), vs[..i]))
      {
        assert vs[..i + 1][..i] == vs[..i];
        db.tables := db.tables.(rrs := Filter(db.tables.rrs, NotId(rrs[i].id)));
        i := i + 1;
      }
      assert vs[..i] == vs;
    }

    /** Inserts each record and gives it the id of its new row. */
    method Insert()
      modifies db`tables, rrs
      ensures var r := InsertRRs(old(db.tables.rrs), old(RRValues(rrs)));
              db.tables == old(db.tables).(rrs := r.rows)
              && forall j | 0 <= j < |rrs| && LastAt(rrs, j, |rrs|) :: rrs[j].id == r.ids[j]
      ensures forall r | r in rrs :: r.Value() == old(r.Value()).(id := r.id)
    {
      hide InsertRR, InsertRRs;
      ghost var vs := RRValues(rrs);
      ghost var ids: seq<nat> := [];
      assert InsertRRs(db.tables.rrs, vs[..0]) == Inserted(db.tables.rrs, [], true) by {
        NothingInserted(db.tables.rrs, vs);
      }
      var i := 0;
      while i < |rrs|
        invariant 0 <= i <= |rrs| && |ids| == i
        invariant InsertRRs(old(db.tables.rrs), vs[..i]) == Inserted(db.tables.rrs, ids, true)
        invariant db.tables == old(db.tables).(rrs := db.tables.rrs)
        invariant forall r | r in rrs :: r.Value() == old(r.Value()).(id := r.id)
        invariant forall j | 0 <= j < i && LastAt(rrs, j, i) :: rrs[j].id == ids[j]
      {
        var rr := rrs[i];
        assert vs[i] == old(rr.Value());
        InsertRRsNext(old(db.tables.rrs), vs, i);
        InsertOne(rr);
        ids := ids + [rr.id];
        i := i + 1;
      }
      assert vs[..i] == vs;
    }

    method InsertOne(rr: RR)
      modifies db`tables, rr`id
      ensures db.tables == old(db.tables).(rrs := InsertRR(old(db.tables.rrs), rr.rrset.id, rr.ttl, rr.data))
      ensures rr.id == db.tables.rrs[|db.tables.rrs| - 1].id
    {
      var rows := InsertRR(db.tables.rrs, rr.rrset.id, rr.ttl, rr.data);
      db.tables := db.tables.(rrs := rows);
      rr.id := rows[|rows| - 1].id;
    }
  }

  // ----- Queries -------------------------------------------------------------------------------

  /** The records a lookup delivers for rows of this set. */
  function RRsOf(rows: seq<RRRow>, rrset: RRSetValue): seq<RRValue> {
    seq(|rows|, i requires 0 <= i < |rows| =>
      DEFAULT_RR.(rrset := rrset, id := rows[i].id, ttl := rows[i].ttl, data := rows[i].data))
  }

  /** The set a query names, with the id of its row. */
  function QueriedSet(t: Tables, zone: Zone, q: Query): RRSetValue {
    RRSetValue(RRSetId(t.rrsets, zone.id, q.rrLabel, q.rrtype), zone, q.rrLabel, "", q.rrtype)
  }

  class QueryMgr {
    const db: Database
    const query: Query
    const zone: Zone
    var rrset: RRSet
    var rrsetMgr: RRSetMgr
    var rrs: seq<RRValue>
    var tempInt: nat

    constructor (db: Database, zone: Zone, query: Query)
      ensures this.db == db && this.zone == zone && this.query == query && rrs == []
      ensures fresh(rrset) && fresh(rrsetMgr) && rrsetMgr.db == db && rrsetMgr.rrsets == []
      ensures rrset.Value() == DEFAULT_RRSET.(zone := zone)
    {
      this.db, this.zone, this.query := db, zone, query;
      rrset := new RRSet(DEFAULT_RRSET.(zone := zone));
      rrsetMgr := new RRSetMgr(db);
      rrs, tempInt := [], 0;
    }

    /** Finds the set, then its records in the order of their ids. */
    method LookupRecords()
      requires rrs == [] && rrsetMgr.db == db && rrsetMgr.rrsets == []
      requires rrset.Value() == DEFAULT_RRSET.(zone := zone)
      modifies this, rrset, rrsetMgr
      ensures rrset.Value() == QueriedSet(db.tables, zone, query)
      ensures rrs == RRsOf(Select(db.tables.rrs, rrset.id), rrset.Value())
    {
      rrset.rrLabel := query.rrLabel;
      rrset.rrtype := query.rrtype;
      rrsetMgr.AddRRSet(rrset);
      rrsetMgr.LookupIds();
      assert rrset in rrsetMgr.rrsets;
      var rows := Select(db.tables.rrs, rrset.id);
      var i := 0;
      while i < |rows|
        invariant 0 <= i <= |rows|
        invariant rrs == RRsOf(rows[..i], rrset.Value())
        invariant rrset.Value() == QueriedSet(db.tables, zone, query)
      {
        CallbackGetRr(rows[i]);
        i := i + 1;
      }
      assert rows[..i] == rows;
    }

    /** Takes one delivered row. */
    method CallbackGetRr(row: RRRow)
      modifies `rrs
      ensures rrs == old(rrs) + [DEFAULT_RR.(rrset := rrset.Value(), id := row.id, ttl := row.ttl, data := row.data)]
    {
      var rr := new RR(DEFAULT_RR.(rrset := rrset.Value()));
      rr.id := row.id;
      rr.ttl := row.ttl;
      rr.data := row.data;
      rrs := rrs + [rr.Value()];
    }

    /** Counts the records of the queried type under an extension of the queried label. On tables
        that keep the invariant there is one exactly when the zone has Auth for the label. */
    method CountAuth() returns (count: nat)
      modifies `tempInt
      ensures count == JoinCount(db.tables, zone.id, query.rrtype, query.rrLabel)
      ensures Valid(db.tables)
              ==> (count > 0 <==> HasAuth(View(db.tables, zone.id), query.rrLabel, query.rrtype))
    {
      hide Valid, View, HasAuth;
      tempInt := 0;
      tempInt := JoinCount(db.tables, zone.id, query.rrtype, query.rrLabel);
      count := tempInt;
      if Valid(db.tables) {
        JoinCountIsAuth(db.tables, zone.id, query.rrLabel, query.rrtype);
      }
    }
  }
}
