/** The two id-linked tables of a zone database, each in row-id order, and the SQL statements
    run on them. */
module Tables {
  import opened Enums
  import opened Like
  import opened Names
  import opened Protocol

  datatype RRSetRow = RRSetRow(id: nat, zoneId: nat, rrLabel: Name, cls: string, rrtype: RRType)

  datatype RRRow = RRRow(id: nat, rrsetId: nat, ttl: nat, data: string)

  datatype Tables = Tables(rrsets: seq<RRSetRow>, rrs: seq<RRRow>)

  // ----- Filtering -----------------------------------------------------------------------------

  function Filter<T>(xs: seq<T>, keep: T -> bool): seq<T> {
    if xs == [] then []
    else Filter(xs[..|xs| - 1], keep) + if keep(xs[|xs| - 1]) then [xs[|xs| - 1]] else []
  }

  lemma FilterSnoc<T>(xs: seq<T>, x: T, keep: T -> bool)
    ensures Filter(xs + [x], keep) == Filter(xs, keep) + if keep(x) then [x] else []
  {
    assert (xs + [x])[..|xs|] == xs;
  }

  lemma {:induction false} FilterMember<T>(xs: seq<T>, keep: T -> bool, x: T)
    ensures x in Filter(xs, keep) <==> x in xs && keep(x)
  {
    if xs != [] {
      FilterMember(xs[..|xs| - 1], keep, x);
      assert xs == xs[..|xs| - 1] + [xs[|xs| - 1]];
    }
  }

  lemma {:induction false} FilterAll<T>(xs: seq<T>, keep: T -> bool)
    requires forall x | x in xs :: keep(x)
    ensures Filter(xs, keep) == xs
  {
    if xs != [] {
      var init, last := xs[..|xs| - 1], xs[|xs| - 1];
      assert last in xs && xs == init + [last] && forall x | x in init :: x in xs;
      FilterAll(init, keep);
    }
  }

  lemma {:induction false} FilterNone<T>(xs: seq<T>, keep: T -> bool)
    requires forall x | x in xs :: !keep(x)
    ensures Filter(xs, keep) == []
  {
    if xs != [] {
      var init, last := xs[..|xs| - 1], xs[|xs| - 1];
      assert last in xs && forall x | x in init :: x in xs;
      FilterNone(init, keep);
    }
  }

  lemma {:induction false} FilterCommutes<T>(xs: seq<T>, p: T -> bool, q: T -> bool)
    ensures Filter(Filter(xs, p), q) == Filter(Filter(xs, q), p)
  {
    if xs != [] {
      var init, x := xs[..|xs| - 1], xs[|xs| - 1];
      FilterCommutes(init, p, q);
      if p(x) { FilterSnoc(Filter(init, p), x, q); }
      if q(x) { FilterSnoc(Filter(init, q), x, p); }
      assert Filter(init, p) + [] == Filter(init, p) && Filter(init, q) + [] == Filter(init, q);
    }
  }

  // ----- Conditions of the statements ----------------------------------------------------------

  function InSet(rrsetId: nat): RRRow -> bool { (r: RRRow) => r.rrsetId == rrsetId }

  function NotInSet(rrsetId: nat): RRRow -> bool { (r: RRRow) => r.rrsetId != rrsetId }

  function NotPair(rrsetId: nat, data: string): RRRow -> bool {
    (r: RRRow) => !(r.rrsetId == rrsetId && r.data == data)
  }

  function NotId(id: nat): RRRow -> bool { (r: RRRow) => r.id != id }

  function NotData(data: string): string -> bool { (d: string) => d != data }

  // ----- Statements ----------------------------------------------------------------------------

  /** SELECT id FROM rrsets WHERE zone_id, label, type: the last row delivered, or 0. */
  function RRSetId(rows: seq<RRSetRow>, zoneId: nat, rrLabel: Name, rrtype: RRType): nat {
    if rows == [] then 0
    else
      var row := rows[|rows| - 1];
      if row.zoneId == zoneId && row.rrLabel == rrLabel && row.rrtype == rrtype then row.id
      else RRSetId(rows[..|rows| - 1], zoneId, rrLabel, rrtype)
  }

  /** The same selection as the statement writes it, on the text columns label and type. */
  function RRSetIdByText(rows: seq<RRSetRow>, zoneId: nat, rrLabel: string, rrtype: string): nat {
    if rows == [] then 0
    else
      var row := rows[|rows| - 1];
      if row.zoneId == zoneId && Uri(row.rrLabel) == rrLabel && row.rrtype.ToString() == rrtype then row.id
      else RRSetIdByText(rows[..|rows| - 1], zoneId, rrLabel, rrtype)
  }

  /** SELECT id FROM rrs WHERE rrset_id, rrdata: the last row delivered, or 0. */
  function RRId(rows: seq<RRRow>, rrsetId: nat, data: string): nat {
    if rows == [] then 0
    else
      var row := rows[|rows| - 1];
      if row.rrsetId == rrsetId && row.data == data then row.id
      else RRId(rows[..|rows| - 1], rrsetId, data)
  }

  /** SELECT ... FROM rrs WHERE rrset_id ORDER BY id. */
  function Select(rows: seq<RRRow>, rrsetId: nat): seq<RRRow> {
    Filter(rows, InSet(rrsetId))
  }

  function Datas(rows: seq<RRRow>): seq<string> {
    seq(|rows|, i requires 0 <= i < |rows| => rows[i].data)
  }

  /** The id a new row takes: one past the largest present. */
  function NextRRSetId(rows: seq<RRSetRow>): nat {
    if rows == [] then 1 else rows[|rows| - 1].id + 1
  }

  function NextRRId(rows: seq<RRRow>): nat {
    if rows == [] then 1 else rows[|rows| - 1].id + 1
  }

  /** The unique index on (zone_id, label, class, type). */
  predicate IndexViolated(rows: seq<RRSetRow>, zoneId: nat, rrLabel: Name, cls: string, rrtype: RRType) {
    exists r | r in rows :: r.zoneId == zoneId && r.rrLabel == rrLabel && r.cls == cls && r.rrtype == rrtype
  }

  function InsertRRSet(rows: seq<RRSetRow>, zoneId: nat, rrLabel: Name, cls: string, rrtype: RRType): seq<RRSetRow> {
    rows + [RRSetRow(NextRRSetId(rows), zoneId, rrLabel, cls, rrtype)]
  }

  /** INSERT INTO rrs, with the trigger that first deletes rows of the same set and data. */
  function InsertRR(rows: seq<RRRow>, rrsetId: nat, ttl: nat, data: string): (r: seq<RRRow>)
    ensures r != []
  {
    var kept := Filter(rows, NotPair(rrsetId, data));
    kept + [RRRow(NextRRId(kept), rrsetId, ttl, data)]
  }

  /** The rows the JOIN of the Auth test counts. */
  predicate Joined(rrsets: seq<RRSetRow>, zoneId: nat, rrtype: RRType, rrLabel: Name, r: RRRow) {
    exists s | s in rrsets :: s.id == r.rrsetId && Extension(s, zoneId, rrtype, rrLabel)
  }

  predicate Extension(s: RRSetRow, zoneId: nat, rrtype: RRType, rrLabel: Name) {
    s.zoneId == zoneId && s.rrtype == rrtype && Extends(rrLabel, s.rrLabel)
  }

  function JoinCount(t: Tables, zoneId: nat, rrtype: RRType, rrLabel: Name): nat {
    |Filter(t.rrs, JoinedTo(t, zoneId, rrtype, rrLabel))|
  }

  function JoinedTo(t: Tables, zoneId: nat, rrtype: RRType, rrLabel: Name): RRRow -> bool {
    (r: RRRow) => Joined(t.rrsets, zoneId, rrtype, rrLabel, r)
  }

  /** The data a lookup answers, in order. */
  function Lookup(t: Tables, zoneId: nat, rrLabel: Name, rrtype: RRType): seq<string> {
    Datas(Select(t.rrs, RRSetId(t.rrsets, zoneId, rrLabel, rrtype)))
  }

  // ----- The table invariant -------------------------------------------------------------------

  predicate RRSetsOrdered(rows: seq<RRSetRow>) {
    (forall r | r in rows :: r.id > 0) && forall i, j | 0 <= i < j < |rows| :: rows[i].id < rows[j].id
  }

  predicate RRsOrdered(rows: seq<RRRow>) {
    (forall r | r in rows :: r.id > 0) && forall i, j | 0 <= i < j < |rows| :: rows[i].id < rows[j].id
  }

  predicate SameKey(a: RRSetRow, b: RRSetRow) {
    a.zoneId == b.zoneId && a.rrLabel == b.rrLabel && a.rrtype == b.rrtype
  }

  predicate UniqueRRSets(rows: seq<RRSetRow>) {
    forall i, j | 0 <= i < j < |rows| :: !SameKey(rows[i], rows[j])
  }

  predicate UniqueRRs(rows: seq<RRRow>) {
    forall i, j | 0 <= i < j < |rows| :: !(rows[i].rrsetId == rows[j].rrsetId && rows[i].data == rows[j].data)
  }

  predicate HasRRSet(rows: seq<RRSetRow>, id: nat) {
    exists s | s in rows :: s.id == id
  }

  predicate References(t: Tables) {
    forall r | r in t.rrs :: HasRRSet(t.rrsets, r.rrsetId)
  }

  /** (zone, label, type) is unique, (rrset_id, rrdata) is unique, every rrset_id points to an
      existing positive id, and both tables are in the order of their positive ids. */
  predicate Valid(t: Tables) {
    RRSetsOrdered(t.rrsets) && RRsOrdered(t.rrs) && UniqueRRSets(t.rrsets) && UniqueRRs(t.rrs) && References(t)
  }

  // ----- What the statements mean --------------------------------------------------------------

  predicate KeyIs(r: RRSetRow, zoneId: nat, rrLabel: Name, rrtype: RRType) {
    r.zoneId == zoneId && r.rrLabel == rrLabel && r.rrtype == rrtype
  }

  /** The id found is that of a row with this key; 0 means that there is none. */
  lemma {:induction false} RRSetIdFinds(rows: seq<RRSetRow>, zoneId: nat, rrLabel: Name, rrtype: RRType)
    requires RRSetsOrdered(rows)
    ensures var id := RRSetId(rows, zoneId, rrLabel, rrtype);
            if id == 0 then forall r | r in rows :: !KeyIs(r, zoneId, rrLabel, rrtype)
            else exists r | r in rows :: r.id == id && KeyIs(r, zoneId, rrLabel, rrtype)
  {
    if rows != [] {
      var init, last := rows[..|rows| - 1], rows[|rows| - 1];
      assert forall r | r in init :: r in rows;
      assert last in rows;
      RRSetIdFinds(init, zoneId, rrLabel, rrtype);
      assert forall r | r in rows :: r in init || r == last;
    }
  }

  /** A row is found under its own key. */
  lemma RRSetIdOf(rows: seq<RRSetRow>, row: RRSetRow)
    requires RRSetsOrdered(rows) && UniqueRRSets(rows) && row in rows
    ensures RRSetId(rows, row.zoneId, row.rrLabel, row.rrtype) == row.id > 0
  {
    RRSetIdFinds(rows, row.zoneId, row.rrLabel, row.rrtype);
    assert row.id > 0;
  }

  lemma {:induction false} RRIdFinds(rows: seq<RRRow>, rrsetId: nat, data: string)
    requires RRsOrdered(rows)
    ensures var id := RRId(rows, rrsetId, data);
            if id == 0 then forall r | r in rows :: !(r.rrsetId == rrsetId && r.data == data)
            else exists r | r in rows :: r.id == id && r.rrsetId == rrsetId && r.data == data
  {
    if rows != [] {
      var init, last := rows[..|rows| - 1], rows[|rows| - 1];
      assert forall r | r in init :: r in rows;
      assert last in rows;
      RRIdFinds(init, rrsetId, data);
      assert forall r | r in rows :: r in init || r == last;
    }
  }

  /** Comparing the text of label and type compares the names and the types. */
  lemma {:induction false} TextKeys(rows: seq<RRSetRow>, zoneId: nat, rrLabel: Name, rrtype: RRType)
    ensures RRSetIdByText(rows, zoneId, Uri(rrLabel), rrtype.ToString()) == RRSetId(rows, zoneId, rrLabel, rrtype)
  {
    hide Uri;
    if rows != [] {
      var row := rows[|rows| - 1];
      TextKeys(rows[..|rows| - 1], zoneId, rrLabel, rrtype);
      if Uri(row.rrLabel) == Uri(rrLabel) {
        UriInjective(row.rrLabel, rrLabel);
      }
      RRTypeInjective(row.rrtype, rrtype);
    }
  }

  /** Id 0, the "absent" mark, selects nothing. */
  lemma ZeroSelectsNothing(t: Tables)
    requires Valid(t)
    ensures Select(t.rrs, 0) == []
  {
    forall r | r in t.rrs
      ensures !InSet(0)(r)
    {
      assert HasRRSet(t.rrsets, r.rrsetId);
    }
    FilterNone(t.rrs, InSet(0));
  }

  lemma DatasSnoc(rows: seq<RRRow>, r: RRRow)
    ensures Datas(rows + [r]) == Datas(rows) + [r.data]
  {
  }

  /** Filtering the rows of one set by data filters their data. */
  lemma {:induction false} DatasFilter(rows: seq<RRRow>, rrsetId: nat, data: string)
    requires forall r | r in rows :: r.rrsetId == rrsetId
    ensures Datas(Filter(rows, NotPair(rrsetId, data))) == Filter(Datas(rows), NotData(data))
  {
    if rows != [] {
      var init, r := rows[..|rows| - 1], rows[|rows| - 1];
      assert r in rows;
      DatasFilter(init, rrsetId, data);
      assert rows == init + [r];
      DatasSnoc(init, r);
      FilterSnoc(Datas(init), r.data, NotData(data));
      DatasSnoc(Filter(init, NotPair(rrsetId, data)), r);
      assert Filter(init, NotPair(rrsetId, data)) + [] == Filter(init, NotPair(rrsetId, data));
    }
  }

  lemma SelectMembers(rows: seq<RRRow>, rrsetId: nat)
    ensures forall r :: r in Select(rows, rrsetId) <==> r in rows && r.rrsetId == rrsetId
  {
    forall r
      ensures r in Select(rows, rrsetId) <==> r in rows && r.rrsetId == rrsetId
    {
      FilterMember(rows, InSet(rrsetId), r);
    }
  }

  /** An insert appends the datum to its set, dropping an earlier copy; other sets keep theirs. */
  lemma InsertSelects(rows: seq<RRRow>, rrsetId: nat, ttl: nat, data: string, other: nat)
    ensures Datas(Select(InsertRR(rows, rrsetId, ttl, data), other))
            == if other == rrsetId then Filter(Datas(Select(rows, rrsetId)), NotData(data)) + [data]
               else Datas(Select(rows, other))
  {
    var kept := Filter(rows, NotPair(rrsetId, data));
    var row := RRRow(NextRRId(kept), rrsetId, ttl, data);
    FilterSnoc(kept, row, InSet(other));
    FilterCommutes(rows, NotPair(rrsetId, data), InSet(other));
    SelectMembers(rows, other);
    if other == rrsetId {
      DatasFilter(Select(rows, other), rrsetId, data);
      DatasSnoc(Select(kept, other), row);
    } else {
      FilterAll(Select(rows, other), NotPair(rrsetId, data));
      assert Select(kept, other) + [] == Select(kept, other);
    }
  }

  /** What an insert writes: the rows before it but for an earlier copy, unchanged and in order, and
      behind them one row with the given set, time-to-live and data and an id above all of theirs. */
  lemma InsertWrites(rows: seq<RRRow>, rrsetId: nat, ttl: nat, data: string)
    requires RRsOrdered(rows) && UniqueRRs(rows)
    ensures var rows' := InsertRR(rows, rrsetId, ttl, data);
            var row := rows'[|rows'| - 1];
            row == RRRow(row.id, rrsetId, ttl, data)
            && rows'[..|rows'| - 1] == Filter(rows, NotPair(rrsetId, data))
            && (forall r | r in rows'[..|rows'| - 1] :: r in rows && r.id < row.id)
            && (forall r | r in rows :: r in rows' || (r.rrsetId == rrsetId && r.data == data))
  {
    var kept := Filter(rows, NotPair(rrsetId, data));
    FilterOrdered(rows, NotPair(rrsetId, data));
    var rows' := InsertRR(rows, rrsetId, ttl, data);
    assert rows'[..|kept|] == kept;
    forall r | r in rows
      ensures r in rows' || (r.rrsetId == rrsetId && r.data == data)
    {
      FilterMember(rows, NotPair(rrsetId, data), r);
    }
    forall r | r in kept
      ensures r.id < rows'[|kept|].id
    {
      var i :| 0 <= i < |kept| && kept[i] == r;
    }
  }

  /** Deleting a set's records empties it and touches no other. */
  lemma DeleteSetSelects(rows: seq<RRRow>, rrsetId: nat, other: nat)
    ensures Select(Filter(rows, NotInSet(rrsetId)), other)
            == if other == rrsetId then [] else Select(rows, other)
  {
    FilterCommutes(rows, NotInSet(rrsetId), InSet(other));
    SelectMembers(rows, other);
    if other == rrsetId {
      FilterNone(Select(rows, other), NotInSet(rrsetId));
    } else {
      FilterAll(Select(rows, other), NotInSet(rrsetId));
    }
  }

  lemma {:induction false} FilterAgree<T>(xs: seq<T>, p: T -> bool, q: T -> bool)
    requires forall x | x in xs :: p(x) == q(x)
    ensures Filter(xs, p) == Filter(xs, q)
  {
    if xs != [] {
      FilterAgree(xs[..|xs| - 1], p, q);
      assert xs[|xs| - 1] in xs;
    }
  }

  /** With unique ids and pairs, deleting by id is deleting that row's datum from its set. */
  lemma DeleteIdIsDeletePair(rows: seq<RRRow>, row: RRRow)
    requires RRsOrdered(rows) && UniqueRRs(rows) && row in rows
    ensures Filter(rows, NotId(row.id)) == Filter(rows, NotPair(row.rrsetId, row.data))
  {
    forall x | x in rows
      ensures NotId(row.id)(x) == NotPair(row.rrsetId, row.data)(x)
    {
      var i :| 0 <= i < |rows| && rows[i] == x;
      var j :| 0 <= j < |rows| && rows[j] == row;
    }
    FilterAgree(rows, NotId(row.id), NotPair(row.rrsetId, row.data));
  }

  lemma DeletePairSelects(rows: seq<RRRow>, rrsetId: nat, data: string, other: nat)
    ensures Datas(Select(Filter(rows, NotPair(rrsetId, data)), other))
            == if other == rrsetId then Filter(Datas(Select(rows, rrsetId)), NotData(data))
               else Datas(Select(rows, other))
  {
    FilterCommutes(rows, NotPair(rrsetId, data), InSet(other));
    SelectMembers(rows, other);
    if other == rrsetId {
      DatasFilter(Select(rows, other), rrsetId, data);
    } else {
      FilterAll(Select(rows, other), NotPair(rrsetId, data));
    }
  }

  // ----- What keeps the invariant --------------------------------------------------------------

  predicate Apart(a: RRRow, b: RRRow) {
    a.id < b.id && !(a.rrsetId == b.rrsetId && a.data == b.data)
  }

  predicate AllApart(rows: seq<RRRow>) {
    forall i, j | 0 <= i < j < |rows| :: Apart(rows[i], rows[j])
  }

  lemma {:induction false} FilterApart(rows: seq<RRRow>, keep: RRRow -> bool)
    requires AllApart(rows)
    ensures AllApart(Filter(rows, keep))
  {
    if rows != [] {
      var init, last := rows[..|rows| - 1], rows[|rows| - 1];
      FilterApart(init, keep);
      forall r | r in Filter(init, keep)
        ensures Apart(r, last)
      {
        FilterMember(init, keep, r);
        var i :| 0 <= i < |init| && init[i] == r;
        assert rows[i] == r;
      }
    }
  }

  lemma FilterOrdered(rows: seq<RRRow>, keep: RRRow -> bool)
    requires RRsOrdered(rows) && UniqueRRs(rows)
    ensures RRsOrdered(Filter(rows, keep)) && UniqueRRs(Filter(rows, keep))
    ensures forall r | r in Filter(rows, keep) :: r in rows && keep(r)
  {
    assert AllApart(rows);
    FilterApart(rows, keep);
    forall r | r in Filter(rows, keep)
      ensures r in rows && keep(r)
    {
      FilterMember(rows, keep, r);
    }
    forall i, j | 0 <= i < j < |Filter(rows, keep)|
      ensures Apart(Filter(rows, keep)[i], Filter(rows, keep)[j])
    {
    }
  }

  lemma DeleteKeepsValid(t: Tables, keep: RRRow -> bool)
    requires Valid(t)
    ensures Valid(t.(rrs := Filter(t.rrs, keep)))
  {
    FilterOrdered(t.rrs, keep);
  }

  lemma InsertRRKeepsValid(t: Tables, rrsetId: nat, ttl: nat, data: string)
    requires Valid(t) && HasRRSet(t.rrsets, rrsetId)
    ensures Valid(t.(rrs := InsertRR(t.rrs, rrsetId, ttl, data)))
  {
    var kept := Filter(t.rrs, NotPair(rrsetId, data));
    FilterOrdered(t.rrs, NotPair(rrsetId, data));
    var rows := InsertRR(t.rrs, rrsetId, ttl, data);
    assert rows == kept + [rows[|kept|]];
    forall i | 0 <= i < |kept|
      ensures rows[i].id < rows[|kept|].id && !(rows[i].rrsetId == rrsetId && rows[i].data == data)
    {
      assert kept[i] in kept;
    }
  }

  lemma InsertRRSetOrdered(rows: seq<RRSetRow>, zoneId: nat, rrLabel: Name, cls: string, rrtype: RRType)
    requires RRSetsOrdered(rows) && UniqueRRSets(rows) && RRSetId(rows, zoneId, rrLabel, rrtype) == 0
    ensures var rows' := InsertRRSet(rows, zoneId, rrLabel, cls, rrtype); RRSetsOrdered(rows') && UniqueRRSets(rows')
    ensures !IndexViolated(rows, zoneId, rrLabel, cls, rrtype)
  {
    RRSetIdFinds(rows, zoneId, rrLabel, rrtype);
    var rows' := InsertRRSet(rows, zoneId, rrLabel, cls, rrtype);
    forall i | 0 <= i < |rows|
      ensures rows'[i].id < rows'[|rows|].id && !SameKey(rows'[i], rows'[|rows|])
    {
      assert rows[i] in rows;
    }
  }

  /** No record refers to an id that is not yet given out. */
  lemma NewSetIsEmpty(t: Tables)
    requires Valid(t)
    ensures Select(t.rrs, NextRRSetId(t.rrsets)) == []
  {
    forall r | r in t.rrs
      ensures !InSet(NextRRSetId(t.rrsets))(r)
    {
      assert HasRRSet(t.rrsets, r.rrsetId);
      var s :| s in t.rrsets && s.id == r.rrsetId;
      var i :| 0 <= i < |t.rrsets| && t.rrsets[i] == s;
    }
    FilterNone(t.rrs, InSet(NextRRSetId(t.rrsets)));
  }

  lemma InsertRRSetKeepsValid(t: Tables, zoneId: nat, rrLabel: Name, cls: string, rrtype: RRType)
    requires Valid(t) && RRSetId(t.rrsets, zoneId, rrLabel, rrtype) == 0
    ensures Valid(t.(rrsets := InsertRRSet(t.rrsets, zoneId, rrLabel, cls, rrtype)))
    ensures HasRRSet(InsertRRSet(t.rrsets, zoneId, rrLabel, cls, rrtype), NextRRSetId(t.rrsets))
  {
    InsertRRSetOrdered(t.rrsets, zoneId, rrLabel, cls, rrtype);
    var rows := InsertRRSet(t.rrsets, zoneId, rrLabel, cls, rrtype);
    assert rows[|t.rrsets|] in rows;
    forall r | r in t.rrs
      ensures HasRRSet(rows, r.rrsetId)
    {
      assert HasRRSet(t.rrsets, r.rrsetId);
      var s :| s in t.rrsets && s.id == r.rrsetId;
      assert s in rows;
    }
  }

  /** A new record set is found under its key; every other key finds what it found before. */
  lemma InsertRRSetLookup(rows: seq<RRSetRow>, zoneId: nat, rrLabel: Name, cls: string, rrtype: RRType,
                          z: nat, l: Name, ty: RRType)
    ensures RRSetId(InsertRRSet(rows, zoneId, rrLabel, cls, rrtype), z, l, ty)
            == if z == zoneId && l == rrLabel && ty == rrtype then NextRRSetId(rows) else RRSetId(rows, z, l, ty)
  {
    assert InsertRRSet(rows, zoneId, rrLabel, cls, rrtype)[..|rows|] == rows;
  }

  // ----- The rows of a key ---------------------------------------------------------------------

  /** The row belongs to the set with this key. */
  predicate OfKey(t: Tables, row: RRRow, zoneId: nat, rrLabel: Name, rrtype: RRType) {
    exists s | s in t.rrsets :: s.id == row.rrsetId && KeyIs(s, zoneId, rrLabel, rrtype)
  }

  /** The rows selected for a key are those of its set, in the order of their ids. */
  lemma SelectedRows(t: Tables, zoneId: nat, rrLabel: Name, rrtype: RRType)
    requires Valid(t)
    ensures var rows := Select(t.rrs, RRSetId(t.rrsets, zoneId, rrLabel, rrtype));
            RRsOrdered(rows)
            && forall r :: r in rows <==> r in t.rrs && OfKey(t, r, zoneId, rrLabel, rrtype)
  {
    hide References;
    var id := RRSetId(t.rrsets, zoneId, rrLabel, rrtype);
    FilterOrdered(t.rrs, InSet(id));
    SelectMembers(t.rrs, id);
    RRSetIdFinds(t.rrsets, zoneId, rrLabel, rrtype);
    if id == 0 {
      ZeroSelectsNothing(t);
    }
    hide Select, RRSetId;
    forall r | r in t.rrs
      ensures r.rrsetId == id && id != 0 <==> OfKey(t, r, zoneId, rrLabel, rrtype)
    {
      if OfKey(t, r, zoneId, rrLabel, rrtype) {
        var s :| s in t.rrsets && s.id == r.rrsetId && KeyIs(s, zoneId, rrLabel, rrtype);
        RRSetIdOf(t.rrsets, s);
      }
    }
  }

  // ----- A zone as its records per label and type ----------------------------------------------

  /** What the tables hold for one zone. */
  function View(t: Tables, zoneId: nat): ZoneView {
    map s | s in t.rrsets && s.zoneId == zoneId ::
      RecordKey(s.rrLabel, s.rrtype) := Lookup(t, zoneId, s.rrLabel, s.rrtype)
  }

  lemma InView(t: Tables, s: RRSetRow)
    requires s in t.rrsets
    ensures var k := RecordKey(s.rrLabel, s.rrtype);
            k in View(t, s.zoneId) && View(t, s.zoneId)[k] == Lookup(t, s.zoneId, s.rrLabel, s.rrtype)
  {
    hide Lookup;
    assert RecordKey(s.rrLabel, s.rrtype) in View(t, s.zoneId);
  }

  lemma ViewRecords(t: Tables, zoneId: nat, rrLabel: Name, rrtype: RRType)
    requires Valid(t)
    ensures Records(View(t, zoneId), rrLabel, rrtype) == Lookup(t, zoneId, rrLabel, rrtype)
  {
    hide Lookup;
    RRSetIdFinds(t.rrsets, zoneId, rrLabel, rrtype);
    if RRSetId(t.rrsets, zoneId, rrLabel, rrtype) != 0 {
      var s :| s in t.rrsets && KeyIs(s, zoneId, rrLabel, rrtype);
      InView(t, s);
    } else {
      AbsentLookup(t, zoneId, rrLabel, rrtype);
    }
  }

  lemma AbsentLookup(t: Tables, zoneId: nat, rrLabel: Name, rrtype: RRType)
    requires Valid(t) && RRSetId(t.rrsets, zoneId, rrLabel, rrtype) == 0
    ensures Lookup(t, zoneId, rrLabel, rrtype) == []
  {
    ZeroSelectsNothing(t);
  }

  /** A joined row gives its set's key in the view a record. */
  lemma JoinedHasAuth(t: Tables, zoneId: nat, rrLabel: Name, rrtype: RRType, s: RRSetRow, r: RRRow)
    requires Valid(t) && s in t.rrsets && Extension(s, zoneId, rrtype, rrLabel)
    requires r in t.rrs && r.rrsetId == s.id
    ensures HasAuth(View(t, zoneId), rrLabel, rrtype)
  {
    hide Extends;
    RRSetIdOf(t.rrsets, s);
    SelectMembers(t.rrs, s.id);
    assert r in Select(t.rrs, s.id);
    InView(t, s);
  }

  lemma AuthIsJoined(t: Tables, zoneId: nat, rrLabel: Name, rrtype: RRType) returns (s: RRSetRow, r: RRRow)
    requires Valid(t) && HasAuth(View(t, zoneId), rrLabel, rrtype)
    ensures s in t.rrsets && Extension(s, zoneId, rrtype, rrLabel) && r in t.rrs && r.rrsetId == s.id
  {
    hide Extends;
    var k :| k in View(t, zoneId) && k.rrtype == rrtype && View(t, zoneId)[k] != [] && Extends(rrLabel, k.rrLabel);
    s :| s in t.rrsets && s.zoneId == zoneId && RecordKey(s.rrLabel, s.rrtype) == k;
    RRSetIdOf(t.rrsets, s);
    r := Select(t.rrs, s.id)[0];
    SelectMembers(t.rrs, s.id);
  }

  /** The count of the JOIN is positive exactly when the zone has Auth for the label. */
  lemma JoinCountIsAuth(t: Tables, zoneId: nat, rrLabel: Name, rrtype: RRType)
    requires Valid(t)
    ensures JoinCount(t, zoneId, rrtype, rrLabel) > 0 <==> HasAuth(View(t, zoneId), rrLabel, rrtype)
  {
    hide Extends, HasAuth, View;
    var keep := JoinedTo(t, zoneId, rrtype, rrLabel);
    if JoinCount(t, zoneId, rrtype, rrLabel) > 0 {
      var r := Filter(t.rrs, keep)[0];
      FilterMember(t.rrs, keep, r);
      var s :| s in t.rrsets && s.id == r.rrsetId && Extension(s, zoneId, rrtype, rrLabel);
      JoinedHasAuth(t, zoneId, rrLabel, rrtype, s, r);
    }
    if HasAuth(View(t, zoneId), rrLabel, rrtype) {
      var s, r := AuthIsJoined(t, zoneId, rrLabel, rrtype);
      FilterMember(t.rrs, keep, r);
    }
  }
}
