/** Registration of a subzone with its parent: a certificate record and the delegation. */
module ZoneRegister {
  import opened Dyndns
  import opened Enums
  import opened Managers
  import opened Names
  import opened Protocol
  import opened ResourceRecords
  import opened ResponseCodec
  import opened Tables

  /** What is registered: the labels relative to the parent zone, and the records. The
      certificate is one opaque record. */
  datatype Registration = Registration(zone: Zone, certLabel: Name, certData: string,
                                       rrLabel: Name, rrtype: RRType, datas: seq<string>)

  function SetValues(r: Registration): seq<RRSetValue> {
    [RRSetValue(0, r.zone, r.certLabel, "NULL", IdCert), RRSetValue(0, r.zone, r.rrLabel, "NULL", r.rrtype)]
  }

  /** The certificate in its set, then every name server in the delegation's set. */
  function RecordValues(r: Registration, ids: seq<nat>): seq<RRValue>
    requires |ids| == 2
  {
    [DEFAULT_RR.(rrset := SetValues(r)[0].(id := ids[0]), data := r.certData)]
    + seq(|r.datas|, i requires 0 <= i < |r.datas| =>
        DEFAULT_RR.(rrset := SetValues(r)[1].(id := ids[1]), data := r.datas[i]))
  }

  lemma RecordsAre(r: Registration, ids: seq<nat>)
    requires |ids| == 2
    ensures |RecordValues(r, ids)| == 1 + |r.datas|
    ensures RecordValues(r, ids)[0] == DEFAULT_RR.(rrset := SetValues(r)[0].(id := ids[0]), data := r.certData)
    ensures forall i | 0 <= i < |r.datas| ::
              RecordValues(r, ids)[1 + i] == DEFAULT_RR.(rrset := SetValues(r)[1].(id := ids[1]), data := r.datas[i])
  {
  }

  datatype Registered = Registered(tables: Tables, rrs: seq<RRValue>, ok: bool)

  /** The tables and the records after a registration; where a set violates the unique index the
      sets before it stay and nothing else is written. */
  function Register(t: Tables, r: Registration): Registered {
    var sets := InsertRRSets(t.rrsets, SetValues(r));
    if !sets.ok then Registered(t.(rrsets := sets.rows), [], false)
    else
      var values := RecordValues(r, sets.ids);
      var rows := InsertRRs(t.rrs, values);
      Registered(Tables(sets.rows, rows.rows), WithIds(values, rows.ids), true)
  }

  function WithIds(vs: seq<RRValue>, ids: seq<nat>): seq<RRValue>
    requires |ids| == |vs|
  {
    seq(|vs|, i requires 0 <= i < |vs| => vs[i].(id := ids[i]))
  }

  /** What is registered for these names: both labels are cut off behind the parent zone's length. */
  function Plan(zone: Zone, subzone: Name, certName: Name, certData: string, rrtype: RRType, datas: seq<string>)
    : Registration
  {
    Registration(zone, GetSubName(certName, |zone.name|, |certName|), certData,
                 GetSubName(subzone, |zone.name|, |subzone|), rrtype, datas)
  }

  /** The labels written are what lies behind the parent zone's length: relative to the parent, for
      names below it. */
  lemma PlannedKeys(zone: Zone, subzone: Name, certName: Name, certData: string, rrtype: RRType, datas: seq<string>)
    ensures var r := Plan(zone, subzone, certName, certData, rrtype, datas);
            r.zone == zone && r.rrtype == rrtype && r.certData == certData && r.datas == datas
            && r.rrLabel == (if |zone.name| <= |subzone| then subzone[|zone.name|..] else [])
            && r.certLabel == (if |zone.name| <= |certName| then certName[|zone.name|..] else [])
            && (zone.name <= subzone ==> zone.name + r.rrLabel == subzone)
            && (zone.name <= certName ==> zone.name + r.certLabel == certName)
  {
  }

  /** For fresh keys: success, the table invariant, the servers de-duplicated under the label, the
      certificate under its own, and no other answer changed. */
  ghost predicate RegisteredAs(t: Tables, t': Tables, zone: Zone, certLabel: Name, certData: string,
                               rrLabel: Name, rrtype: RRType, datas: seq<string>, done: bool) {
    Valid(t) && Fresh(t, zone, certLabel, IdCert) && Fresh(t, zone, rrLabel, rrtype)
    && !(rrLabel == certLabel && rrtype == IdCert)
    ==> done && Valid(t')
        && forall z, l, ty :: Lookup(t', z, l, ty)
             == if z == zone.id && l == rrLabel && ty == rrtype then KeepLast(datas)
                else if z == zone.id && l == certLabel && ty == IdCert then [certData]
                else Lookup(t, z, l, ty)
  }

  lemma RegistrationOutcome(t: Tables, r: Registration)
    ensures RegisteredAs(t, Register(t, r).tables, r.zone, r.certLabel, r.certData, r.rrLabel, r.rrtype, r.datas,
                         Register(t, r).ok)
  {
    hide Valid, Register, Lookup, KeepLast;
    if Valid(t) && FreshKeys(t, r) && !(r.rrLabel == r.certLabel && r.rrtype == IdCert) {
      forall z, l, ty { RegistrationDelegates(t, r, z, l, ty); }
      RegistrationDelegates(t, r, 0, [], NS);
    }
  }

  class ZoneRegister {
    const db: Database
    var zone: Zone
    const subzone: Name
    const certName: Name
    const certData: string
    var rrType: RRType
    var nsDatas: seq<string>
    var rrs: seq<RRValue>

    constructor (db: Database, zone: Zone, subzone: Name, certName: Name, certData: string)
      ensures this.db == db && this.zone == zone && this.subzone == subzone
      ensures this.certName == certName && this.certData == certData
      ensures rrType == NS && nsDatas == [] && rrs == []
    {
      this.db, this.zone, this.subzone, this.certName, this.certData := db, zone, subzone, certName, certData;
      rrType, nsDatas, rrs := NS, [], [];
    }

    function Planned(): Registration
      reads this
    {
      Plan(zone, subzone, certName, certData, rrType, nsDatas)
    }

    /** Registers the subzone. The result is false when the parent zone is not in the database,
        and `thrown` tells that the database refused a row. */
    method DoRegisterZone() returns (done: bool, thrown: bool)
      modifies this, db`tables
      ensures zone.name == old(zone.name) && rrType == old(rrType) && nsDatas == old(nsDatas)
      ensures old(zone.name) !in old(db.zones)
              ==> !done && !thrown && db.tables == old(db.tables) && zone == old(zone) && rrs == old(rrs)
      ensures old(zone.name) in old(db.zones)
              ==> zone.id == old(db.zones)[old(zone.name)]
                  && var r := Register(old(db.tables), Planned());
                     db.tables == r.tables && done == r.ok && thrown == !r.ok && rrs == old(rrs) + r.rrs
      ensures old(zone.name) in old(db.zones) && zone.name <= subzone && zone.name <= certName
              ==> RegisteredAs(old(db.tables), db.tables, zone, certName[|zone.name|..], certData,
                               subzone[|zone.name|..], rrType, nsDatas, done)
    {
      hide GetSubName, InsertRRs, InsertRRSets, WithIds;
      if zone.name !in db.zones {
        return false, false;
      }
      zone := zone.(id := db.zones[zone.name]);
      ghost var plan := Planned();
      PlannedKeys(zone, subzone, certName, certData, rrType, nsDatas);
      RegistrationOutcome(db.tables, plan);
      var rrset := new RRSet(DEFAULT_RRSET.(zone := zone));
      rrset.rrLabel := GetSubName(certName, |zone.name|, |certName|);
      rrset.cls := "NULL";
      rrset.rrtype := IdCert;
      var rrset2 := new RRSet(DEFAULT_RRSET.(zone := zone));
      rrset2.rrLabel := GetSubName(subzone, |zone.name|, |subzone|);
      rrset2.cls := "NULL";
      rrset2.rrtype := rrType;
      var inserted := InsertSets(rrset, rrset2, plan);
      if !inserted {
        return false, true;
      }
      var written := InsertRecords(rrset.Value(), rrset2.Value(), plan, [rrset.id, rrset2.id]);
      rrs := rrs + written;
      return true, false;
    }

    method InsertSets(rrset: RRSet, rrset2: RRSet, ghost plan: Registration) returns (ok: bool)
      requires rrset != rrset2 && [rrset.Value(), rrset2.Value()] == SetValues(plan)
      modifies db`tables, rrset, rrset2
      ensures var sets := InsertRRSets(old(db.tables.rrsets), SetValues(plan));
              ok == sets.ok && db.tables == old(db.tables).(rrsets := sets.rows)
              && (ok ==> rrset.Value() == SetValues(plan)[0].(id := sets.ids[0])
                         && rrset2.Value() == SetValues(plan)[1].(id := sets.ids[1]))
    {
      var rrsetMgr := new RRSetMgr(db);
      rrsetMgr.AddRRSet(rrset);
      rrsetMgr.AddRRSet(rrset2);
      assert rrsetMgr.rrsets[0] == rrset && rrsetMgr.rrsets[1] == rrset2;
      assert rrset in rrsetMgr.rrsets && rrset2 in rrsetMgr.rrsets;
      assert LastAt(rrsetMgr.rrsets, 0, 2) && LastAt(rrsetMgr.rrsets, 1, 2);
      assert RRSetValues(rrsetMgr.rrsets) == SetValues(plan);
      ok := rrsetMgr.Insert();
    }

    /** Builds one record object per datum, inserts them all and copies them out. */
    method InsertRecords(set1: RRSetValue, set2: RRSetValue, ghost plan: Registration, ghost ids: seq<nat>)
      returns (written: seq<RRValue>)
      requires |ids| == 2 && plan == Planned()
      requires set1 == SetValues(plan)[0].(id := ids[0]) && set2 == SetValues(plan)[1].(id := ids[1])
      modifies db`tables
      ensures var rows := InsertRRs(old(db.tables.rrs), RecordValues(plan, ids));
              db.tables == old(db.tables).(rrs := rows.rows) && written == WithIds(RecordValues(plan, ids), rows.ids)
    {
      hide InsertRRs, GetSubName, RecordValues, WithIds;
      ghost var values := RecordValues(plan, ids);
      var rrMgr := GatherRecords(set1, set2, plan, ids);
      assert RRValues(rrMgr.rrs) == values;
      rrMgr.Insert();
      assert forall j | 0 <= j < |values| :: rrMgr.rrs[j] in rrMgr.rrs && LastAt(rrMgr.rrs, j, |values|);
      written := CopyOut(rrMgr.rrs);
      RecordsCopied(values, InsertRRs(old(db.tables.rrs), values).ids, written);
    }

    /** One object for the certificate and one per name server. */
    method GatherRecords(set1: RRSetValue, set2: RRSetValue, ghost plan: Registration, ghost ids: seq<nat>)
      returns (rrMgr: RRMgr)
      requires |ids| == 2 && plan == Planned()
      requires set1 == SetValues(plan)[0].(id := ids[0]) && set2 == SetValues(plan)[1].(id := ids[1])
      ensures fresh(rrMgr) && fresh(rrMgr.rrs) && rrMgr.db == db && |rrMgr.rrs| == |RecordValues(plan, ids)|
      ensures forall j | 0 <= j < |rrMgr.rrs| :: rrMgr.rrs[j].Value() == RecordValues(plan, ids)[j]
      ensures forall j, k | 0 <= j < k < |rrMgr.rrs| :: rrMgr.rrs[j] != rrMgr.rrs[k]
    {
      hide GetSubName, RecordValues;
      RecordsAre(plan, ids);
      ghost var values := RecordValues(plan, ids);
      hide SetValues, DEFAULT_RR;
      rrMgr := new RRMgr(db);
      AddRecord(rrMgr, set1, certData);
      var i := 0;
      while i < |nsDatas|
        invariant 0 <= i <= |nsDatas| && |rrMgr.rrs| == 1 + i && fresh(rrMgr) && fresh(rrMgr.rrs) && rrMgr.db == db
        invariant forall j | 0 <= j <= i :: rrMgr.rrs[j].Value() == values[j]
        invariant forall j, k | 0 <= j < k <= i :: rrMgr.rrs[j] != rrMgr.rrs[k]
      {
        AddRecord(rrMgr, set2, nsDatas[i]);
        i := i + 1;
      }
    }
  }

  /** One more record object of this set. */
  method AddRecord(rrMgr: RRMgr, rrset: RRSetValue, data: string)
    modifies rrMgr
    ensures |rrMgr.rrs| == |old(rrMgr.rrs)| + 1 && rrMgr.rrs[..|old(rrMgr.rrs)|] == old(rrMgr.rrs)
    ensures var last := rrMgr.rrs[|old(rrMgr.rrs)|];
            fresh(last) && last.Value() == DEFAULT_RR.(rrset := rrset, data := data)
  {
    var rr := new RR(DEFAULT_RR.(rrset := rrset));
    rr.data := data;
    rrMgr.AddRR(rr);
  }

  lemma RecordsCopied(vs: seq<RRValue>, ids: seq<nat>, copies: seq<RRValue>)
    requires |ids| == |vs| == |copies| && forall j | 0 <= j < |vs| :: copies[j] == vs[j].(id := ids[j])
    ensures copies == WithIds(vs, ids)
  {
  }

  /** The records behind the pointers. */
  method CopyOut(rrs: seq<RR>) returns (copies: seq<RRValue>)
    ensures copies == RRValues(rrs)
  {
    copies := [];
    var i := 0;
    while i < |rrs|
      invariant 0 <= i <= |rrs| && |copies| == i
      invariant forall j | 0 <= j < i :: copies[j] == rrs[j].Value()
    {
      copies := copies + [rrs[i].Value()];
      i := i + 1;
    }
  }

  // ----- What a registration means -------------------------------------------------------------

  /** The list with every element kept at its last occurrence only. */
  function KeepLast(xs: seq<string>): seq<string> {
    if xs == [] then []
    else if xs[0] in xs[1..] then KeepLast(xs[1..])
    else [xs[0]] + KeepLast(xs[1..])
  }

  lemma {:induction false} KeepLastMembers(xs: seq<string>, d: string)
    ensures d in KeepLast(xs) <==> d in xs
  {
    if xs != [] {
      KeepLastMembers(xs[1..], d);
      assert xs == [xs[0]] + xs[1..];
    }
  }

  lemma FilterCons(x: string, xs: seq<string>, keep: string -> bool)
    ensures Filter([x] + xs, keep) == (if keep(x) then [x] else []) + Filter(xs, keep)
  {
    if xs == [] {
      assert [x] + xs == [] + [x];
      FilterSnoc([], x, keep);
    } else {
      var init := xs[..|xs| - 1];
      assert ([x] + xs)[..|xs|] == [x] + init;
      FilterCons(x, init, keep);
    }
  }

  /** Appending an element drops its earlier occurrence: what the insert trigger does. */
  lemma {:induction false} KeepLastSnoc(xs: seq<string>, d: string)
    ensures KeepLast(xs + [d]) == Filter(KeepLast(xs), NotData(d)) + [d]
  {
    if xs == [] {
      assert ([] + [d])[1..] == [];
    } else {
      var tail := xs[1..];
      assert (xs + [d])[1..] == tail + [d];
      KeepLastSnoc(tail, d);
      FilterCons(xs[0], KeepLast(tail), NotData(d));
      if xs[0] == d {
        assert xs[0] in tail + [d];
        assert [] + Filter(KeepLast(tail), NotData(d)) == Filter(KeepLast(tail), NotData(d));
      } else {
        assert xs[0] in tail + [d] <==> xs[0] in tail;
      }
    }
  }

  /** No row of any class holds the key yet. */
  predicate Fresh(t: Tables, zone: Zone, rrLabel: Name, rrtype: RRType) {
    forall s | s in t.rrsets :: !KeyIs(s, zone.id, rrLabel, rrtype)
  }

  predicate FreshKeys(t: Tables, r: Registration) {
    Fresh(t, r.zone, r.certLabel, IdCert) && Fresh(t, r.zone, r.rrLabel, r.rrtype)
  }

  /** Both sets in place: two rows, the second after the first. */
  lemma TwoSets(t: Tables, r: Registration)
    ensures var rows, vs := t.rrsets, SetValues(r);
            var rows1 := InsertRRSet(rows, r.zone.id, r.certLabel, "NULL", IdCert);
            InsertRRSets(rows, vs)
            == if IndexViolated(rows, r.zone.id, r.certLabel, "NULL", IdCert) then Inserted(rows, [], false)
               else if IndexViolated(rows1, r.zone.id, r.rrLabel, "NULL", r.rrtype)
               then Inserted(rows1, [NextRRSetId(rows)], false)
               else Inserted(InsertRRSet(rows1, r.zone.id, r.rrLabel, "NULL", r.rrtype),
                             [NextRRSetId(rows), NextRRSetId(rows1)], true)
  {
    hide IndexViolated, NextRRSetId;
    var vs := SetValues(r);
    assert vs[..2] == vs;
    NoSetInserted(t.rrsets, vs);
    InsertRRSetsNext(t.rrsets, vs, 0);
    if InsertRRSets(t.rrsets, vs[..1]).ok {
      InsertRRSetsNext(t.rrsets, vs, 1);
      assert [] + [NextRRSetId(t.rrsets)] == [NextRRSetId(t.rrsets)];
    } else {
      RefusedPrefix(t.rrsets, vs, 1);
    }
  }

  /** Registration never duplicates a key exactly when both keys are fresh. The unique index does
      not see to it, because it also compares the class column. */
  lemma KeepsKeysUniqueExactly(t: Tables, r: Registration)
    requires Valid(t) && Register(t, r).ok
    ensures UniqueRRSets(Register(t, r).tables.rrsets) <==> FreshKeys(t, r)
  {
    TwoSets(t, r);
    var n, rows := |t.rrsets|, Register(t, r).tables.rrsets;
    assert rows[n].cls == rows[n + 1].cls && (forall i | 0 <= i < n :: rows[i] == t.rrsets[i]);
    var rows1 := InsertRRSet(t.rrsets, r.zone.id, r.certLabel, "NULL", IdCert);
    assert rows1[n] == rows[n] && rows1[n] in rows1;
    assert !SameKey(rows[n], rows[n + 1]);
    if FreshKeys(t, r) {
      forall i, j | 0 <= i < j < |rows|
        ensures !SameKey(rows[i], rows[j])
      {
        if j >= n && i < n {
          assert t.rrsets[i] in t.rrsets;
        }
      }
    }
    if UniqueRRSets(rows) {
      forall s | s in t.rrsets
        ensures !KeyIs(s, r.zone.id, r.certLabel, IdCert) && !KeyIs(s, r.zone.id, r.rrLabel, r.rrtype)
      {
        var i :| 0 <= i < n && t.rrsets[i] == s;
        assert !SameKey(rows[i], rows[n]) && !SameKey(rows[i], rows[n + 1]);
      }
    }
  }

  /** A key that an update creates, with any class but the registration's, is duplicated when it is
      registered afterwards: the unique index lets the second row through. */
  lemma UpdatedKeyIsDuplicated(t: Tables, zone: Zone, rr: RRValue, r: Registration)
    requires Valid(t) && zone.id != 0 && HarmlessId(t, zone, rr) && rr.action in {Add, ReplaceAll}
    requires SetOf(t, zone, rr) == 0 && rr.rrset.cls != "NULL"
    requires r.zone.id == zone.id && r.rrLabel == rr.rrset.rrLabel && r.rrtype == rr.rrset.rrtype
    requires Fresh(t, r.zone, r.certLabel, IdCert) && !(r.certLabel == r.rrLabel && r.rrtype == IdCert)
    ensures var t' := Updated(t, zone, rr);
            Valid(t') && Register(t', r).ok && !UniqueRRSets(Register(t', r).tables.rrsets)
  {
    hide Valid, Filter, InsertRRs, RecordValues, WithIds, Updated, Lookup, RRSetId, UniqueRRSets, InsertRRSets;
    var t' := Updated(t, zone, rr);
    UpdateKeepsValid(t, zone, rr);
    UpdateWrites(t, zone, rr);
    AbsentLookup(t, zone.id, rr.rrset.rrLabel, rr.rrset.rrtype);
    var s := t'.rrsets[|t'.rrsets| - 1];
    assert t'.rrsets == t.rrsets + [s];
    RRSetsAreOrdered(t);
    RRSetIdFinds(t.rrsets, zone.id, rr.rrset.rrLabel, rr.rrset.rrtype);
    TwoSets(t', r);
    LetThrough(t, s, r);
    assert KeyIs(s, r.zone.id, r.rrLabel, r.rrtype) && s in t'.rrsets;
    KeepsKeysUniqueExactly(t', r);
  }

  lemma RRSetsAreOrdered(t: Tables)
    requires Valid(t)
    ensures RRSetsOrdered(t.rrsets)
  {
  }

  /** The index refuses neither row when the only row with the key has another class. */
  lemma LetThrough(t: Tables, s: RRSetRow, r: Registration)
    requires Fresh(t, r.zone, r.certLabel, IdCert) && Fresh(t, r.zone, r.rrLabel, r.rrtype)
    requires KeyIs(s, r.zone.id, r.rrLabel, r.rrtype) && s.cls != "NULL"
    requires !(r.certLabel == r.rrLabel && r.rrtype == IdCert)
    ensures var rows := t.rrsets + [s];
            !IndexViolated(rows, r.zone.id, r.certLabel, "NULL", IdCert)
            && !IndexViolated(InsertRRSet(rows, r.zone.id, r.certLabel, "NULL", IdCert),
                              r.zone.id, r.rrLabel, "NULL", r.rrtype)
  {
    hide NextRRSetId;
  }

  /** A concrete case: a decoded ADD for `b` to an empty database, then the registration of `b`. */
  lemma RegistrationCanDuplicateAKey()
    ensures var rr := Received(DEFAULT_RR.(data := "/b/ns", action := Add), ["b"], NS);
            var t := Updated(Tables([], []), Zone(1, []), rr);
            var r := Registration(Zone(1, []), ["b", "ksk"], "cert", ["b"], NS, ["/b/ns"]);
            Valid(t) && Register(t, r).ok && !UniqueRRSets(Register(t, r).tables.rrsets)
  {
    hide Updated, Register, UniqueRRSets;
    var rr := Received(DEFAULT_RR.(data := "/b/ns", action := Add), ["b"], NS);
    var r := Registration(Zone(1, []), ["b", "ksk"], "cert", ["b"], NS, ["/b/ns"]);
    assert |["b", "ksk"]| == 2 && |["b"]| == 1;
    EmptyIsValid();
    UpdatedKeyIsDuplicated(Tables([], []), Zone(1, []), rr, r);
  }

  lemma EmptyIsValid()
    ensures Valid(Tables([], []))
  {
  }

  // ----- The rows of a registration ------------------------------------------------------------

  lemma {:induction false} FilterAppend<T>(xs: seq<T>, ys: seq<T>, keep: T -> bool)
    ensures Filter(xs + ys, keep) == Filter(xs, keep) + Filter(ys, keep)
  {
    if ys == [] {
      assert xs + ys == xs && Filter(xs, keep) + [] == Filter(xs, keep);
    } else {
      var init, y := ys[..|ys| - 1], ys[|ys| - 1];
      assert xs + ys == (xs + init) + [y];
      FilterAppend(xs, init, keep);
      FilterSnoc(xs + init, y, keep);
    }
  }

  predicate RowOf(r: RRRow, v: RRValue) {
    r.rrsetId == v.rrset.id && r.ttl == v.ttl && r.data == v.data
  }

  /** No later record has the same set and data. */
  predicate Kept(vs: seq<RRValue>, i: nat)
    requires i < |vs|
  {
    forall j | i < j < |vs| :: !(vs[j].rrset.id == vs[i].rrset.id && vs[j].data == vs[i].data)
  }

  /** The old rows in front, and behind them only rows of these records. */
  predicate OnlyRowsOf(rows: seq<RRRow>, after: seq<RRRow>, vs: seq<RRValue>) {
    rows <= after && forall r | r in after[|rows|..] :: exists v | v in vs :: RowOf(r, v)
  }

  /** Every record that no later one repeats has its row, under the id it was given. */
  predicate HaveRows(after: seq<RRRow>, ids: seq<nat>, vs: seq<RRValue>) {
    |ids| == |vs|
    && forall i | 0 <= i < |vs| && Kept(vs, i) :: RRRow(ids[i], vs[i].rrset.id, vs[i].ttl, vs[i].data) in after
  }

  predicate OtherSets(rows: seq<RRRow>, vs: seq<RRValue>) {
    forall r, v | r in rows && v in vs :: r.rrsetId != v.rrset.id
  }

  lemma {:induction false} InsertedOnly(rows: seq<RRRow>, vs: seq<RRValue>)
    requires OtherSets(rows, vs)
    ensures OnlyRowsOf(rows, InsertRRs(rows, vs).rows, vs)
  {
    hide InsertRR, RowOf;
    if vs == [] {
      assert InsertRRs(rows, vs).rows[|rows|..] == [];
    } else {
      var n := |vs| - 1;
      assert vs[..n + 1] == vs && vs[n] in vs && forall v | v in vs[..n] :: v in vs;
      InsertedOnly(rows, vs[..n]);
      InsertRRsNext(rows, vs, n);
      hide InsertRRs;
      OneMoreRow(rows, InsertRRs(rows, vs[..n]).rows, vs);
    }
  }

  lemma OneMoreRow(rows: seq<RRRow>, before: seq<RRRow>, vs: seq<RRValue>)
    requires vs != [] && OtherSets(rows, vs) && OnlyRowsOf(rows, before, vs[..|vs| - 1])
    ensures var v := vs[|vs| - 1];
            OnlyRowsOf(rows, InsertRR(before, v.rrset.id, v.ttl, v.data), vs)
  {
    hide InsertRR, Filter;
    var v, extra := vs[|vs| - 1], before[|rows|..];
    assert v in vs && forall x | x in vs[..|vs| - 1] :: x in vs;
    var row := BehindOldRows(rows, before, v);
    hide RowOf;
    forall r | r in Filter(extra, NotPair(v.rrset.id, v.data))
      ensures exists x | x in vs :: RowOf(r, x)
    {
      FilterMember(extra, NotPair(v.rrset.id, v.data), r);
      var x :| x in vs[..|vs| - 1] && RowOf(r, x);
    }
  }

  lemma {:induction false} InsertedAll(rows: seq<RRRow>, vs: seq<RRValue>)
    ensures HaveRows(InsertRRs(rows, vs).rows, InsertRRs(rows, vs).ids, vs)
  {
    hide InsertRR, NextRRId;
    if vs != [] {
      var n := |vs| - 1;
      assert vs[..n + 1] == vs;
      InsertedAll(rows, vs[..n]);
      InsertRRsNext(rows, vs, n);
      hide InsertRRs;
      OneMoreKept(InsertRRs(rows, vs[..n]), vs);
    }
  }

  lemma OneMoreKept(before: Inserted<RRRow>, vs: seq<RRValue>)
    requires vs != [] && HaveRows(before.rows, before.ids, vs[..|vs| - 1])
    ensures var v := vs[|vs| - 1];
            var after := InsertRR(before.rows, v.rrset.id, v.ttl, v.data);
            HaveRows(after, before.ids + [after[|after| - 1].id], vs)
  {
    hide Filter, NextRRId;
    var n := |vs| - 1;
    var v := vs[n];
    var after := InsertRR(before.rows, v.rrset.id, v.ttl, v.data);
    assert after[|after| - 1] == RRRow(after[|after| - 1].id, v.rrset.id, v.ttl, v.data);
    hide InsertRR;
    forall i | 0 <= i < n && Kept(vs, i)
      ensures RRRow(before.ids[i], vs[i].rrset.id, vs[i].ttl, vs[i].data) in after
    {
      var own := RRRow(before.ids[i], vs[i].rrset.id, vs[i].ttl, vs[i].data);
      assert Kept(vs[..n], i) && own in before.rows;
      StillThere(before.rows, v, own);
    }
  }

  /** One insert behind old rows of other sets. */
  lemma BehindOldRows(rows: seq<RRRow>, before: seq<RRRow>, v: RRValue) returns (row: RRRow)
    requires rows <= before && forall r | r in rows :: r.rrsetId != v.rrset.id
    ensures var after := InsertRR(before, v.rrset.id, v.ttl, v.data);
            rows <= after && RowOf(row, v) && after[|after| - 1] == row
            && row == RRRow(row.id, v.rrset.id, v.ttl, v.data)
            && after[|rows|..] == Filter(before[|rows|..], NotPair(v.rrset.id, v.data)) + [row]
  {
    var keep, extra := NotPair(v.rrset.id, v.data), before[|rows|..];
    assert before == rows + extra;
    FilterAppend(rows, extra, keep);
    FilterAll(rows, keep);
    hide NextRRId, Filter;
    var after := InsertRR(before, v.rrset.id, v.ttl, v.data);
    row := after[|after| - 1];
    assert after == rows + (Filter(extra, keep) + [row]);
  }

  lemma StillThere(before: seq<RRRow>, v: RRValue, own: RRRow)
    requires own in before && !(v.rrset.id == own.rrsetId && v.data == own.data)
    ensures own in InsertRR(before, v.rrset.id, v.ttl, v.data)
  {
    FilterMember(before, NotPair(v.rrset.id, v.data), own);
  }

  /** The set rows of a registration: two of class `NULL` behind the old ones, the certificate's and
      the delegation's. */
  predicate SetsWritten(t: Tables, r: Registration, rows: seq<RRSetRow>) {
    var n := |t.rrsets|;
    |rows| == n + 2 && t.rrsets <= rows
    && rows[n] == RRSetRow(rows[n].id, r.zone.id, r.certLabel, "NULL", IdCert)
    && rows[n + 1] == RRSetRow(rows[n + 1].id, r.zone.id, r.rrLabel, "NULL", r.rrtype)
  }

  /** The record rows of a registration into the sets `a` and `b`: behind the old ones, only rows of
      the certificate and of name servers with the default time-to-live; and every record copied out
      names its row by id, unless a later name server repeats it. */
  predicate RecordsWritten(t: Tables, r: Registration, rows: seq<RRRow>, rrs: seq<RRValue>, a: nat, b: nat) {
    t.rrs <= rows && |rrs| == 1 + |r.datas|
    && (forall row | row in rows[|t.rrs|..] ::
          row.ttl == 3600
          && ((row.rrsetId == a && row.data == r.certData) || (row.rrsetId == b && row.data in r.datas)))
    && RRRow(rrs[0].id, a, 3600, r.certData) in rows && rrs[0].data == r.certData && rrs[0].rrset.id == a
    && (forall i | 0 <= i < |r.datas| :: rrs[1 + i].data == r.datas[i] && rrs[1 + i].rrset.id == b)
    && (forall i | 0 <= i < |r.datas| && r.datas[i] !in r.datas[i + 1..] ::
          RRRow(rrs[1 + i].id, b, 3600, r.datas[i]) in rows)
  }

  /** What a registration of fresh keys writes, in full. */
  lemma RegistrationWrites(t: Tables, r: Registration)
    requires Valid(t) && FreshKeys(t, r) && !(r.rrLabel == r.certLabel && r.rrtype == IdCert)
    ensures var g := Register(t, r);
            g.ok && SetsWritten(t, r, g.tables.rrsets)
            && RecordsWritten(t, r, g.tables.rrs, g.rrs, g.tables.rrsets[|t.rrsets|].id,
                              g.tables.rrsets[|t.rrsets| + 1].id)
  {
    hide Valid, InsertRRs, InsertRRSets, Select, RRSetId, HasRRSet, FreshKeys, RecordValues, WithIds, RecordsWritten;
    CreatedSets(t, r);
    var sets := InsertRRSets(t.rrsets, SetValues(r));
    SetsAreWritten(t, r);
    RecordsAreWritten(t, r, sets.ids);
  }

  lemma SetsAreWritten(t: Tables, r: Registration)
    requires InsertRRSets(t.rrsets, SetValues(r)).ok
    ensures var sets := InsertRRSets(t.rrsets, SetValues(r));
            SetsWritten(t, r, sets.rows)
            && sets.ids == [sets.rows[|t.rrsets|].id, sets.rows[|t.rrsets| + 1].id]
  {
    hide NextRRSetId, IndexViolated;
    TwoSets(t, r);
    hide InsertRRSets;
  }

  lemma RecordsAreWritten(t: Tables, r: Registration, ids: seq<nat>)
    requires |ids| == 2 && ids[0] != ids[1] && Select(t.rrs, ids[0]) == [] == Select(t.rrs, ids[1])
    ensures var after := InsertRRs(t.rrs, RecordValues(r, ids));
            RecordsWritten(t, r, after.rows, WithIds(RecordValues(r, ids), after.ids), ids[0], ids[1])
  {
    hide InsertRRs, Select, RecordValues, OnlyRowsOf, HaveRows, RecordsWritten, OtherSets;
    var vs := RecordValues(r, ids);
    NewSetRows(t, r, ids);
    InsertedOnly(t.rrs, vs);
    InsertedAll(t.rrs, vs);
    RowsAreWritten(t, r, ids, InsertRRs(t.rrs, vs));
  }

  lemma OnlyRegistered(t: Tables, r: Registration, ids: seq<nat>, rows: seq<RRRow>)
    requires |ids| == 2 && OnlyRowsOf(t.rrs, rows, RecordValues(r, ids))
    ensures t.rrs <= rows
            && forall row | row in rows[|t.rrs|..] ::
                 row.ttl == 3600 && ((row.rrsetId == ids[0] && row.data == r.certData)
                                     || (row.rrsetId == ids[1] && row.data in r.datas))
  {
    hide RecordValues;
    WrittenValues(r, ids);
  }

  lemma RowsAreWritten(t: Tables, r: Registration, ids: seq<nat>, after: Inserted<RRRow>)
    requires |ids| == 2 && ids[0] != ids[1] && OnlyRowsOf(t.rrs, after.rows, RecordValues(r, ids))
    requires HaveRows(after.rows, after.ids, RecordValues(r, ids))
    ensures RecordsWritten(t, r, after.rows, WithIds(RecordValues(r, ids), after.ids), ids[0], ids[1])
  {
    hide RecordValues, Kept;
    var vs := RecordValues(r, ids);
    OnlyRegistered(t, r, ids, after.rows);
    RecordsAre(r, ids);
    KeptValues(r, ids);
    hide OnlyRowsOf, RowOf;
    forall i | 0 <= i < |r.datas| && r.datas[i] !in r.datas[i + 1..]
      ensures RRRow(after.ids[1 + i], ids[1], 3600, r.datas[i]) in after.rows
    {
      assert Kept(vs, 1 + i) && vs[1 + i].data == r.datas[i];
    }
  }

  /** No row belongs to either new set yet. */
  lemma NewSetRows(t: Tables, r: Registration, ids: seq<nat>)
    requires |ids| == 2 && Select(t.rrs, ids[0]) == [] == Select(t.rrs, ids[1])
    ensures OtherSets(t.rrs, RecordValues(r, ids))
  {
    hide Select;
    SelectMembers(t.rrs, ids[0]);
    SelectMembers(t.rrs, ids[1]);
    forall row, v | row in t.rrs && v in RecordValues(r, ids)
      ensures row.rrsetId != v.rrset.id
    {
      assert v.rrset.id == ids[0] || v.rrset.id == ids[1];
    }
  }

  lemma KeptValues(r: Registration, ids: seq<nat>)
    requires |ids| == 2 && ids[0] != ids[1]
    ensures |RecordValues(r, ids)| == 1 + |r.datas|
    ensures Kept(RecordValues(r, ids), 0)
    ensures forall i | 0 <= i < |r.datas| && r.datas[i] !in r.datas[i + 1..] :: Kept(RecordValues(r, ids), 1 + i)
  {
    RecordsAre(r, ids);
    hide RecordValues;
    var vs := RecordValues(r, ids);
    assert forall k | 1 <= k < |vs| :: vs[k].rrset.id == ids[1] && vs[k].data == r.datas[k - 1] by {
      assert forall i | 0 <= i < |r.datas| :: vs[1 + i].data == r.datas[i];
    }
    forall i | 0 <= i < |r.datas| && r.datas[i] !in r.datas[i + 1..]
      ensures Kept(vs, 1 + i)
    {
      forall j | 1 + i < j < |vs|
        ensures vs[j].data != vs[1 + i].data
      {
        assert r.datas[j - 1] == r.datas[i + 1..][j - 1 - (i + 1)];
      }
    }
  }

  /** The set, time-to-live and data of every record. */
  lemma WrittenValues(r: Registration, ids: seq<nat>)
    requires |ids| == 2
    ensures forall v | v in RecordValues(r, ids) ::
              v.ttl == 3600 && ((v.rrset.id == ids[0] && v.data == r.certData)
                                || (v.rrset.id == ids[1] && v.data in r.datas))
  {
  }

  /** Inserting records of one set appends their data, keeping last occurrences. */
  lemma {:induction false} InsertedRecords(t: Tables, vs: seq<RRValue>, cert: nat, ns: nat, other: nat)
    requires Valid(t) && HasRRSet(t.rrsets, cert) && HasRRSet(t.rrsets, ns) && cert != ns && |vs| >= 1
    requires Select(t.rrs, cert) == [] == Select(t.rrs, ns)
    requires vs[0].rrset.id == cert && forall i | 1 <= i < |vs| :: vs[i].rrset.id == ns
    ensures var rows := InsertRRs(t.rrs, vs).rows;
            Valid(t.(rrs := rows))
            && Datas(Select(rows, other)) == if other == cert then [vs[0].data]
                                             else if other == ns then KeepLast(VData(vs)[1..])
                                             else Datas(Select(t.rrs, other))
  {
    hide Valid, Select, InsertRR, HasRRSet;
    var n := |vs| - 1;
    var before, v := InsertRRs(t.rrs, vs[..n]).rows, vs[n];
    assert vs[..n + 1] == vs;
    InsertRRsNext(t.rrs, vs, n);
    NothingInserted(t.rrs, vs);
    InsertSelects(before, v.rrset.id, v.ttl, v.data, other);
    if n == 0 {
      InsertRRKeepsValid(t, cert, v.ttl, v.data);
      assert VData(vs)[1..] == [];
    } else {
      InsertedRecords(t, vs[..n], cert, ns, other);
      InsertRRKeepsValid(t.(rrs := before), ns, v.ttl, v.data);
      assert VData(vs)[1..] == VData(vs[..n])[1..] + [v.data];
      KeepLastSnoc(VData(vs[..n])[1..], v.data);
    }
  }

  function VData(vs: seq<RRValue>): seq<string> {
    seq(|vs|, i requires 0 <= i < |vs| => vs[i].data)
  }

  /** The two sets a registration of fresh keys creates. */
  lemma CreatedSets(t: Tables, r: Registration)
    requires Valid(t) && FreshKeys(t, r) && !(r.rrLabel == r.certLabel && r.rrtype == IdCert)
    ensures var sets := InsertRRSets(t.rrsets, SetValues(r));
            sets.ok && Valid(t.(rrsets := sets.rows)) && sets.ids[0] != sets.ids[1]
            && HasRRSet(sets.rows, sets.ids[0]) && HasRRSet(sets.rows, sets.ids[1])
            && Select(t.rrs, sets.ids[0]) == [] == Select(t.rrs, sets.ids[1])
            && forall z, l, ty :: RRSetId(sets.rows, z, l, ty)
                                  == if z == r.zone.id && l == r.rrLabel && ty == r.rrtype then sets.ids[1]
                                     else if z == r.zone.id && l == r.certLabel && ty == IdCert then sets.ids[0]
                                     else RRSetId(t.rrsets, z, l, ty)
  {
    hide Valid, Select, HasRRSet, UniqueRRSets;
    TwoSets(t, r);
    var z := r.zone.id;
    var t1 := t.(rrsets := InsertRRSet(t.rrsets, z, r.certLabel, "NULL", IdCert));
    assert RRSetsOrdered(t.rrsets) && RRSetsOrdered(t1.rrsets) && Valid(t1)
           && !IndexViolated(t.rrsets, z, r.certLabel, "NULL", IdCert)
           && HasRRSet(t1.rrsets, NextRRSetId(t.rrsets)) by { CreateFresh(t, z, r.certLabel, IdCert); }
    forall y, l, ty { InsertRRSetLookup(t.rrsets, z, r.certLabel, "NULL", IdCert, y, l, ty); }
    FreshIsAbsent(t, r.zone, r.rrLabel, r.rrtype);
    var t2 := t1.(rrsets := InsertRRSet(t1.rrsets, z, r.rrLabel, "NULL", r.rrtype));
    assert Valid(t2) && !IndexViolated(t1.rrsets, z, r.rrLabel, "NULL", r.rrtype)
           && HasRRSet(t2.rrsets, NextRRSetId(t1.rrsets)) by { CreateAbsent(t1, z, r.rrLabel, r.rrtype); }
    forall y, l, ty { InsertRRSetLookup(t1.rrsets, z, r.rrLabel, "NULL", r.rrtype, y, l, ty); }
    NewSetIsEmpty(t);
    NewSetIsEmpty(t1);
    KeepsRRSet(t1.rrsets, z, r.rrLabel, r.rrtype, NextRRSetId(t.rrsets));
  }

  lemma KeepsRRSet(rows: seq<RRSetRow>, zoneId: nat, rrLabel: Name, rrtype: RRType, id: nat)
    requires HasRRSet(rows, id)
    ensures HasRRSet(InsertRRSet(rows, zoneId, rrLabel, "NULL", rrtype), id)
  {
    var s :| s in rows && s.id == id;
    assert s in InsertRRSet(rows, zoneId, rrLabel, "NULL", rrtype);
  }

  lemma FreshIsAbsent(t: Tables, zone: Zone, rrLabel: Name, rrtype: RRType)
    requires Valid(t) && Fresh(t, zone, rrLabel, rrtype)
    ensures RRSetId(t.rrsets, zone.id, rrLabel, rrtype) == 0
  {
    RRSetIdFinds(t.rrsets, zone.id, rrLabel, rrtype);
  }

  lemma CreateAbsent(t: Tables, zoneId: nat, rrLabel: Name, rrtype: RRType)
    requires Valid(t) && RRSetId(t.rrsets, zoneId, rrLabel, rrtype) == 0
    ensures var rows := InsertRRSet(t.rrsets, zoneId, rrLabel, "NULL", rrtype);
            Valid(t.(rrsets := rows)) && RRSetsOrdered(t.rrsets) && RRSetsOrdered(rows)
            && !IndexViolated(t.rrsets, zoneId, rrLabel, "NULL", rrtype) && HasRRSet(rows, NextRRSetId(t.rrsets))
  {
    InsertRRSetKeepsValid(t, zoneId, rrLabel, "NULL", rrtype);
    InsertRRSetOrdered(t.rrsets, zoneId, rrLabel, "NULL", rrtype);
  }

  lemma CreateFresh(t: Tables, zoneId: nat, rrLabel: Name, rrtype: RRType)
    requires Valid(t) && Fresh(t, Zone(zoneId, []), rrLabel, rrtype)
    ensures var rows := InsertRRSet(t.rrsets, zoneId, rrLabel, "NULL", rrtype);
            Valid(t.(rrsets := rows)) && RRSetsOrdered(t.rrsets) && RRSetsOrdered(rows)
            && !IndexViolated(t.rrsets, zoneId, rrLabel, "NULL", rrtype) && HasRRSet(rows, NextRRSetId(t.rrsets))
  {
    FreshIsAbsent(t, Zone(zoneId, []), rrLabel, rrtype);
    CreateAbsent(t, zoneId, rrLabel, rrtype);
  }

  /** Registering fresh keys succeeds, keeps the table invariant, answers the delegation with the
      name servers at their last occurrences in order, stores the certificate, and changes the
      answer of no other key. */
  lemma RegistrationDelegates(t: Tables, r: Registration, z: nat, l: Name, ty: RRType)
    requires Valid(t) && FreshKeys(t, r) && !(r.rrLabel == r.certLabel && r.rrtype == IdCert)
    ensures Register(t, r).ok && Valid(Register(t, r).tables)
    ensures Lookup(Register(t, r).tables, z, l, ty)
            == if z == r.zone.id && l == r.rrLabel && ty == r.rrtype then KeepLast(r.datas)
               else if z == r.zone.id && l == r.certLabel && ty == IdCert then [r.certData]
               else Lookup(t, z, l, ty)
  {
    hide Valid, Select, HasRRSet, RRSetId, InsertRRs, InsertRRSets, Datas, KeepLast, FreshKeys;
    CreatedSets(t, r);
    var sets := InsertRRSets(t.rrsets, SetValues(r));
    var t1, values := t.(rrsets := sets.rows), RecordValues(r, sets.ids);
    var id := RRSetId(sets.rows, z, l, ty);
    InsertedRecords(t1, values, sets.ids[0], sets.ids[1], id);
    assert VData(values)[1..] == r.datas;
    assert Tables(sets.rows, InsertRRs(t.rrs, values).rows) == t1.(rrs := InsertRRs(t1.rrs, values).rows);
    if id == sets.ids[0] || id == sets.ids[1] {
      OldIdsDiffer(t, r, z, l, ty);
    }
  }

  /** A key that was there before has an older id than the new sets. */
  lemma OldIdsDiffer(t: Tables, r: Registration, z: nat, l: Name, ty: RRType)
    requires Valid(t) && FreshKeys(t, r) && !(r.rrLabel == r.certLabel && r.rrtype == IdCert)
    ensures var ids := InsertRRSets(t.rrsets, SetValues(r)).ids;
            |ids| == 2 && RRSetId(t.rrsets, z, l, ty) != ids[0] && RRSetId(t.rrsets, z, l, ty) != ids[1]
  {
    hide UniqueRRSets, UniqueRRs, References, RRSetId, InsertRRSets, Fresh, IndexViolated;
    assert InsertRRSets(t.rrsets, SetValues(r)).ok by { CreatedSets(t, r); }
    TwoSets(t, r);
    OldIdIsOlder(t.rrsets, z, l, ty);
  }

  lemma OldIdIsOlder(rows: seq<RRSetRow>, z: nat, l: Name, ty: RRType)
    requires RRSetsOrdered(rows)
    ensures RRSetId(rows, z, l, ty) < NextRRSetId(rows)
  {
    RRSetIdFinds(rows, z, l, ty);
    if RRSetId(rows, z, l, ty) != 0 {
      var s :| s in rows && s.id == RRSetId(rows, z, l, ty);
      var i :| 0 <= i < |rows| && rows[i] == s;
    }
  }

  /** After a delegation is registered with at least one name server, the parent answers its
      label with the servers, and answers Auth for every undelegated non-empty prefix of it. */
  lemma RegisteredDelegationAnswers(t: Tables, r: Registration, shorter: Name)
    requires Valid(t) && FreshKeys(t, r) && r.rrtype == NS && r.datas != []
    ensures var v := View(Register(t, r).tables, r.zone.id);
            Answer(v, r.rrLabel, NS) == Response(Resp, KeepLast(r.datas))
            && (shorter != [] && shorter < r.rrLabel && !Delegated(v, shorter)
                ==> Answer(v, shorter, NS) == Response(Auth, []))
  {
    hide Valid, Register, View, Lookup, FreshKeys, HasAuth;
    var t' := Register(t, r).tables;
    RegistrationDelegates(t, r, r.zone.id, r.rrLabel, NS);
    ViewRecords(t', r.zone.id, r.rrLabel, NS);
    KeepLastMembers(r.datas, r.datas[0]);
    assert KeepLast(r.datas) != [];
    if shorter != [] && shorter < r.rrLabel {
      HasAuthAbove(View(t', r.zone.id), shorter, r.rrLabel);
    }
  }
}
