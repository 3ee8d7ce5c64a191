/** Dynamic update of a zone, and its refinement of an ordered multimap. */
module Dyndns {
  import opened Enums
  import opened Managers
  import opened Names
  import opened Protocol
  import opened ResourceRecords
  import opened Tables

  /** The update actions the server carries out; on the other two it throws. */
  predicate Supported(a: UpdateAction) {
    a in {None, Add, Remove, ReplaceAll}
  }

  /** The id under which the record's set is stored, or 0. */
  function SetOf(t: Tables, zone: Zone, rr: RRValue): nat {
    RRSetId(t.rrsets, zone.id, rr.rrset.rrLabel, rr.rrset.rrtype)
  }

  /** The record's id after the lookups: it keeps the one it came with when its set is unknown. */
  function RecordOf(t: Tables, zone: Zone, rr: RRValue): nat {
    if zone.id == 0 || SetOf(t, zone, rr) == 0 then rr.id else RRId(t.rrs, SetOf(t, zone, rr), rr.data)
  }

  function WithSet(t: Tables, zone: Zone, rr: RRValue): Tables {
    if SetOf(t, zone, rr) != 0 then t
    else t.(rrsets := InsertRRSet(t.rrsets, zone.id, rr.rrset.rrLabel, rr.rrset.cls, rr.rrset.rrtype))
  }

  function WithRecord(t: Tables, rrsetId: nat, rr: RRValue): Tables {
    t.(rrs := InsertRR(t.rrs, rrsetId, rr.ttl, rr.data))
  }

  /** The id of the record's set once it exists. */
  function GivenSet(t: Tables, zone: Zone, rr: RRValue): nat {
    if SetOf(t, zone, rr) != 0 then SetOf(t, zone, rr) else NextRRSetId(t.rrsets)
  }

  /** The tables after the update. */
  function Updated(t: Tables, zone: Zone, rr: RRValue): Tables {
    match rr.action
    case Add =>
      if RecordOf(t, zone, rr) != 0 then t else WithRecord(WithSet(t, zone, rr), GivenSet(t, zone, rr), rr)
    case Remove =>
      if RecordOf(t, zone, rr) > 0 then t.(rrs := Filter(t.rrs, NotId(RecordOf(t, zone, rr)))) else t
    case ReplaceAll =>
      if SetOf(t, zone, rr) > 0
      then WithRecord(t.(rrs := Filter(t.rrs, NotInSet(SetOf(t, zone, rr)))), SetOf(t, zone, rr), rr)
      else WithRecord(WithSet(t, zone, rr), GivenSet(t, zone, rr), rr)
    case _ => t
  }

  class DyndnsMgr {
    const db: Database
    const zone: Zone

    constructor (db: Database, zone: Zone)
      ensures this.db == db && this.zone == zone
    {
      this.db, this.zone := db, zone;
    }

    /** Applies the first record of an update message. */
    method Update(rr: RR)
      requires Supported(rr.action)
      requires RRSetsOrdered(db.tables.rrsets)
      modifies db`tables, rr
      ensures db.tables == Updated(old(db.tables), zone, old(rr.Value()))
    {
      hide RRSetId, RRId, InsertRR, InsertRRSet, NextRRSetId, Filter, RRSetsOrdered;
      rr.rrset := rr.rrset.(zone := zone);
      var rrset := new RRSet(rr.rrset);
      var rrsetMgr := new RRSetMgr(db);
      rrsetMgr.AddRRSet(rrset);
      assert rrset in rrsetMgr.rrsets;
      rrsetMgr.LookupIds();
      rr.rrset := rrset.Value();
      var rrMgr := new RRMgr(db);
      rrMgr.AddRR(rr);
      assert rr in rrMgr.rrs;
      rrMgr.LookupIds();
      assert rr.id == RecordOf(db.tables, zone, old(rr.Value()));

      if rr.action == None {
      } else if rr.action == Add {
        if rr.id != 0 {
        } else {
          if rrset.id == 0 {
            InsertSet(rrsetMgr, rrset);
            rr.rrset := rrset.Value();
          }
          InsertRecord(rrMgr, rr);
        }
      } else if rr.action == Remove {
        if rr.id > 0 {
          RemoveRecord(rrMgr, rr);
        }
      } else if rr.action == ReplaceAll {
        if rrset.id > 0 {
          EmptySet(rrsetMgr, rrset);
        } else {
          InsertSet(rrsetMgr, rrset);
          rr.rrset := rrset.Value();
        }
        InsertRecord(rrMgr, rr);
      }
    }

    /** The managers' loops on the one set and the one record of an update. */
    method InsertSet(rrsetMgr: RRSetMgr, rrset: RRSet)
      requires rrsetMgr.db == db && rrsetMgr.rrsets == [rrset]
      requires RRSetsOrdered(db.tables.rrsets)
      requires RRSetId(db.tables.rrsets, rrset.zone.id, rrset.rrLabel, rrset.rrtype) == 0
      modifies db`tables, rrset
      ensures db.tables == old(db.tables).(rrsets :=
                InsertRRSet(old(db.tables.rrsets), rrset.zone.id, rrset.rrLabel, rrset.cls, rrset.rrtype))
      ensures rrset.Value() == old(rrset.Value()).(id := NextRRSetId(old(db.tables.rrsets)))
    {
      RRSetIdFinds(db.tables.rrsets, rrset.zone.id, rrset.rrLabel, rrset.rrtype);
      assert rrset in rrsetMgr.rrsets && LastAt(rrsetMgr.rrsets, 0, 1);
      OneSet(db.tables.rrsets, RRSetValues(rrsetMgr.rrsets));
      var ok := rrsetMgr.Insert();
    }

    method EmptySet(rrsetMgr: RRSetMgr, rrset: RRSet)
      requires rrsetMgr.db == db && rrsetMgr.rrsets == [rrset]
      modifies db`tables
      ensures db.tables == old(db.tables).(rrs := Filter(old(db.tables.rrs), NotInSet(rrset.id)))
    {
      OneRemovedSet(db.tables.rrs, RRSetValues(rrsetMgr.rrsets));
      rrsetMgr.RemoveRelatedRRs();
    }

    method InsertRecord(rrMgr: RRMgr, rr: RR)
      requires rrMgr.db == db && rrMgr.rrs == [rr]
      modifies db`tables, rr
      ensures db.tables == old(db.tables).(rrs :=
                InsertRR(old(db.tables.rrs), old(rr.rrset.id), old(rr.ttl), old(rr.data)))
    {
      OneRecord(db.tables.rrs, RRValues(rrMgr.rrs));
      rrMgr.Insert();
    }

    method RemoveRecord(rrMgr: RRMgr, rr: RR)
      requires rrMgr.db == db && rrMgr.rrs == [rr]
      modifies db`tables
      ensures db.tables == old(db.tables).(rrs := Filter(old(db.tables.rrs), NotId(rr.id)))
    {
      OneRemovedRecord(db.tables.rrs, RRValues(rrMgr.rrs));
      rrMgr.Remove();
    }
  }

  lemma OneSet(rows: seq<RRSetRow>, vs: seq<RRSetValue>)
    requires |vs| == 1 && !IndexViolated(rows, vs[0].zone.id, vs[0].rrLabel, vs[0].cls, vs[0].rrtype)
    ensures InsertRRSets(rows, vs)
            == Inserted(InsertRRSet(rows, vs[0].zone.id, vs[0].rrLabel, vs[0].cls, vs[0].rrtype),
                        [NextRRSetId(rows)], true)
  {
    assert vs[..0] == [];
  }

  lemma OneRemovedSet(rows: seq<RRRow>, vs: seq<RRSetValue>)
    requires |vs| == 1
    ensures RemoveSets(rows, vs) == Filter(rows, NotInSet(vs[0].id))
  {
    assert vs[..0] == [];
  }

  lemma OneRecord(rows: seq<RRRow>, vs: seq<RRValue>)
    requires |vs| == 1
    ensures InsertRRs(rows, vs).rows == InsertRR(rows, vs[0].rrset.id, vs[0].ttl, vs[0].data)
  {
    assert vs[..0] == [];
  }

  lemma OneRemovedRecord(rows: seq<RRRow>, vs: seq<RRValue>)
    requires |vs| == 1
    ensures RemoveRRs(rows, vs) == Filter(rows, NotId(vs[0].id))
  {
    assert vs[..0] == [];
  }

  // ----- The abstract store --------------------------------------------------------------------

  datatype StoreKey = StoreKey(zoneId: nat, rrLabel: Name, rrtype: RRType)

  /** Records per zone, label and type, in order; an absent key holds none. */
  type Store = map<StoreKey, seq<string>>

  function Get(m: Store, k: StoreKey): seq<string> {
    if k in m then m[k] else []
  }

  /** What an action does to the records of its own key. */
  function Apply(a: UpdateAction, xs: seq<string>, data: string): seq<string> {
    match a
    case Add => if data in xs then xs else xs + [data]
    case Remove => Filter(xs, NotData(data))
    case ReplaceAll => [data]
    case _ => xs
  }

  function KeyOf(zone: Zone, rr: RRValue): StoreKey {
    StoreKey(zone.id, rr.rrset.rrLabel, rr.rrset.rrtype)
  }

  function UpdateStore(m: Store, zone: Zone, rr: RRValue): Store {
    m[KeyOf(zone, rr) := Apply(rr.action, Get(m, KeyOf(zone, rr)), rr.data)]
  }

  function LookupKey(t: Tables, k: StoreKey): seq<string> {
    Lookup(t, k.zoneId, k.rrLabel, k.rrtype)
  }

  /** The tables answer every lookup as the store does. */
  ghost predicate Refines(t: Tables, m: Store) {
    forall k :: LookupKey(t, k) == Get(m, k)
  }

  /** When an update acts as the store says: the incoming id must be harmless, because it is only
      replaced by a lookup when the record's set is known. */
  predicate HarmlessId(t: Tables, zone: Zone, rr: RRValue) {
    rr.action in {None, ReplaceAll} || SetOf(t, zone, rr) != 0 || rr.id == 0
    || (rr.action == Remove && forall r | r in t.rrs :: r.id != rr.id)
  }

  /** The update changes its own key as the action says and leaves every other key alone. */
  ghost predicate ActsAsStore(t: Tables, t': Tables, zone: Zone, rr: RRValue) {
    forall k :: LookupKey(t', k)
                == if k == KeyOf(zone, rr) then Apply(rr.action, LookupKey(t, k), rr.data) else LookupKey(t, k)
  }

  /** Different keys are stored under different ids. */
  lemma KeysApart(t: Tables, a: StoreKey, b: StoreKey)
    requires Valid(t) && a != b
    requires RRSetId(t.rrsets, a.zoneId, a.rrLabel, a.rrtype) == RRSetId(t.rrsets, b.zoneId, b.rrLabel, b.rrtype)
    ensures RRSetId(t.rrsets, a.zoneId, a.rrLabel, a.rrtype) == 0
  {
    RRSetIdFinds(t.rrsets, a.zoneId, a.rrLabel, a.rrtype);
    RRSetIdFinds(t.rrsets, b.zoneId, b.rrLabel, b.rrtype);
  }

  /** Records written into a set show under its key only. */
  lemma WrittenRecord(t: Tables, zone: Zone, rr: RRValue, k: StoreKey)
    requires Valid(t) && SetOf(t, zone, rr) != 0
    ensures LookupKey(WithRecord(t, SetOf(t, zone, rr), rr), k)
            == if k == KeyOf(zone, rr) then Filter(LookupKey(t, k), NotData(rr.data)) + [rr.data] else LookupKey(t, k)
  {
    var id := RRSetId(t.rrsets, k.zoneId, k.rrLabel, k.rrtype);
    InsertSelects(t.rrs, SetOf(t, zone, rr), rr.ttl, rr.data, id);
    if k != KeyOf(zone, rr) && id == SetOf(t, zone, rr) {
      KeysApart(t, k, KeyOf(zone, rr));
    }
  }

  /** Creating the set changes no answer. */
  lemma CreatedSet(t: Tables, zone: Zone, rr: RRValue, k: StoreKey)
    requires Valid(t)
    ensures Valid(WithSet(t, zone, rr))
    ensures LookupKey(WithSet(t, zone, rr), k) == LookupKey(t, k)
    ensures SetOf(WithSet(t, zone, rr), zone, rr) == GivenSet(t, zone, rr) > 0
    ensures HasRRSet(WithSet(t, zone, rr).rrsets, GivenSet(t, zone, rr))
  {
    RRSetIdFinds(t.rrsets, zone.id, rr.rrset.rrLabel, rr.rrset.rrtype);
    if SetOf(t, zone, rr) == 0 {
      InsertRRSetKeepsValid(t, zone.id, rr.rrset.rrLabel, rr.rrset.cls, rr.rrset.rrtype);
      InsertRRSetLookup(t.rrsets, zone.id, rr.rrset.rrLabel, rr.rrset.cls, rr.rrset.rrtype,
                        k.zoneId, k.rrLabel, k.rrtype);
      InsertRRSetLookup(t.rrsets, zone.id, rr.rrset.rrLabel, rr.rrset.cls, rr.rrset.rrtype,
                        zone.id, rr.rrset.rrLabel, rr.rrset.rrtype);
      if k == KeyOf(zone, rr) {
        NewSetIsEmpty(t);
        ZeroSelectsNothing(t);
      }
    }
  }

  /** Writing a record, after creating its set if it was missing. */
  lemma WrittenThrough(t: Tables, zone: Zone, rr: RRValue, k: StoreKey)
    requires Valid(t)
    ensures var t' := WithRecord(WithSet(t, zone, rr), GivenSet(t, zone, rr), rr);
            Valid(t') && LookupKey(t', k) == if k == KeyOf(zone, rr)
                                             then Filter(LookupKey(t, k), NotData(rr.data)) + [rr.data]
                                             else LookupKey(t, k)
  {
    hide RRSetId, InsertRR, InsertRRSet, Valid, Filter, HasRRSet;
    CreatedSet(t, zone, rr, k);
    WrittenRecord(WithSet(t, zone, rr), zone, rr, k);
    InsertRRKeepsValid(WithSet(t, zone, rr), GivenSet(t, zone, rr), rr.ttl, rr.data);
  }

  /** The record's own row, when it has one. */
  lemma OwnRow(t: Tables, zone: Zone, rr: RRValue)
    requires Valid(t) && zone.id != 0 && SetOf(t, zone, rr) != 0
    ensures RecordOf(t, zone, rr) != 0 <==> rr.data in LookupKey(t, KeyOf(zone, rr))
    ensures RecordOf(t, zone, rr) != 0
            ==> exists r | r in t.rrs ::
                  r.id == RecordOf(t, zone, rr) && r.rrsetId == SetOf(t, zone, rr) && r.data == rr.data
  {
    var id := SetOf(t, zone, rr);
    RRIdFinds(t.rrs, id, rr.data);
    SelectMembers(t.rrs, id);
    var rows := Select(t.rrs, id);
    if RecordOf(t, zone, rr) != 0 {
      var r :| r in t.rrs && r.rrsetId == id && r.data == rr.data;
      assert r in rows;
      var i :| 0 <= i < |rows| && rows[i] == r;
      assert Datas(rows)[i] == rr.data;
    }
    if rr.data in Datas(rows) {
      var i :| 0 <= i < |rows| && Datas(rows)[i] == rr.data;
      assert rows[i] in rows;
    }
  }

  lemma AddActs(t: Tables, zone: Zone, rr: RRValue, k: StoreKey)
    requires Valid(t) && zone.id != 0 && rr.action == Add && HarmlessId(t, zone, rr)
    ensures var t' := Updated(t, zone, rr);
            Valid(t') && LookupKey(t', k) == if k == KeyOf(zone, rr) then Apply(Add, LookupKey(t, k), rr.data)
                                             else LookupKey(t, k)
  {
    hide Valid, InsertRR, InsertRRSet, RRSetId, RRId, Select, Datas;
    WrittenThrough(t, zone, rr, k);
    var own := LookupKey(t, KeyOf(zone, rr));
    if SetOf(t, zone, rr) != 0 {
      OwnRow(t, zone, rr);
    } else {
      AbsentLookup(t, zone.id, rr.rrset.rrLabel, rr.rrset.rrtype);
    }
    if rr.data !in own {
      FilterAll(own, NotData(rr.data));
    }
  }

  lemma RemoveActs(t: Tables, zone: Zone, rr: RRValue, k: StoreKey)
    requires Valid(t) && zone.id != 0 && rr.action == Remove && HarmlessId(t, zone, rr)
    ensures var t' := Updated(t, zone, rr);
            Valid(t') && LookupKey(t', k) == if k == KeyOf(zone, rr) then Apply(Remove, LookupKey(t, k), rr.data)
                                             else LookupKey(t, k)
  {
    var own := LookupKey(t, KeyOf(zone, rr));
    DeleteKeepsValid(t, NotId(RecordOf(t, zone, rr)));
    if SetOf(t, zone, rr) != 0 && RecordOf(t, zone, rr) != 0 {
      OwnRow(t, zone, rr);
      var r :| r in t.rrs && r.id == RecordOf(t, zone, rr) && r.rrsetId == SetOf(t, zone, rr) && r.data == rr.data;
      RemovedRow(t, zone, rr, r, k);
    } else {
      if SetOf(t, zone, rr) != 0 {
        OwnRow(t, zone, rr);
      } else {
        AbsentLookup(t, zone.id, rr.rrset.rrLabel, rr.rrset.rrtype);
        FilterAll(t.rrs, NotId(rr.id));
      }
      FilterAll(own, NotData(rr.data));
    }
  }

  lemma RemovedRow(t: Tables, zone: Zone, rr: RRValue, r: RRRow, k: StoreKey)
    requires Valid(t) && SetOf(t, zone, rr) != 0 && r in t.rrs && r.rrsetId == SetOf(t, zone, rr) && r.data == rr.data
    ensures LookupKey(t.(rrs := Filter(t.rrs, NotId(r.id))), k)
            == if k == KeyOf(zone, rr) then Filter(LookupKey(t, k), NotData(rr.data)) else LookupKey(t, k)
  {
    DeleteIdIsDeletePair(t.rrs, r);
    var id := RRSetId(t.rrsets, k.zoneId, k.rrLabel, k.rrtype);
    DeletePairSelects(t.rrs, r.rrsetId, r.data, id);
    if k != KeyOf(zone, rr) && id == r.rrsetId {
      KeysApart(t, k, KeyOf(zone, rr));
    }
  }

  lemma ReplaceAllActs(t: Tables, zone: Zone, rr: RRValue, k: StoreKey)
    requires Valid(t) && rr.action == ReplaceAll
    ensures var t' := Updated(t, zone, rr);
            Valid(t') && LookupKey(t', k) == if k == KeyOf(zone, rr) then [rr.data] else LookupKey(t, k)
  {
    var id := SetOf(t, zone, rr);
    if id > 0 {
      var cleared := t.(rrs := Filter(t.rrs, NotInSet(id)));
      DeleteKeepsValid(t, NotInSet(id));
      WrittenThrough(cleared, zone, rr, k);
      ClearedSet(t, zone, rr, k);
    } else {
      WrittenThrough(t, zone, rr, k);
      AbsentLookup(t, zone.id, rr.rrset.rrLabel, rr.rrset.rrtype);
    }
  }

  lemma ClearedSet(t: Tables, zone: Zone, rr: RRValue, k: StoreKey)
    requires Valid(t) && SetOf(t, zone, rr) != 0
    ensures LookupKey(t.(rrs := Filter(t.rrs, NotInSet(SetOf(t, zone, rr)))), k)
            == if k == KeyOf(zone, rr) then [] else LookupKey(t, k)
  {
    var id := RRSetId(t.rrsets, k.zoneId, k.rrLabel, k.rrtype);
    DeleteSetSelects(t.rrs, SetOf(t, zone, rr), id);
    if k != KeyOf(zone, rr) && id == SetOf(t, zone, rr) {
      KeysApart(t, k, KeyOf(zone, rr));
    }
  }

  /** An update with a harmless incoming id keeps the table invariant and acts as the store. */
  lemma UpdateActs(t: Tables, zone: Zone, rr: RRValue)
    requires Valid(t) && zone.id != 0 && HarmlessId(t, zone, rr)
    ensures Valid(Updated(t, zone, rr)) && ActsAsStore(t, Updated(t, zone, rr), zone, rr)
  {
    hide Valid, LookupKey, HarmlessId, Filter;
    if rr.action == Add {
      forall k { AddActs(t, zone, rr, k); }
      AddActs(t, zone, rr, KeyOf(zone, rr));
    } else if rr.action == Remove {
      forall k { RemoveActs(t, zone, rr, k); }
      RemoveActs(t, zone, rr, KeyOf(zone, rr));
    } else if rr.action == ReplaceAll {
      forall k { ReplaceAllActs(t, zone, rr, k); }
      ReplaceAllActs(t, zone, rr, KeyOf(zone, rr));
    }
  }

  /** Every update keeps the table invariant, whatever zone id, record id and action it has. */
  lemma UpdateKeepsValid(t: Tables, zone: Zone, rr: RRValue)
    requires Valid(t)
    ensures Valid(Updated(t, zone, rr))
  {
    hide Valid, Filter, RRSetId, RRId, InsertRR, InsertRRSet;
    WrittenThrough(t, zone, rr, KeyOf(zone, rr));
    DeleteKeepsValid(t, NotId(RecordOf(t, zone, rr)));
    if rr.action == ReplaceAll {
      ReplaceAllActs(t, zone, rr, KeyOf(zone, rr));
    }
  }

  /** An update whose incoming id is not harmless does something else: ADD loses the datum, and
      REMOVE deletes a record of another key. */
  lemma HarmfulUpdate(t: Tables, zone: Zone, rr: RRValue)
    requires Valid(t) && zone.id != 0 && Supported(rr.action) && !HarmlessId(t, zone, rr)
    ensures !ActsAsStore(t, Updated(t, zone, rr), zone, rr)
  {
    hide Valid, Filter, Select;
    var t', own := Updated(t, zone, rr), KeyOf(zone, rr);
    AbsentLookup(t, zone.id, rr.rrset.rrLabel, rr.rrset.rrtype);
    if rr.action == Add {
      assert LookupKey(t', own) == [] != Apply(Add, LookupKey(t, own), rr.data);
    } else {
      var r :| r in t.rrs && r.id == rr.id;
      StrayRemoval(t, zone, rr, r);
    }
  }

  lemma StrayRemoval(t: Tables, zone: Zone, rr: RRValue, r: RRRow)
    requires Valid(t) && SetOf(t, zone, rr) == 0 && r in t.rrs
    ensures !ActsAsStore(t, t.(rrs := Filter(t.rrs, NotId(r.id))), zone, rr.(action := Remove))
  {
    hide Filter, Select, RRSetId, Datas;
    assert HasRRSet(t.rrsets, r.rrsetId);
    var s :| s in t.rrsets && s.id == r.rrsetId;
    var k := StoreKey(s.zoneId, s.rrLabel, s.rrtype);
    RRSetIdOf(t.rrsets, s);
    DeleteIdIsDeletePair(t.rrs, r);
    DeletePairSelects(t.rrs, r.rrsetId, r.data, r.rrsetId);
    SelectMembers(t.rrs, r.rrsetId);
    var rows := Select(t.rrs, r.rrsetId);
    DatumIn(rows, r);
    FilterMember(Datas(rows), NotData(r.data), r.data);
    assert r.data in LookupKey(t, k);
    assert r.data !in LookupKey(t.(rrs := Filter(t.rrs, NotId(r.id))), k);
  }

  lemma DatumIn(rows: seq<RRRow>, r: RRRow)
    requires r in rows
    ensures r.data in Datas(rows)
  {
    var i :| 0 <= i < |rows| && rows[i] == r;
    assert Datas(rows)[i] == r.data;
  }

  /** Exactly when a supported update acts as the store: when its incoming id is harmless. */
  lemma UpdateActsExactly(t: Tables, zone: Zone, rr: RRValue)
    requires Valid(t) && zone.id != 0 && Supported(rr.action)
    ensures ActsAsStore(t, Updated(t, zone, rr), zone, rr) <==> HarmlessId(t, zone, rr)
  {
    hide ActsAsStore, HarmlessId, Valid, Updated;
    if HarmlessId(t, zone, rr) {
      UpdateActs(t, zone, rr);
    } else {
      HarmfulUpdate(t, zone, rr);
    }
  }

  /** The set rows after an update: those before it, and where a set was created, one row with the
      zone's id and the label, class and type of the record's set. */
  predicate SetRowsAfter(t: Tables, t': Tables, zone: Zone, rr: RRValue, created: bool) {
    if created then
      t'.rrsets != [] && t'.rrsets[..|t'.rrsets| - 1] == t.rrsets
      && var s := t'.rrsets[|t'.rrsets| - 1];
         s == RRSetRow(s.id, zone.id, rr.rrset.rrLabel, rr.rrset.cls, rr.rrset.rrtype)
         && forall r | r in t.rrsets :: r.id < s.id
    else t'.rrsets == t.rrsets
  }

  /** The last record row is the update's, in its set: its time-to-live and data, under a new id. */
  predicate RowWritten(t': Tables, zone: Zone, rr: RRValue) {
    t'.rrs != []
    && var row := t'.rrs[|t'.rrs| - 1];
       row.ttl == rr.ttl && row.data == rr.data
       && OfKey(t', row, zone.id, rr.rrset.rrLabel, rr.rrset.rrtype)
       && forall r | r in t'.rrs[..|t'.rrs| - 1] :: r.id < row.id
  }

  /** The rows of an update with a harmless incoming id, in full: an ADD of a stored datum changes
      nothing; an ADD of an absent one creates its set if there is none and appends one record row;
      a REMOVE takes out the row of that key and datum; a REPLACE_ALL takes out the rows of the key
      and appends one record row, in a new set if there is none. All other rows stay, in order. */
  lemma UpdateWrites(t: Tables, zone: Zone, rr: RRValue)
    requires Valid(t) && zone.id != 0 && HarmlessId(t, zone, rr)
    ensures var t', own, absent := Updated(t, zone, rr), LookupKey(t, KeyOf(zone, rr)), SetOf(t, zone, rr) == 0;
            match rr.action
            case Add =>
              if rr.data in own then t' == t
              else SetRowsAfter(t, t', zone, rr, absent) && RowWritten(t', zone, rr)
                   && t'.rrs[..|t'.rrs| - 1] == t.rrs
            case Remove => t' == t.(rrs := Filter(t.rrs, NotPair(SetOf(t, zone, rr), rr.data)))
            case ReplaceAll =>
              SetRowsAfter(t, t', zone, rr, absent) && RowWritten(t', zone, rr)
              && t'.rrs[..|t'.rrs| - 1] == Filter(t.rrs, NotInSet(SetOf(t, zone, rr)))
            case _ => t' == t
  {
    hide Valid, Filter, Select, RRSetId, RRId, InsertRR, LookupKey, Lookup;
    match rr.action {
      case Add => AddWrites(t, zone, rr);
      case Remove => RemoveWrites(t, zone, rr);
      case ReplaceAll => ReplaceAllWrites(t, zone, rr);
      case _ =>
    }
  }

  /** Creating the set, and writing a record into it. */
  lemma WritesThrough(t: Tables, zone: Zone, rr: RRValue)
    requires Valid(t)
    ensures var t' := WithRecord(WithSet(t, zone, rr), GivenSet(t, zone, rr), rr);
            SetRowsAfter(t, t', zone, rr, SetOf(t, zone, rr) == 0) && RowWritten(t', zone, rr)
            && t'.rrs[..|t'.rrs| - 1] == Filter(t.rrs, NotPair(GivenSet(t, zone, rr), rr.data))
  {
    hide Filter, Lookup, References;
    CreatedSet(t, zone, rr, KeyOf(zone, rr));
    InsertWrites(t.rrs, GivenSet(t, zone, rr), rr.ttl, rr.data);
    RRSetIdFinds(WithSet(t, zone, rr).rrsets, zone.id, rr.rrset.rrLabel, rr.rrset.rrtype);
    CreatedRow(t, zone, rr);
    hide InsertRR, RRSetId, InsertRRSet, NextRRSetId;
  }

  lemma CreatedRow(t: Tables, zone: Zone, rr: RRValue)
    requires RRSetsOrdered(t.rrsets)
    ensures SetRowsAfter(t, WithSet(t, zone, rr), zone, rr, SetOf(t, zone, rr) == 0)
  {
    hide RRSetId;
    var rows := InsertRRSet(t.rrsets, zone.id, rr.rrset.rrLabel, rr.rrset.cls, rr.rrset.rrtype);
    assert rows[..|rows| - 1] == t.rrsets;
    forall r | r in t.rrsets
      ensures r.id < rows[|rows| - 1].id
    {
      var i :| 0 <= i < |t.rrsets| && t.rrsets[i] == r;
    }
  }

  /** A set without the datum has no row to drop. */
  lemma NothingToDrop(t: Tables, rrsetId: nat, data: string)
    requires data !in Datas(Select(t.rrs, rrsetId))
    ensures Filter(t.rrs, NotPair(rrsetId, data)) == t.rrs
  {
    SelectMembers(t.rrs, rrsetId);
    forall r | r in t.rrs
      ensures NotPair(rrsetId, data)(r)
    {
      if r in Select(t.rrs, rrsetId) {
        DatumIn(Select(t.rrs, rrsetId), r);
      }
    }
    FilterAll(t.rrs, NotPair(rrsetId, data));
  }

  lemma AddWrites(t: Tables, zone: Zone, rr: RRValue)
    requires Valid(t) && zone.id != 0 && rr.action == Add && HarmlessId(t, zone, rr)
    ensures var t', own := Updated(t, zone, rr), LookupKey(t, KeyOf(zone, rr));
            if rr.data in own then t' == t
            else SetRowsAfter(t, t', zone, rr, SetOf(t, zone, rr) == 0) && RowWritten(t', zone, rr)
                 && t'.rrs[..|t'.rrs| - 1] == t.rrs
  {
    hide Valid, Filter, Select, RRSetId, RRId, InsertRR, SetRowsAfter, RowWritten, Datas;
    WritesThrough(t, zone, rr);
    if SetOf(t, zone, rr) != 0 {
      OwnRow(t, zone, rr);
      if rr.data !in LookupKey(t, KeyOf(zone, rr)) {
        NothingToDrop(t, SetOf(t, zone, rr), rr.data);
      }
    } else {
      AbsentLookup(t, zone.id, rr.rrset.rrLabel, rr.rrset.rrtype);
      NewSetIsEmpty(t);
      assert Datas([]) == [] by { NoDatas(); }
      NothingToDrop(t, GivenSet(t, zone, rr), rr.data);
    }
  }

  lemma NoDatas()
    ensures Datas([]) == []
  {
  }

  lemma RemoveWrites(t: Tables, zone: Zone, rr: RRValue)
    requires Valid(t) && zone.id != 0 && rr.action == Remove && HarmlessId(t, zone, rr)
    ensures Updated(t, zone, rr) == t.(rrs := Filter(t.rrs, NotPair(SetOf(t, zone, rr), rr.data)))
  {
    hide RRSetId, RRId, Filter, Select, Datas;
    if SetOf(t, zone, rr) != 0 {
      OwnRow(t, zone, rr);
      if RecordOf(t, zone, rr) != 0 {
        var r :| r in t.rrs && r.id == RecordOf(t, zone, rr) && r.rrsetId == SetOf(t, zone, rr) && r.data == rr.data;
        DeleteIdIsDeletePair(t.rrs, r);
      } else {
        NothingToDrop(t, SetOf(t, zone, rr), rr.data);
      }
    } else {
      FilterAll(t.rrs, NotId(rr.id));
      ZeroSelectsNothing(t);
      NoDatas();
      NothingToDrop(t, 0, rr.data);
    }
  }

  lemma ReplaceAllWrites(t: Tables, zone: Zone, rr: RRValue)
    requires Valid(t) && rr.action == ReplaceAll
    ensures var t' := Updated(t, zone, rr);
            SetRowsAfter(t, t', zone, rr, SetOf(t, zone, rr) == 0) && RowWritten(t', zone, rr)
            && t'.rrs[..|t'.rrs| - 1] == Filter(t.rrs, NotInSet(SetOf(t, zone, rr)))
  {
    hide Valid, RRSetId, Filter, Select, InsertRR, SetRowsAfter, RowWritten, Datas;
    var id := SetOf(t, zone, rr);
    DeleteSetSelects(t.rrs, id, id);
    NoDatas();
    if id != 0 {
      var cleared := t.(rrs := Filter(t.rrs, NotInSet(id)));
      DeleteKeepsValid(t, NotInSet(id));
      WritesThrough(cleared, zone, rr);
      NothingToDrop(cleared, id, rr.data);
      SameSets(t, cleared, Updated(t, zone, rr), zone, rr);
    } else {
      WritesThrough(t, zone, rr);
      NewSetIsEmpty(t);
      NothingToDrop(t, GivenSet(t, zone, rr), rr.data);
      NoRowsOfNone(t);
    }
  }

  lemma SameSets(t: Tables, u: Tables, t': Tables, zone: Zone, rr: RRValue)
    requires t.rrsets == u.rrsets && SetRowsAfter(u, t', zone, rr, SetOf(u, zone, rr) == 0)
    ensures SetRowsAfter(t, t', zone, rr, SetOf(t, zone, rr) == 0)
  {
  }

  lemma NoRowsOfNone(t: Tables)
    requires Valid(t)
    ensures Filter(t.rrs, NotInSet(0)) == t.rrs
  {
    ZeroSelectsNothing(t);
    SelectMembers(t.rrs, 0);
    FilterAll(t.rrs, NotInSet(0));
  }

  /** For a zone without an id records are not looked up: an ADD with incoming id 0 writes its datum
      again, and so moves a stored one to the end, and a REMOVE with incoming id 0 does nothing. */
  lemma UnknownZoneActs(t: Tables, zone: Zone, rr: RRValue, k: StoreKey)
    requires Valid(t) && zone.id == 0 && rr.id == 0
    ensures rr.action == Add
            ==> LookupKey(Updated(t, zone, rr), k)
                == if k == KeyOf(zone, rr) then Filter(LookupKey(t, k), NotData(rr.data)) + [rr.data]
                   else LookupKey(t, k)
    ensures rr.action == Remove ==> Updated(t, zone, rr) == t
  {
    hide Valid, Filter, Lookup, InsertRR, InsertRRSet, RRSetId;
    WrittenThrough(t, zone, rr, k);
  }

  /** A concrete failure: an ADD of a first record that arrives with id 7 stores nothing. */
  lemma AddWithIdIsLost()
    ensures var rr := DEFAULT_RR.(id := 7, data := "x", action := Add);
            var t := Tables([], []);
            Valid(t) && Lookup(Updated(t, Zone(1, []), rr), 1, [], NS) == []
  {
    var t := Tables([], []);
    AbsentLookup(t, 1, [], NS);
  }

  const STRAY := Tables([RRSetRow(1, 1, ["a"], "", NS)], [RRRow(7, 1, 3600, "x")])

  lemma StrayIsValid()
    ensures Valid(STRAY) && RRSetId(STRAY.rrsets, 1, ["a"], NS) == 1 && RRSetId(STRAY.rrsets, 1, ["b"], NS) == 0
  {
    assert STRAY.rrsets[0] in STRAY.rrsets && HasRRSet(STRAY.rrsets, 1);
    assert STRAY.rrsets[..0] == [] && ["a"][0] != ["b"][0];
  }

  /** A concrete failure: a REMOVE for the unknown label `b` that arrives with id 7 deletes the
      record of `a`. */
  lemma RemoveWithIdStrays()
    ensures var rr := DEFAULT_RR.(id := 7, action := Remove, rrset := DEFAULT_RRSET.(rrLabel := ["b"]));
            Valid(STRAY) && Lookup(STRAY, 1, ["a"], NS) == ["x"]
            && Lookup(Updated(STRAY, Zone(1, []), rr), 1, ["a"], NS) == []
  {
    hide RRSetId, Valid;
    StrayIsValid();
    var row := STRAY.rrs[0];
    FilterAll([row], InSet(1));
    FilterNone([row], NotId(7));
  }

  datatype Request = Request(zone: Zone, rr: RRValue)

  /** A request as the clients send it: for a known zone, with incoming id 0. */
  predicate Ordinary(u: Request) {
    u.zone.id != 0 && u.rr.id == 0 && Supported(u.rr.action)
  }

  function UpdatedAll(t: Tables, us: seq<Request>): Tables {
    if us == [] then t
    else Updated(UpdatedAll(t, us[..|us| - 1]), us[|us| - 1].zone, us[|us| - 1].rr)
  }

  function StoreAll(m: Store, us: seq<Request>): Store {
    if us == [] then m
    else UpdateStore(StoreAll(m, us[..|us| - 1]), us[|us| - 1].zone, us[|us| - 1].rr)
  }

  lemma UpdateRefines(t: Tables, m: Store, zone: Zone, rr: RRValue)
    requires Valid(t) && zone.id != 0 && rr.id == 0 && Refines(t, m)
    ensures Valid(Updated(t, zone, rr)) && Refines(Updated(t, zone, rr), UpdateStore(m, zone, rr))
  {
    hide Valid, Updated, LookupKey, Apply;
    UpdateActs(t, zone, rr);
    var t', m' := Updated(t, zone, rr), UpdateStore(m, zone, rr);
    forall k
      ensures LookupKey(t', k) == Get(m', k)
    {
    }
  }

  /** Database refinement: after any sequence of ordinary updates, every lookup answers what
      folding the actions over the abstract store gives, and the table invariant still holds. */
  lemma {:induction false} UpdatesRefine(t: Tables, m: Store, us: seq<Request>)
    requires Valid(t) && Refines(t, m) && (forall u | u in us :: Ordinary(u))
    ensures Valid(UpdatedAll(t, us)) && Refines(UpdatedAll(t, us), StoreAll(m, us))
  {
    hide Valid, Refines, Updated, UpdateStore;
    if us != [] {
      assert us[|us| - 1] in us && forall u | u in us[..|us| - 1] :: u in us;
      UpdatesRefine(t, m, us[..|us| - 1]);
      UpdateRefines(UpdatedAll(t, us[..|us| - 1]), StoreAll(m, us[..|us| - 1]), us[|us| - 1].zone, us[|us| - 1].rr);
    }
  }

  lemma {:induction false} UpdatesKeepValid(t: Tables, us: seq<Request>)
    requires Valid(t)
    ensures Valid(UpdatedAll(t, us))
  {
    hide Valid, Updated;
    if us != [] {
      UpdatesKeepValid(t, us[..|us| - 1]);
      UpdateKeepsValid(UpdatedAll(t, us[..|us| - 1]), us[|us| - 1].zone, us[|us| - 1].rr);
    }
  }

  /** The store that tables stand for: for every set, what a lookup of its key answers. */
  function StoreOf(t: Tables): Store {
    map s | s in t.rrsets :: StoreKey(s.zoneId, s.rrLabel, s.rrtype) := Lookup(t, s.zoneId, s.rrLabel, s.rrtype)
  }

  lemma InStore(t: Tables, s: RRSetRow)
    requires s in t.rrsets
    ensures var k := StoreKey(s.zoneId, s.rrLabel, s.rrtype);
            k in StoreOf(t) && StoreOf(t)[k] == Lookup(t, s.zoneId, s.rrLabel, s.rrtype)
  {
    hide Lookup;
    assert StoreKey(s.zoneId, s.rrLabel, s.rrtype) in StoreOf(t);
  }

  lemma StoreAnswers(t: Tables, k: StoreKey)
    requires Valid(t)
    ensures LookupKey(t, k) == Get(StoreOf(t), k)
  {
    hide Lookup;
    RRSetIdFinds(t.rrsets, k.zoneId, k.rrLabel, k.rrtype);
    if RRSetId(t.rrsets, k.zoneId, k.rrLabel, k.rrtype) != 0 {
      var s :| s in t.rrsets && KeyIs(s, k.zoneId, k.rrLabel, k.rrtype);
      InStore(t, s);
    } else {
      AbsentLookup(t, k.zoneId, k.rrLabel, k.rrtype);
    }
  }

  /** Whatever tables keep the invariant refine their own store. */
  lemma ValidRefines(t: Tables)
    requires Valid(t)
    ensures Refines(t, StoreOf(t))
  {
    hide LookupKey, Get, StoreOf, Valid;
    forall k
      ensures LookupKey(t, k) == Get(StoreOf(t), k)
    {
      StoreAnswers(t, k);
    }
  }

  /** Database refinement from any tables that keep the invariant: lookups after ordinary updates
      answer what folding the actions over the answers before them gives. */
  lemma UpdatesFold(t: Tables, us: seq<Request>)
    requires Valid(t) && (forall u | u in us :: Ordinary(u))
    ensures Valid(UpdatedAll(t, us)) && Refines(UpdatedAll(t, us), StoreAll(StoreOf(t), us))
  {
    ValidRefines(t);
    UpdatesRefine(t, StoreOf(t), us);
  }
}
