/** The name server of one zone: how it reacts to an Interest, from its tables. */
module NameServer {
  import opened DataPackets
  import opened Dyndns
  import opened Enums
  import opened Grammar
  import opened Managers
  import opened NameRoundTrip
  import opened Names
  import opened Protocol
  import opened QueryNames
  import opened ResourceRecords
  import opened ResponseCodec
  import opened Tables

  datatype ServerReply = ServerReply(kind: ResponseType, rrs: seq<RRValue>)

  /** What a resolver reads of a reply. */
  function Seen(r: ServerReply): Response {
    Response(r.kind, seq(|r.rrs|, i requires 0 <= i < |r.rrs| => r.rrs[i].data))
  }

  /** The records a query is answered with, in the order of their ids. */
  function AnswerRRs(t: Tables, zone: Zone, q: Query): seq<RRValue> {
    RRsOf(Select(t.rrs, QueriedSet(t, zone, q).id), QueriedSet(t, zone, q))
  }

  class NameServer {
    const db: Database
    const zone: Zone

    constructor (db: Database, zone: Zone)
      ensures this.db == db && this.zone == zone
    {
      this.db, this.zone := db, zone;
    }

    /** Handles an Interest. `unpack` gives the name and the content of the signed packet that a
        component holds, if it holds one. */
    method OnInterest(name: Name, unpack: Unpacker) returns (result: Reaction)
      requires RRSetsOrdered(db.tables.rrsets)
      modifies db`tables
      ensures result == ReactionTo(old(db.tables), zone, name, unpack)
      ensures db.tables == TablesAfter(old(db.tables), zone, name, unpack)
    {
      hide Match, RRSetsOrdered, Updated, Understood, QueryReply, UpdateIndex, RecordIn;
      if Match(UPDATE_NAMES, Uri(name)).Just? {
        var update := new QueryMessage(FRESH);
        var wire := update.FromUpdateInterest(name);
        if wire.Nothing? {
          return Thrown;
        }
        var record := OpenUpdate(wire.value, unpack);
        if record.Nothing? || !Supported(record.value.action) {
          return Thrown;
        }
        var rr := new RR(record.value);
        var mgr := new DyndnsMgr(db, zone);
        mgr.Update(rr);
        return Replied(ServerReply(UpdateOk, []));
      } else if Match(QUERY_NAMES, Uri(name)).Just? {
        var query := new QueryMessage(FRESH);
        var ok := query.FromInterest(name);
        var answer := AnswerQuery(query.Value());
        return Replied(answer);
      }
      return Silent;
    }

    /** The first record of the update in a component. */
    method OpenUpdate(wire: Component, unpack: Unpacker) returns (record: Option<RRValue>)
      ensures record == RecordIn(wire, unpack)
    {
      hide FromData;
      var packet := unpack(wire);
      if packet.Nothing? {
        return Nothing;
      }
      var update := ReadPacket(packet.value);
      record := if update.Just? && update.value.rrs != [] then Just(update.value.rrs[0]) else Nothing;
    }

    method AnswerQuery(query: Query) returns (reply: ServerReply)
      ensures reply == QueryReply(db.tables, zone, query)
    {
      hide JoinCount, Select, RRSetId;
      var mgr := new QueryMgr(db, zone, query);
      mgr.LookupRecords();
      reply := ServerReply(Resp, mgr.rrs);
      if |mgr.rrs| > 0 {
        reply := reply.(kind := Resp);
      } else if query.rrtype == NS {
        var count := mgr.CountAuth();
        if count > 0 {
          reply := reply.(kind := Auth);
        } else {
          reply := reply.(kind := Nack);
        }
      } else {
        reply := reply.(kind := Nack);
      }
    }
  }

  /** The reply to a query, from the tables. */
  function QueryReply(t: Tables, zone: Zone, q: Query): ServerReply {
    var rrs := AnswerRRs(t, zone, q);
    ServerReply(if rrs != [] then Resp
                else if q.rrtype == NS && JoinCount(t, zone.id, q.rrtype, q.rrLabel) > 0 then Auth
                else Nack, rrs)
  }

  /** What becomes of an Interest: a reply, silence for a name that is neither an update's nor a
      query's, or an exception that no handler of the server catches: the component at the computed
      index is missing or holds no update, or the update's action is refused inside a function that
      declares to throw nothing. */
  datatype Reaction = Replied(reply: ServerReply) | Silent | Thrown

  /** Takes the packet out of a component. */
  type Unpacker = Component -> Option<Packet>

  /** The first record of the message in the packet that a component holds. */
  function RecordIn(wire: Component, unpack: Unpacker): Option<RRValue> {
    match unpack(wire)
    case Nothing => Nothing
    case Just(p) =>
      match FromData(p)
      case Nothing => Nothing
      case Just(m) => if m.rrs == [] then Nothing else Just(m.rrs[0])
  }

  /** The record found at the index computed from an update's name. */
  function CarriedUpdate(name: Name, unpack: Unpacker): Option<RRValue> {
    match Match(UPDATE_NAMES, Uri(name))
    case Nothing => Nothing
    case Just(c) => if UpdateIndex(c) < |name| then RecordIn(name[UpdateIndex(c)], unpack) else Nothing
  }

  /** An update's name is looked for first, then a query's. */
  function ReactionTo(t: Tables, zone: Zone, name: Name, unpack: Unpacker): Reaction {
    if Match(UPDATE_NAMES, Uri(name)).Just? then
      match CarriedUpdate(name, unpack)
      case Nothing => Thrown
      case Just(rr) => if Supported(rr.action) then Replied(ServerReply(UpdateOk, [])) else Thrown
    else
      match Match(QUERY_NAMES, Uri(name))
      case Nothing => Silent
      case Just(c) => Replied(QueryReply(t, zone, Understood(c, FRESH)))
  }

  function TablesAfter(t: Tables, zone: Zone, name: Name, unpack: Unpacker): Tables {
    match CarriedUpdate(name, unpack)
    case Nothing => t
    case Just(rr) => if Supported(rr.action) then Updated(t, zone, rr) else t
  }

  /** On tables that keep the invariant, a reply shows the answer of the zone's records: the data
      in order, or Auth, or Nack. */
  lemma ReplyIsAnswer(t: Tables, zone: Zone, q: Query)
    requires Valid(t)
    ensures Seen(QueryReply(t, zone, q)) == Answer(View(t, zone.id), q.rrLabel, q.rrtype)
  {
    hide Valid, View, HasAuth, JoinCount, Select, RRSetId;
    ViewRecords(t, zone.id, q.rrLabel, q.rrtype);
    JoinCountIsAuth(t, zone.id, q.rrLabel, q.rrtype);
    assert Seen(QueryReply(t, zone, q)).rrs == Lookup(t, zone.id, q.rrLabel, q.rrtype);
  }

  /** The record shows this row, in the server's zone under the queried label and type. */
  predicate Shows(v: RRValue, row: RRRow, zone: Zone, q: Query) {
    v.id == row.id && v.ttl == row.ttl && v.data == row.data && v.action == UpdateAction.None
    && v.rrset.zone == zone && v.rrset.rrLabel == q.rrLabel && v.rrset.rrtype == q.rrtype && v.rrset.id == row.rrsetId
  }

  /** Every record shows a row of the queried key. */
  predicate OnlyShows(t: Tables, zone: Zone, q: Query, rrs: seq<RRValue>) {
    forall v | v in rrs ::
      exists row | row in t.rrs :: OfKey(t, row, zone.id, q.rrLabel, q.rrtype) && Shows(v, row, zone, q)
  }

  /** Every row of the queried key is shown. */
  predicate ShowsAll(t: Tables, zone: Zone, q: Query, rrs: seq<RRValue>) {
    forall row | row in t.rrs && OfKey(t, row, zone.id, q.rrLabel, q.rrtype) ::
      exists v | v in rrs :: Shows(v, row, zone, q)
  }

  predicate IdsIncrease(rrs: seq<RRValue>) {
    forall i, j | 0 <= i < j < |rrs| :: rrs[i].id < rrs[j].id
  }

  /** The records of a reply in full: every row of the queried zone, label and type has exactly one,
      every record shows such a row, and their ids increase. */
  lemma ReplyRecords(t: Tables, zone: Zone, q: Query)
    requires Valid(t)
    ensures var rrs := QueryReply(t, zone, q).rrs;
            OnlyShows(t, zone, q, rrs) && ShowsAll(t, zone, q, rrs) && IdsIncrease(rrs)
  {
    hide Valid, Select, RRSetId, OfKey, JoinCount;
    SelectedRows(t, zone.id, q.rrLabel, q.rrtype);
    var rrset := QueriedSet(t, zone, q);
    var rows := Select(t.rrs, rrset.id);
    var rrs := RRsOf(rows, rrset);
    SelectMembers(t.rrs, rrset.id);
    assert QueryReply(t, zone, q).rrs == rrs && |rrs| == |rows|;
    assert forall i | 0 <= i < |rows| :: rows[i] in rows && Shows(rrs[i], rows[i], zone, q);
    forall row | row in t.rrs && OfKey(t, row, zone.id, q.rrLabel, q.rrtype)
      ensures exists v | v in rrs :: Shows(v, row, zone, q)
    {
      var i :| 0 <= i < |rows| && rows[i] == row;
      assert rrs[i] in rrs;
    }
  }

  // ----- Names that are neither ----------------------------------------------------------------

  /** The server keeps silent exactly on names that neither grammar matches. */
  lemma SilentExactly(t: Tables, zone: Zone, name: Name, unpack: Unpacker)
    requires name != []
    ensures ReactionTo(t, zone, name, unpack) == Silent
            <==> !Matchable(UPDATE_NAMES, name) && !Matchable(QUERY_NAMES, name)
  {
    hide Match, Matchable, QueryReply, CarriedUpdate;
    GrammarsAreProper();
    MatchedExactly(UPDATE_NAMES, name);
    MatchedExactly(QUERY_NAMES, name);
  }

  /** Only names that the update expression matches change the tables. */
  lemma OnlyUpdatesWrite(t: Tables, zone: Zone, name: Name, unpack: Unpacker)
    requires name != [] && TablesAfter(t, zone, name, unpack) != t
    ensures Matchable(UPDATE_NAMES, name)
  {
    hide Match, Matchable, Updated, UpdateIndex, RecordIn;
    GrammarsAreProper();
    MatchedExactly(UPDATE_NAMES, name);
  }

  // ----- Updates that arrive -------------------------------------------------------------------

  /** The component that the server takes for the update in the printed name of `q`. */
  function TakenForUpdate(q: Query): Component
    requires |q.rrLabel| == 1
  {
    if HasStem(q.zone) then q.rrtype.ToString() else q.rrLabel[0]
  }

  /** From a printed update to the tables: the server acts on the record in the component that was
      appended, unless the last marked zone component is more than the marker; then it acts on the
      record type's component instead. */
  lemma UpdateArrives(t: Tables, zone: Zone, q: Query, suffix: Name, unpack: Unpacker)
    requires Wellformed(UPDATE_NAMES, q, suffix) && |q.rrLabel| == 1
    ensures Match(UPDATE_NAMES, Uri(Printed(q, suffix))).Just?
    ensures CarriedUpdate(Printed(q, suffix), unpack) == RecordIn(TakenForUpdate(q), unpack)
  {
    hide Match, UpdateIndex, HasStem, Untyped, Uri, HintPart, RecordIn;
    UpdateIndexExactly(q, suffix);
  }

  /** The update of a client: a message with a first record, in a packet that is named like a query
      for the record's label and type. */
  predicate IsUpdateOf(p: Packet, m: Message, u: Query, version: Name) {
    p == Packet(Printed(u, version), Wire(m)) && Encodable(m) && m.rrs != []
    && Wellformed(QUERY_NAMES, u, version) && Readable(QUERY_NAMES, u)
  }

  /** The record that arrives with it: the label and type of the packet's name, and of the record
      sent what travels. */
  function Arriving(m: Message, u: Query): RRValue
    requires m.rrs != []
  {
    Received(m.rrs[0], u.rrLabel, u.rrtype)
  }

  lemma RecordArrives(wire: Component, unpack: Unpacker, p: Packet, m: Message, u: Query, version: Name)
    requires unpack(wire) == Just(p) && IsUpdateOf(p, m, u, version)
    ensures m.rrs != [] && RecordIn(wire, unpack) == Just(Arriving(m, u))
    ensures var rr, sent := Arriving(m, u), m.rrs[0];
            rr.id == sent.id && rr.data == sent.data && rr.action == sent.action && rr.ttl == 3600
            && rr.rrset.rrLabel == u.rrLabel && rr.rrset.rrtype == u.rrtype && rr.rrset.cls == "" && rr.rrset.id == 0
            && rr.rrset.zone.name == sent.rrset.zone.name && rr.rrset.zone.id == 0
  {
    hide FromData, Wire, Encodable, Readable, Wellformed, Printed, Prepared;
    PreparedFor(u, version);
    PacketArrives(Printed(u, version), m);
  }

  /** What becomes of an update whose record is found. */
  predicate CarriedOut(t: Tables, zone: Zone, name: Name, unpack: Unpacker) {
    match CarriedUpdate(name, unpack)
    case Nothing => false
    case Just(rr) =>
      if Supported(rr.action)
      then ReactionTo(t, zone, name, unpack) == Replied(ServerReply(UpdateOk, []))
           && TablesAfter(t, zone, name, unpack) == Updated(t, zone, rr)
      else ReactionTo(t, zone, name, unpack) == Thrown && TablesAfter(t, zone, name, unpack) == t
  }

  lemma FoundIsCarriedOut(t: Tables, zone: Zone, name: Name, unpack: Unpacker)
    requires CarriedUpdate(name, unpack).Just?
    ensures CarriedOut(t, zone, name, unpack)
  {
    hide Updated, UpdateIndex, RecordIn, QueryReply, Understood;
  }

  /** From a client's update to the answers, exactly: printed, parsed, unpacked and decoded, it is
      acknowledged, keeps the table invariant, and changes the answer of its own key as its action
      says, and no other answer, if and only if its incoming record id is harmless; with a refused
      action it throws and changes nothing. */
  lemma UpdateIsCarriedOut(t: Tables, zone: Zone, q: Query, suffix: Name, unpack: Unpacker,
                           p: Packet, m: Message, u: Query, version: Name)
    requires Wellformed(UPDATE_NAMES, q, suffix) && |q.rrLabel| == 1 && !HasStem(q.zone)
    requires unpack(q.rrLabel[0]) == Just(p) && IsUpdateOf(p, m, u, version)
    requires Valid(t) && zone.id != 0
    ensures m.rrs != []
    ensures var rr, t' := Arriving(m, u), TablesAfter(t, zone, Printed(q, suffix), unpack);
            var reaction := ReactionTo(t, zone, Printed(q, suffix), unpack);
            Valid(t')
            && if Supported(rr.action)
               then reaction == Replied(ServerReply(UpdateOk, []))
                    && (ActsAsStore(t, t', zone, rr) <==> HarmlessId(t, zone, rr))
               else reaction == Thrown && t' == t
  {
    assert m.rrs != [];
    hide CarriedUpdate, HasStem, Wellformed, Valid, ActsAsStore, Updated, Printed, IsUpdateOf, HarmlessId, Arriving;
    hide ReactionTo, TablesAfter, RecordIn;
    UpdateArrives(t, zone, q, suffix, unpack);
    RecordArrives(q.rrLabel[0], unpack, p, m, u, version);
    var rr := Arriving(m, u);
    assert CarriedUpdate(Printed(q, suffix), unpack) == Just(rr);
    FoundIsCarriedOut(t, zone, Printed(q, suffix), unpack);
    UpdateKeepsValid(t, zone, rr);
    if Supported(rr.action) {
      UpdateActsExactly(t, zone, rr);
    }
  }

  // ----- Queries that arrive -------------------------------------------------------------------

  /** No component starts with the record type of updates. */
  predicate NoUpdateText(n: Name) {
    forall c | c in n :: !StartsIn(UPDATE_NAMES.rrTypes, c)
  }

  /** A query whose printed name the server reads as this query; without a label, one it keeps
      silent on. */
  predicate Legible(i: Query) {
    Speaks(QUERY_NAMES, i) && Readable(QUERY_NAMES, i)
    && NoUpdateText(i.hint) && NoUpdateText(i.zone) && NoUpdateText(i.rrLabel)
    && (i.rrLabel == [] ==> forall c | c in i.hint + i.zone :: !EndsIn(QUERY_NAMES.queryTypes, c))
  }

  lemma TypesAreNoUpdate(i: Query)
    requires Speaks(QUERY_NAMES, i)
    ensures NoUpdateText([MARKER, i.queryType.ToString(), i.rrtype.ToString()])
  {
    assert "DYNDNSUPDATE"[0] == 'D' && "DYNDNSUPDATE"[1] == 'Y';
    assert MARKER[0] == '%' && "DNS"[1] == 'N' && "DNS-R"[1] == 'N';
    assert "FH"[0] == 'F' && "TXT"[0] == 'T' && "NS"[0] == 'N' && "ID-CERT"[0] == 'I';
  }

  /** Such a query's name is not taken for an update's. */
  lemma NotAnUpdate(i: Query)
    requires Legible(i)
    ensures Match(UPDATE_NAMES, Uri(Printed(i, []))) == Nothing
  {
    hide StartsIn, EndsIn, Match;
    var cs := Printed(i, []);
    TypesAreNoUpdate(i);
    var fixed := [MARKER, i.queryType.ToString(), i.rrtype.ToString()];
    assert fixed[0] in fixed && fixed[1] in fixed && fixed[2] in fixed;
    assert forall c | c in cs :: c in fixed || c in i.hint || c in i.zone || c in i.rrLabel;
    assert SlashFree(UPDATE_NAMES.queryTypes) && SlashFree(UPDATE_NAMES.rrTypes);
    MatchedExactly(UPDATE_NAMES, cs);
  }

  /** What a server makes of a legible query's printed name: its reply to that very query, and
      silence when the label is empty; the tables stay. */
  lemma QueryArrives(t: Tables, zone: Zone, i: Query, unpack: Unpacker)
    requires Legible(i)
    ensures ReactionTo(t, zone, Printed(i, []), unpack)
            == if i.rrLabel == [] then Silent else Replied(QueryReply(t, zone, i))
    ensures TablesAfter(t, zone, Printed(i, []), unpack) == t
  {
    hide Match, QueryReply, Understood, Printed, EndsIn, StartsIn;
    NotAnUpdate(i);
    if i.rrLabel == [] {
      EmptyLabelExactly(QUERY_NAMES, i, []);
      NoTypeInFront(i);
    } else {
      RoundTripExactly(QUERY_NAMES, i, []);
    }
  }

  lemma NoTypeInFront(i: Query)
    requires Legible(i) && i.rrLabel == []
    ensures forall c | c in HintPart(i.hint) + i.zone :: !EndsIn(QUERY_NAMES.queryTypes, c)
  {
    MarkerSuffixes();
    SuffixAtExactly(QUERY_NAMES.queryTypes, MARKER);
    hide EndsIn;
    assert forall c | c in HintPart(i.hint) + i.zone :: c in i.hint + i.zone || c == MARKER;
  }
}
