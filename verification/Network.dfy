/** The resolver theorems over the databases: resolving against the name servers themselves, with
    Interests as printed names and replies as encoded content, is resolving against the static
    zones that their tables hold. */
module Network {
  import opened Chain
  import opened DataPackets
  import opened Enums
  import opened Grammar
  import opened IterativeQuery
  import opened NameRoundTrip
  import opened NameServer
  import opened Names
  import opened Protocol
  import opened QueryNames
  import opened Resolution
  import opened ResourceRecords
  import opened ResponseCodec
  import opened Tables
  import opened Tlv

  /** One server: its database, its zone with the zone's id, and the freshness of its answers. */
  datatype Site = Site(tables: Tables, zone: Zone, freshness: nat)

  /** The servers, how they take packets out of components, and the version that is put behind the
      name of an answer. */
  datatype Net = Net(sites: map<Name, Site>, unpack: Unpacker, version: Query -> Component)

  predicate ValidSites(n: Net) {
    forall z | z in n.sites :: Valid(n.sites[z].tables)
  }

  function WorldOf(n: Net): World {
    map z | z in n.sites :: View(n.sites[z].tables, n.sites[z].zone.id)
  }

  // ----- A reply as bytes ----------------------------------------------------------------------

  function NameBytes(n: Name): seq<Bytes> {
    seq(|n|, i requires 0 <= i < |n| => ToBytes(n[i]))
  }

  /** The message that carries a reply. */
  function ReplyMessage(n: Net, i: Query, r: ServerReply): Message
    requires i.zone in n.sites
  {
    Message(NameBytes(Printed(i, [n.version(i)])), n.sites[i.zone].freshness, r.kind, i.rrLabel, i.rrtype, r.rrs)
  }

  /** The packet that carries a reply. */
  function ReplyPacket(n: Net, i: Query, r: ServerReply): Packet
    requires i.zone in n.sites
  {
    Packet(Printed(i, [n.version(i)]), Wire(ReplyMessage(n, i, r)))
  }

  /** What the resolver reads from a packet; Nothing where decoding throws. */
  function Delivered(p: Packet): Option<Response> {
    match FromData(p)
    case Nothing => Nothing
    case Just(m) => Just(Response(m.kind, seq(|m.rrs|, k requires 0 <= k < |m.rrs| => m.rrs[k].data)))
  }

  /** The network's answer to an Interest: its printed name reaches the server of the zone, which
      reads it; the reply comes back encoded and is decoded. */
  function NetworkReply(n: Net, i: Query): Option<Response> {
    if i.zone !in n.sites then Nothing
    else
      var site := n.sites[i.zone];
      match ReactionTo(site.tables, site.zone, Printed(i, []), n.unpack)
      case Replied(r) => Delivered(ReplyPacket(n, i, r))
      case _ => Nothing
  }

  /** The answer to a query fits its wire types and the 64-bit sizes of the encoder. */
  predicate Fits(n: Net, i: Query) {
    i.zone in n.sites
    ==> Encodable(ReplyMessage(n, i, QueryReply(n.sites[i.zone].tables, n.sites[i.zone].zone, i)))
  }

  /** An encodable reply arrives as it was given. */
  lemma ReplyArrives(n: Net, i: Query, r: ServerReply)
    requires i.zone in n.sites && Encodable(ReplyMessage(n, i, r))
    ensures Delivered(ReplyPacket(n, i, r)) == Just(Seen(r))
  {
    hide Wire, FromData, Encodable, Prepared, Printed;
    var m, p := ReplyMessage(n, i, r), ReplyPacket(n, i, r);
    PacketArrives(p.name, m);
    var read := FromData(p).value;
    assert read.rrs == AllReceived(r.rrs, Prepared(p.name).rrLabel, Prepared(p.name).rrtype);
    assert seq(|read.rrs|, k requires 0 <= k < |read.rrs| => read.rrs[k].data) == Seen(r).rrs;
  }

  /** A record read from a reply shows this row: its id and data, the server's zone by name, and the
      queried label and type. */
  predicate Carries(v: RRValue, row: RRRow, zone: Zone, i: Query) {
    v.id == row.id && v.data == row.data && v.action == UpdateAction.None && v.rrset.zone.name == zone.name
    && v.rrset.rrLabel == i.rrLabel && v.rrset.rrtype == i.rrtype
  }

  predicate OnlyCarries(site: Site, i: Query, rrs: seq<RRValue>) {
    forall v | v in rrs ::
      exists row | row in site.tables.rrs ::
        OfKey(site.tables, row, site.zone.id, i.rrLabel, i.rrtype) && Carries(v, row, site.zone, i)
  }

  predicate CarriesAll(site: Site, i: Query, rrs: seq<RRValue>) {
    forall row | row in site.tables.rrs && OfKey(site.tables, row, site.zone.id, i.rrLabel, i.rrtype) ::
      exists v | v in rrs :: Carries(v, row, site.zone, i)
  }

  /** A reply as the resolver's message object holds it: the Interest's name and version, the
      server's freshness, and exactly one record for every row of the queried key, in the order of
      their ids. */
  lemma ReplyMessageRead(n: Net, i: Query)
    requires i.zone in n.sites && Valid(n.sites[i.zone].tables) && Fits(n, i)
    requires Legible(i) && i.rrLabel != [] && Untyped(QUERY_NAMES, [n.version(i)])
    ensures var site := n.sites[i.zone];
            var reply := QueryReply(site.tables, site.zone, i);
            var read := FromData(ReplyPacket(n, i, reply));
            read.Just? && read.value.queryName == NameBytes(Printed(i, []) + [n.version(i)])
            && read.value.freshness == site.freshness && read.value.kind == reply.kind
            && OnlyCarries(site, i, read.value.rrs) && CarriesAll(site, i, read.value.rrs)
            && IdsIncrease(read.value.rrs)
  {
    hide Wire, FromData, Encodable, Prepared, Valid, QueryReply, OfKey, Legible, Readable, Untyped;
    hide OnlyCarries, CarriesAll, IdsIncrease, OnlyShows, ShowsAll;
    var site := n.sites[i.zone];
    var reply := QueryReply(site.tables, site.zone, i);
    var p := ReplyPacket(n, i, reply);
    assert Printed(i, [n.version(i)]) == Printed(i, []) + [n.version(i)];
    assert Wellformed(QUERY_NAMES, i, [n.version(i)]) && Readable(QUERY_NAMES, i) by { LegibleIsReadable(i); }
    hide Printed, Wellformed;
    PacketArrives(p.name, ReplyMessage(n, i, reply));
    PreparedFor(i, [n.version(i)]);
    assert FromData(p).value.rrs == AllReceived(reply.rrs, i.rrLabel, i.rrtype);
    ReplyRecords(site.tables, site.zone, i);
    RecordsCarried(site, i, reply.rrs);
  }

  lemma LegibleIsReadable(i: Query)
    requires Legible(i)
    ensures Speaks(QUERY_NAMES, i) && Readable(QUERY_NAMES, i)
  {
  }

  lemma ShownIsCarried(v: RRValue, row: RRRow, zone: Zone, i: Query)
    requires Shows(v, row, zone, i)
    ensures Carries(Received(v, i.rrLabel, i.rrtype), row, zone, i)
  {
  }

  lemma RecordsCarried(site: Site, i: Query, rrs: seq<RRValue>)
    requires OnlyShows(site.tables, site.zone, i, rrs) && ShowsAll(site.tables, site.zone, i, rrs) && IdsIncrease(rrs)
    ensures var read := AllReceived(rrs, i.rrLabel, i.rrtype);
            OnlyCarries(site, i, read) && CarriesAll(site, i, read) && IdsIncrease(read)
  {
    OnlyCarried(site, i, rrs);
    AllCarried(site, i, rrs);
    hide OnlyShows, ShowsAll, OnlyCarries, CarriesAll;
  }

  lemma OnlyCarried(site: Site, i: Query, rrs: seq<RRValue>)
    requires OnlyShows(site.tables, site.zone, i, rrs)
    ensures OnlyCarries(site, i, AllReceived(rrs, i.rrLabel, i.rrtype))
  {
    hide OfKey, Shows, Carries, Received;
    var t, zone, read := site.tables, site.zone, AllReceived(rrs, i.rrLabel, i.rrtype);
    forall v | v in read
      ensures exists row | row in t.rrs :: OfKey(t, row, zone.id, i.rrLabel, i.rrtype) && Carries(v, row, zone, i)
    {
      var k :| 0 <= k < |read| && read[k] == v;
      assert rrs[k] in rrs;
      var row :| row in t.rrs && OfKey(t, row, zone.id, i.rrLabel, i.rrtype) && Shows(rrs[k], row, zone, i);
      ShownIsCarried(rrs[k], row, zone, i);
    }
  }

  lemma AllCarried(site: Site, i: Query, rrs: seq<RRValue>)
    requires ShowsAll(site.tables, site.zone, i, rrs)
    ensures CarriesAll(site, i, AllReceived(rrs, i.rrLabel, i.rrtype))
  {
    hide OfKey, Shows, Carries, Received;
    var t, zone, read := site.tables, site.zone, AllReceived(rrs, i.rrLabel, i.rrtype);
    forall row | row in t.rrs && OfKey(t, row, zone.id, i.rrLabel, i.rrtype)
      ensures exists v | v in read :: Carries(v, row, zone, i)
    {
      var v :| v in rrs && Shows(v, row, zone, i);
      var k :| 0 <= k < |rrs| && rrs[k] == v;
      ShownIsCarried(v, row, zone, i);
      assert read[k] in read;
    }
  }

  /** The network the resolver theorems assume is the one the servers form: for a legible query,
      what comes back over the wire is the static answer for its zone, label and type, with silence
      for an unknown zone and for an empty label. */
  lemma NetworkServes(n: Net, i: Query)
    requires Legible(i) && ValidSites(n) && Fits(n, i)
    ensures NetworkReply(n, i) == Serve(WorldOf(n), i)
  {
    hide Valid, View, QueryReply, Printed, Legible, ReactionTo, Delivered, Encodable, Wire, ReplyPacket;
    var w := WorldOf(n);
    assert i.zone in w <==> i.zone in n.sites;
    if i.zone in n.sites {
      var site := n.sites[i.zone];
      assert w[i.zone] == View(site.tables, site.zone.id);
      QueryArrives(site.tables, site.zone, i, n.unpack);
      ReplyIsAnswer(site.tables, site.zone, i);
      ReplyArrives(n, i, QueryReply(site.tables, site.zone, i));
    }
  }

  // ----- Whole resolutions ---------------------------------------------------------------------

  /** One exchange with the servers. */
  function NetStep(s: Strategy, n: Net, q: Query, r: Run): Run {
    if r.status != Running then r
    else
      var i := InterestOf(s, q, r.st);
      Receive(s, q, r.st.(lastInterest := i), NetworkReply(n, i))
  }

  function NetIterate(s: Strategy, n: Net, q: Query, rootHint: Name, m: nat): Run {
    if m == 0 then Start(rootHint) else NetStep(s, n, q, NetIterate(s, n, q, rootHint, m - 1))
  }

  /** The resolution of `q` after `m` exchanges with the servers. */
  function NetAfter(s: Strategy, n: Net, q: Query, rootHint: Name, m: nat): Run {
    NetIterate(s, n, q, rootHint, m)
  }

  predicate TypeFree(name: Name) {
    forall c | c in name :: !EndsIn(QUERY_NAMES.queryTypes, c)
  }

  /** No component but the last ends in a query type. */
  predicate TypeFreeInside(name: Name) {
    forall k | 0 <= k < |name| - 1 :: !EndsIn(QUERY_NAMES.queryTypes, name[k])
  }

  /** The components of the destination that can come to stand in a zone, or in front of others in
      a label: all but the last, and the last when a chain of delegations ends there. */
  function Inner(w: World, q: Query): Name {
    q.rrLabel[..if CutsReachEnd(w, q, 0) then |q.rrLabel| else Max(|q.rrLabel| - 1, 0)]
  }

  function Max(a: int, b: int): int {
    if a < b then b else a
  }

  /** The query's type is one the grammar knows, and its destination is text that no part of the
      grammars is taken for. */
  predicate LegibleStub(w: World, q: Query) {
    q.rrtype in {FH, TXT, NS, IdCert} && NoUpdateText(q.rrLabel)
    && forall c | c in Inner(w, q) :: !EndsIn([MARKER], c) && !EndsIn(QUERY_NAMES.queryTypes, c)
  }

  /** Some NS record names the root, so that its FH records are asked for with an empty label. */
  predicate RootServer(w: World) {
    exists z, k, d | z in w && k in w[z] && d in w[z][k] :: k.rrtype == NS && ParseName(d) == []
  }

  /** Text that can be a hint; no component may end in a query type where a label can be empty. */
  predicate LegibleHint(w: World, q: Query, hint: Name) {
    NoUpdateText(hint) && (CutsReachEnd(w, q, 0) || RootServer(w) ==> TypeFree(hint))
  }

  predicate LegibleServer(server: Name) {
    NoUpdateText(server) && TypeFreeInside(server)
  }

  /** The names in NS and FH records, which only the resolver with hints reads. */
  predicate LegibleRecords(w: World, q: Query) {
    forall z, k, d | z in w && k in w[z] && d in w[z][k] ::
      (k.rrtype == NS ==> LegibleServer(ParseName(d))) && (k.rrtype == FH ==> LegibleHint(w, q, ParseName(d)))
  }

  predicate LegibleWorld(s: Strategy, w: World, q: Query, rootHint: Name) {
    if s == Plain then rootHint == [] else LegibleHint(w, q, rootHint) && LegibleRecords(w, q)
  }

  lemma SubNameText(n: Name, start: nat, count: nat)
    ensures NoUpdateText(n) ==> NoUpdateText(GetSubName(n, start, count))
    ensures forall c | c in GetSubName(n, start, count) :: c in n
  {
    hide StartsIn;
  }

  lemma RecordIsLegible(w: World, q: Query, zone: Name, rrLabel: Name, rrtype: RRType)
    requires LegibleRecords(w, q) && zone in w && Records(w[zone], rrLabel, rrtype) != []
    ensures var name := ParseName(Records(w[zone], rrLabel, rrtype)[0]);
            (rrtype == NS ==> LegibleServer(name) && (name == [] ==> RootServer(w)))
            && (rrtype == FH ==> LegibleHint(w, q, name))
  {
    hide LegibleServer, LegibleHint, ParseName;
    var k := RecordKey(rrLabel, rrtype);
    assert k in w[zone] && Records(w[zone], rrLabel, rrtype)[0] in w[zone][k];
  }

  /** The hint of every level is legible. */
  lemma {:induction false} LevelIsLegible(s: Strategy, w: World, q: Query, rootHint: Name, i: nat)
    requires LegibleWorld(s, w, q, rootHint) && LevelAt(s, w, q, rootHint, i).Just?
    ensures var hint := LevelAt(s, w, q, rootHint, i).value.hint;
            if s == Plain then hint == [] else LegibleHint(w, q, hint)
  {
    hide LegibleHint, LegibleRecords, ShortestCut, ParseName;
    if i > 0 {
      LevelIsLegible(s, w, q, rootHint, i - 1);
      var above := LevelAt(s, w, q, rootHint, i - 1).value;
      if s == Hinted {
        var zone, r := q.rrLabel[..above.finished], q.rrLabel[above.finished..];
        var servers := Records(w[zone], r[..ShortestCut(w[zone], r).value], NS);
        RecordIsLegible(w, q, zone, ParseName(RecordAt(servers, 0)), FH);
      }
    }
  }

  /** A level with nothing left to resolve is the end of a chain of delegations. */
  lemma {:induction false} LevelReachesEnd(s: Strategy, w: World, q: Query, rootHint: Name, i: nat)
    requires LevelAt(s, w, q, rootHint, i).Just?
    ensures var k := LevelAt(s, w, q, rootHint, i).value.finished;
            k <= |q.rrLabel| && (CutsReachEnd(w, q, 0) <==> CutsReachEnd(w, q, k))
  {
    hide HintOf, Records, HasAuth;
    if i > 0 {
      LevelReachesEnd(s, w, q, rootHint, i - 1);
    }
  }

  /** Zone and label of an Interest are legible when they are cut from the destination. */
  lemma PartsAreLegible(w: World, q: Query, finished: nat, count: nat)
    requires LegibleStub(w, q) && finished <= |q.rrLabel|
    requires finished == |q.rrLabel| ==> CutsReachEnd(w, q, 0)
    ensures var zone, rrLabel := GetPrefix(q.rrLabel, finished), GetSubName(q.rrLabel, finished, count);
            NoUpdateText(zone) && NoUpdateText(rrLabel) && TypeFree(zone) && TypeFreeInside(rrLabel)
            && forall c | c in zone :: !EndsIn([MARKER], c)
  {
    SubNameText(q.rrLabel, 0, finished);
    SubNameText(q.rrLabel, finished, count);
    InnerParts(w, q, finished, count);
    hide StartsIn, EndsIn, Inner, GetSubName, NoUpdateText;
  }

  lemma InnerParts(w: World, q: Query, finished: nat, count: nat)
    requires finished <= |q.rrLabel| && (finished == |q.rrLabel| ==> CutsReachEnd(w, q, 0))
    ensures forall c | c in GetPrefix(q.rrLabel, finished) :: c in Inner(w, q)
    ensures var rrLabel := GetSubName(q.rrLabel, finished, count);
            forall k | 0 <= k < |rrLabel| - 1 :: rrLabel[k] in Inner(w, q)
  {
    hide CutsReachEnd;
    var inner := Inner(w, q);
    assert forall k | 0 <= k < |inner| :: inner[k] in inner && inner[k] == q.rrLabel[k];
    var rrLabel := GetSubName(q.rrLabel, finished, count);
    forall k | 0 <= k < |rrLabel| - 1
      ensures rrLabel[k] in inner
    {
      assert inner[finished + k] in inner;
    }
  }

  lemma HintIsLegible(w: World, q: Query, i: Query)
    requires LegibleHint(w, q, i.hint) && Speaks(QUERY_NAMES, i)
    requires NoUpdateText(i.zone) && NoUpdateText(i.rrLabel) && TypeFree(i.zone) && TypeFreeInside(i.rrLabel)
    requires forall c | c in i.zone :: !EndsIn([MARKER], c)
    requires i.rrLabel == [] ==> CutsReachEnd(w, q, 0) || RootServer(w)
    ensures Legible(i)
  {
    hide StartsIn, EndsIn, CutsReachEnd, RootServer;
  }

  lemma NoHintIsLegible(w: World, q: Query)
    ensures LegibleHint(w, q, [])
  {
  }

  /** Every Interest a reachable query sends is legible. */
  lemma InterestIsLegible(s: Strategy, w: World, q: Query, rootHint: Name, st: QueryState, i: nat)
    requires LegibleStub(w, q) && LegibleWorld(s, w, q, rootHint)
    requires Invariant(s, w, q, rootHint, st, i) && st.step in {NSQuery, RRQuery, FHQuery}
    ensures Legible(InterestOf(s, q, st))
  {
    var sent := InterestOf(s, q, st);
    LevelIsLegible(s, w, q, rootHint, i);
    LevelReachesEnd(s, w, q, rootHint, i);
    NoHintIsLegible(w, q);
    assert LegibleHint(w, q, sent.hint) && Speaks(QUERY_NAMES, sent);
    var count := if st.step == RRQuery then |q.rrLabel| else st.rrLabelLen;
    PartsAreLegible(w, q, st.finished, count);
    if st.step == FHQuery {
      var zone, rest := q.rrLabel[..st.finished], Remaining(q, st);
      RecordIsLegible(w, q, zone, rest[..st.rrLabelLen], NS);
    }
    HintIsLegible(w, q, sent);
  }

  /** While a resolution is running it is at one of the three asking steps. */
  lemma {:induction false} RunningAsks(s: Strategy, w: World, q: Query, r: Run, m: nat)
    requires r.status == Running ==> r.st.step in {NSQuery, RRQuery, FHQuery}
    ensures var end := Iterate(s, w, q, r, m);
            end.status == Running ==> end.st.step in {NSQuery, RRQuery, FHQuery}
    decreases m
  {
    hide Serve, InterestOf, OnData;
    if m > 0 {
      RunningAsks(s, w, q, Step(s, w, q, r), m - 1);
    }
  }

  // ----- The Interests a resolution can send ---------------------------------------------------

  /** A name that can be the hint of an Interest: that of the root zone or one in an FH record. */
  predicate IsHint(s: Strategy, w: World, rootHint: Name, hint: Name) {
    hint == rootHint
    || (s == Hinted
        && exists z, k, d | z in w && k in w[z] && d in w[z][k] :: k.rrtype == FH && hint == ParseName(d))
  }

  /** A name in an NS record of the zone. */
  predicate IsServer(w: World, zone: Name, server: Name) {
    zone in w && exists k, d | k in w[zone] && d in w[zone][k] :: k.rrtype == NS && server == ParseName(d)
  }

  /** Zone and label are cut from the destination, or the label is that of a server of the zone. */
  predicate Askable(s: Strategy, w: World, q: Query, rootHint: Name, i: Query) {
    i.queryType == Dns && IsHint(s, w, rootHint, i.hint) && i.zone <= q.rrLabel
    && ((i.rrtype in {NS, q.rrtype} && i.zone + i.rrLabel <= q.rrLabel)
        || (s == Hinted && i.rrtype == FH && IsServer(w, i.zone, i.rrLabel)))
  }

  /** Every answer to an Interest that the resolution of `q` can send fits the encoder. */
  ghost predicate AllFit(s: Strategy, n: Net, q: Query, rootHint: Name) {
    forall i: Query | Askable(s, WorldOf(n), q, rootHint, i) :: Fits(n, i)
  }

  lemma RecordIsName(s: Strategy, w: World, rootHint: Name, zone: Name, rrLabel: Name, rrtype: RRType)
    requires zone in w && Records(w[zone], rrLabel, rrtype) != []
    ensures var name := ParseName(Records(w[zone], rrLabel, rrtype)[0]);
            (rrtype == NS ==> IsServer(w, zone, name)) && (s == Hinted && rrtype == FH ==> IsHint(s, w, rootHint, name))
  {
    hide ParseName;
    var k := RecordKey(rrLabel, rrtype);
    assert k in w[zone] && Records(w[zone], rrLabel, rrtype)[0] in w[zone][k];
  }

  lemma {:induction false} LevelIsHint(w: World, q: Query, rootHint: Name, i: nat)
    requires LevelAt(Hinted, w, q, rootHint, i).Just?
    ensures IsHint(Hinted, w, rootHint, LevelAt(Hinted, w, q, rootHint, i).value.hint)
  {
    hide IsHint, ShortestCut, ParseName;
    if i == 0 {
      assert IsHint(Hinted, w, rootHint, rootHint) by { RootIsHint(Hinted, w, rootHint); }
    } else {
      var above := LevelAt(Hinted, w, q, rootHint, i - 1).value;
      var zone, r := q.rrLabel[..above.finished], q.rrLabel[above.finished..];
      var servers := Records(w[zone], r[..ShortestCut(w[zone], r).value], NS);
      RecordIsName(Hinted, w, rootHint, zone, ParseName(RecordAt(servers, 0)), FH);
    }
  }

  lemma RootIsHint(s: Strategy, w: World, rootHint: Name)
    ensures IsHint(s, w, rootHint, rootHint)
  {
  }

  /** Every Interest a reachable query sends is one of these. */
  lemma InterestIsAskable(s: Strategy, w: World, q: Query, rootHint: Name, st: QueryState, i: nat)
    requires s == Plain ==> rootHint == []
    requires Invariant(s, w, q, rootHint, st, i) && st.step in {NSQuery, RRQuery, FHQuery}
    ensures Askable(s, w, q, rootHint, InterestOf(s, q, st))
  {
    hide IsHint, IsServer, Searching, LevelAt, ParseName;
    RootIsHint(s, w, rootHint);
    if s == Hinted {
      LevelIsHint(w, q, rootHint, i);
    }
    SubNameOfRemaining(q, st);
    if st.step == FHQuery {
      var zone, rest := q.rrLabel[..st.finished], Remaining(q, st);
      RecordIsName(s, w, rootHint, zone, rest[..st.rrLabelLen], NS);
    } else {
      InsideDestination(s, q, st);
    }
  }

  /** What a network needs for the resolution of `q`: tables that keep the invariant, names that no
      part of the grammars is taken for, and answers that fit the encoder. */
  ghost predicate Ready(s: Strategy, n: Net, q: Query, rootHint: Name) {
    ValidSites(n) && AllFit(s, n, q, rootHint)
    && LegibleStub(WorldOf(n), q) && LegibleWorld(s, WorldOf(n), q, rootHint)
  }

  /** Wherever a resolution is still running, the network answers its next Interest as the static
      zones do. */
  lemma RunIsServed(s: Strategy, n: Net, q: Query, rootHint: Name, m: nat)
    requires Ready(s, n, q, rootHint) && After(s, WorldOf(n), q, rootHint, m).status == Running
    ensures var i := InterestOf(s, q, After(s, WorldOf(n), q, rootHint, m).st);
            NetworkReply(n, i) == Serve(WorldOf(n), i)
  {
    hide ValidSites, WorldOf, LegibleStub, LegibleRecords, LegibleHint, Invariant, Serve, InterestOf, NetworkReply;
    hide Legible, Fits, Iterate, Askable;
    var w, r := WorldOf(n), After(s, WorldOf(n), q, rootHint, m);
    var i := ReachableState(s, w, q, rootHint, m);
    RunningAsks(s, w, q, Start(rootHint), m);
    InterestIsLegible(s, w, q, rootHint, r.st, i);
    InterestIsAskable(s, w, q, rootHint, r.st, i);
    NetworkServes(n, InterestOf(s, q, r.st));
  }

  /** Resolving against the servers' databases over the wire is, exchange by exchange, resolving
      against the zones they hold. */
  lemma {:induction false} NetworkIsWorld(s: Strategy, n: Net, q: Query, rootHint: Name, m: nat)
    requires Ready(s, n, q, rootHint)
    ensures NetAfter(s, n, q, rootHint, m) == After(s, WorldOf(n), q, rootHint, m)
  {
    hide Ready, WorldOf, Serve, InterestOf, OnData, NetworkReply;
    if m > 0 {
      var w, r := WorldOf(n), After(s, WorldOf(n), q, rootHint, m - 1);
      NetworkIsWorld(s, n, q, rootHint, m - 1);
      IterateFurther(s, w, q, Start(rootHint), m - 1, 1);
      assert Iterate(s, w, q, r, 1) == Step(s, w, q, r);
      if r.status == Running {
        RunIsServed(s, n, q, rootHint, m - 1);
      }
    }
  }

  ghost predicate SameRuns(s: Strategy, n: Net, q: Query, rootHint: Name) {
    forall m: nat :: NetAfter(s, n, q, rootHint, m) == After(s, WorldOf(n), q, rootHint, m)
  }

  lemma SameAnswers(s: Strategy, n: Net, q: Query, rootHint: Name, re: Response)
    requires SameRuns(s, n, q, rootHint)
    ensures (exists m: nat :: AnsweredWith(NetAfter(s, n, q, rootHint, m), re))
            <==> exists m: nat :: AnsweredWith(After(s, WorldOf(n), q, rootHint, m), re)
  {
    hide WorldOf, Iterate, NetIterate, AnsweredWith;
    if m: nat :| AnsweredWith(After(s, WorldOf(n), q, rootHint, m), re) {
      assert AnsweredWith(NetAfter(s, n, q, rootHint, m), re);
    }
    if m: nat :| AnsweredWith(NetAfter(s, n, q, rootHint, m), re) {
      assert AnsweredWith(After(s, WorldOf(n), q, rootHint, m), re);
    }
  }

  lemma SameEnds(s: Strategy, n: Net, q: Query, rootHint: Name, status: Status)
    requires SameRuns(s, n, q, rootHint)
    ensures (exists m: nat :: NetAfter(s, n, q, rootHint, m).status == status)
            <==> exists m: nat :: After(s, WorldOf(n), q, rootHint, m).status == status
    ensures (forall m: nat :: NetAfter(s, n, q, rootHint, m).status == status)
            <==> forall m: nat :: After(s, WorldOf(n), q, rootHint, m).status == status
  {
    hide WorldOf, Iterate, NetIterate;
    if m: nat :| After(s, WorldOf(n), q, rootHint, m).status == status {
      assert NetAfter(s, n, q, rootHint, m).status == status;
    }
    if m: nat :| After(s, WorldOf(n), q, rootHint, m).status != status {
      assert NetAfter(s, n, q, rootHint, m).status != status;
    }
  }

  /** End-to-end correctness over the databases and the wire: a stub is answered with a response
      exactly when the delegation walk through the servers' tables yields it, it is given up exactly
      when that walk meets silence, and it waits for ever exactly when the walk diverges. */
  lemma EndToEndOverDatabases(s: Strategy, n: Net, q: Query, rootHint: Name, re: Response)
    requires Ready(s, n, q, rootHint)
    ensures (exists m: nat :: AnsweredWith(NetAfter(s, n, q, rootHint, m), re))
            <==> Walk(s, WorldOf(n), q, 0) == Answer(re)
    ensures (exists m: nat :: NetAfter(s, n, q, rootHint, m).status == Aborted)
            <==> Walk(s, WorldOf(n), q, 0) == Silence
    ensures (forall m: nat :: NetAfter(s, n, q, rootHint, m).status == Running)
            <==> Walk(s, WorldOf(n), q, 0) == Divergence
  {
    hide Ready, WorldOf, Walk, AnsweredWith, After, NetAfter;
    EndToEnd(s, WorldOf(n), q, rootHint, re);
    forall m: nat
      ensures NetAfter(s, n, q, rootHint, m) == After(s, WorldOf(n), q, rootHint, m)
    {
      NetworkIsWorld(s, n, q, rootHint, m);
    }
    SameAnswers(s, n, q, rootHint, re);
    SameEnds(s, n, q, rootHint, Aborted);
    SameEnds(s, n, q, rootHint, Running);
  }
}
