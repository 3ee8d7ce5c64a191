/** A concrete network of two servers, for which the hypotheses of the resolver theorems hold
    together and a resolution is answered with either strategy. */
module ExampleNetwork {
  import opened DataPackets
  import opened Dyndns
  import opened Enums
  import opened Grammar
  import opened IterativeQuery
  import opened NameRoundTrip
  import opened NameServer
  import opened Names
  import opened Network
  import opened Protocol
  import opened QueryNames
  import opened Resolution
  import opened ResourceRecords
  import opened ResponseCodec
  import opened SmallNetworks
  import opened Tables
  import opened Tlv

  /** The root zone delegates `a` to the server `/ns`, which it gives a forwarding hint. */
  const ROOT_TABLES := Tables([RRSetRow(1, 1, ["a"], "", NS), RRSetRow(2, 1, ["ns"], "", FH)],
                              [RRRow(1, 1, 3600, "/ns"), RRRow(2, 2, 3600, "/h")])

  /** The zone `/a` holds one text record. */
  const A_TABLES := Tables([RRSetRow(1, 1, ["b"], "", TXT)], [RRRow(1, 1, 3600, "x")])

  const EXAMPLE := Net(map[[] := Site(ROOT_TABLES, Zone(1, []), 3600), ["a"] := Site(A_TABLES, Zone(1, ["a"]), 3600)],
                       (c: Component) => Nothing, (i: Query) => "v")

  const ROOT_VIEW: ZoneView := map[RecordKey(["a"], NS) := ["/ns"], RecordKey(["ns"], FH) := ["/h"]]

  const A_VIEW: ZoneView := map[RecordKey(["b"], TXT) := ["x"]]

  const EXAMPLE_WORLD: World := map[[] := ROOT_VIEW, ["a"] := A_VIEW]

  const EXAMPLE_QUERY := Query([], [], Dns, ["a", "b"], TXT)

  // ----- What the tables hold ------------------------------------------------------------------

  lemma RootIsValid()
    ensures Valid(ROOT_TABLES)
  {
    assert ROOT_TABLES.rrsets[0] in ROOT_TABLES.rrsets && HasRRSet(ROOT_TABLES.rrsets, 1);
    assert ROOT_TABLES.rrsets[1] in ROOT_TABLES.rrsets && HasRRSet(ROOT_TABLES.rrsets, 2);
    assert ["a"][0] != ["ns"][0];
  }

  lemma AIsValid()
    ensures Valid(A_TABLES)
  {
    assert A_TABLES.rrsets[0] in A_TABLES.rrsets && HasRRSet(A_TABLES.rrsets, 1);
  }

  lemma OneRow(r: RRRow, id: nat)
    ensures Select([r], id) == if r.rrsetId == id then [r] else []
  {
    FilterSnoc([], r, InSet(id));
    assert [] + [r] == [r];
  }

  lemma TwoRows(r: RRRow, r': RRRow, id: nat)
    ensures Select([r, r'], id) == Select([r], id) + if r'.rrsetId == id then [r'] else []
  {
    assert [r, r'][..1] == [r];
  }

  lemma RootLookups()
    ensures Lookup(ROOT_TABLES, 1, ["a"], NS) == ["/ns"] && Lookup(ROOT_TABLES, 1, ["ns"], FH) == ["/h"]
  {
    hide Select;
    var rows, sets := ROOT_TABLES.rrs, ROOT_TABLES.rrsets;
    TwoRows(rows[0], rows[1], 1);
    TwoRows(rows[0], rows[1], 2);
    OneRow(rows[0], 1);
    OneRow(rows[0], 2);
    assert sets[..1] == [sets[0]] && sets[1].rrtype == FH && sets[0].rrtype == NS;
    assert Select(rows, 1) == [rows[0]] && Select(rows, 2) == [rows[1]];
  }

  lemma RootView()
    ensures View(ROOT_TABLES, 1) == ROOT_VIEW
  {
    hide Lookup;
    RootLookups();
    var sets := ROOT_TABLES.rrsets;
    InView(ROOT_TABLES, sets[0]);
    InView(ROOT_TABLES, sets[1]);
    assert forall k | k in View(ROOT_TABLES, 1) :: k == RecordKey(["a"], NS) || k == RecordKey(["ns"], FH);
  }

  lemma AView()
    ensures View(A_TABLES, 1) == A_VIEW
  {
    var sets := A_TABLES.rrsets;
    OneRow(A_TABLES.rrs[0], 1);
    assert sets[..0] == [];
    assert Lookup(A_TABLES, 1, ["b"], TXT) == ["x"];
    InView(A_TABLES, sets[0]);
    hide Lookup;
    assert forall k | k in View(A_TABLES, 1) :: k == RecordKey(["b"], TXT);
  }

  lemma ExampleWorld()
    ensures WorldOf(EXAMPLE) == EXAMPLE_WORLD && ValidSites(EXAMPLE)
  {
    hide View, Valid;
    RootIsValid();
    AIsValid();
    RootView();
    AView();
  }

  // ----- Its names and sizes -------------------------------------------------------------------

  /** Text of two characters is no part of the grammars. */
  lemma ShortText(c: Component)
    requires |c| <= 2
    ensures !EndsIn([MARKER], c) && !EndsIn(QUERY_NAMES.queryTypes, c) && !StartsIn(UPDATE_NAMES.rrTypes, c)
  {
  }

  lemma ShortNames(n: Name)
    requires forall c | c in n :: |c| <= 2
    ensures NoUpdateText(n) && TypeFree(n) && TypeFreeInside(n)
    ensures forall c | c in n :: !EndsIn([MARKER], c)
  {
    hide EndsIn, StartsIn;
    forall c: Component | c in n
      ensures !EndsIn([MARKER], c) && !EndsIn(QUERY_NAMES.queryTypes, c) && !StartsIn(UPDATE_NAMES.rrTypes, c)
    {
      ShortText(c);
    }
    assert forall k | 0 <= k < |n| :: n[k] in n;
  }

  lemma ExampleStub()
    ensures LegibleStub(EXAMPLE_WORLD, EXAMPLE_QUERY)
  {
    hide EndsIn, StartsIn, CutsReachEnd;
    ShortNames(["a", "b"]);
    assert forall c | c in Inner(EXAMPLE_WORLD, EXAMPLE_QUERY) :: c in ["a", "b"];
  }

  lemma ShortHint(hint: Name)
    requires forall c | c in hint :: |c| <= 2
    ensures LegibleHint(EXAMPLE_WORLD, EXAMPLE_QUERY, hint)
  {
    hide NoUpdateText, TypeFree, CutsReachEnd, RootServer;
    ShortNames(hint);
  }

  lemma ShortServer(server: Name)
    requires forall c | c in server :: |c| <= 2
    ensures LegibleServer(server)
  {
    hide NoUpdateText, TypeFreeInside;
    ShortNames(server);
  }

  lemma ExampleRecords()
    ensures LegibleRecords(EXAMPLE_WORLD, EXAMPLE_QUERY)
  {
    hide LegibleHint, LegibleServer, ParseName;
    ParseOne("ns");
    ParseOne("h");
    ShortServer(["ns"]);
    ShortHint(["h"]);
    var w := EXAMPLE_WORLD;
    forall z, k, d | z in w && k in w[z] && d in w[z][k]
      ensures (k.rrtype == NS ==> LegibleServer(ParseName(d)))
              && (k.rrtype == FH ==> LegibleHint(w, EXAMPLE_QUERY, ParseName(d)))
    {
      assert k.rrtype == NS ==> d == "/" + "ns";
      assert k.rrtype == FH ==> d == "/" + "h";
    }
  }

  lemma ExampleIsLegible(s: Strategy)
    ensures LegibleStub(EXAMPLE_WORLD, EXAMPLE_QUERY) && LegibleWorld(s, EXAMPLE_WORLD, EXAMPLE_QUERY, [])
  {
    hide LegibleStub, LegibleHint, LegibleRecords;
    ExampleStub();
    ExampleRecords();
    ShortHint([]);
  }

  lemma ExampleIsSmall()
    ensures SmallNet(EXAMPLE, EXAMPLE_QUERY, [])
  {
    assert Uri(["a"]) == "/a" && Uri([]) == "/" by { assert ["a"][1..] == [] && Slashed([]) == ""; }
  }

  // ----- A resolution --------------------------------------------------------------------------

  lemma ExampleWalk(s: Strategy)
    ensures Walk(s, EXAMPLE_WORLD, EXAMPLE_QUERY, 0) == Answer(Response(Resp, ["x"]))
  {
    var w, q := EXAMPLE_WORLD, EXAMPLE_QUERY;
    assert q.rrLabel[..0] == [] && q.rrLabel[0..] == ["a", "b"] && ["a", "b"][..1] == ["a"];
    assert q.rrLabel[1..] == ["b"] && ["b"][..1] == ["b"];
    assert IsShortestCut(ROOT_VIEW, ["a", "b"], 1);
    ShortestCutUnique(ROOT_VIEW, ["a", "b"], 1);
    assert ShortestCut(A_VIEW, ["b"]).Nothing?;
    ParseOne("ns");
    ParseOne("h");
    hide ShortestCut, ParseName;
    assert HintOf(ROOT_VIEW, ["/ns"]).Just?;
    assert !HasAuth(A_VIEW, ["b"], NS);
    assert Walk(s, w, q, 1) == Answer(Response(Resp, ["x"]));
  }

  /** All hypotheses of the resolver theorems hold of this network with either strategy, and the
      stub's query for the text record of `/a/b` is answered over names, tables and bytes. */
  lemma ExampleIsResolved(s: Strategy)
    ensures Ready(s, EXAMPLE, EXAMPLE_QUERY, [])
    ensures exists m: nat :: AnsweredWith(NetAfter(s, EXAMPLE, EXAMPLE_QUERY, [], m), Response(Resp, ["x"]))
  {
    hide ValidSites, AllFit, LegibleStub, LegibleWorld, WorldOf, Walk, AnsweredWith, NetAfter, SmallNet;
    ExampleWorld();
    ExampleIsSmall();
    SmallNetFits(s, EXAMPLE, EXAMPLE_QUERY, []);
    ExampleIsLegible(s);
    ExampleWalk(s);
    EndToEndOverDatabases(s, EXAMPLE, EXAMPLE_QUERY, [], Response(Resp, ["x"]));
  }

  // ----- An update -----------------------------------------------------------------------------

  const UPDATE_MESSAGE := Message([], 3600, Resp, [], NS, [DEFAULT_RR.(data := "y", action := Add)])

  /** The update adds a text record for `c` to the zone `/a`. */
  const UPDATED := Query([], ["a"], Dns, ["c"], TXT)

  const UPDATE_PACKET := Packet(Printed(UPDATED, ["v"]), Wire(UPDATE_MESSAGE))

  const UPDATE_QUERY := Query([], ["a"], Dns, ["w"], DyndnsUpdate)

  lemma UpdateEncodes()
    ensures Encodable(UPDATE_MESSAGE)
  {
    hide ContentValue;
    assert Uri([]) == "/";
    ContentSize(UPDATE_MESSAGE);
  }

  lemma UpdateIsNamed()
    ensures Wellformed(QUERY_NAMES, UPDATED, ["v"]) && Readable(QUERY_NAMES, UPDATED)
    ensures Wellformed(UPDATE_NAMES, UPDATE_QUERY, []) && !HasStem(UPDATE_QUERY.zone)
  {
    hide EndsIn, FirstPrefix;
    ShortNames(["a"]);
    assert FirstPrefix(QUERY_NAMES.rrTypes, "v").Nothing? by {
      FirstPrefixExactly(QUERY_NAMES.rrTypes, "v");
      assert forall a | a in QUERY_NAMES.rrTypes :: |a| >= 2;
    }
    assert ["a"][0] in ["a"];
  }

  lemma NotYetStored()
    ensures Lookup(A_TABLES, 1, ["c"], TXT) == []
  {
    AIsValid();
    var row := A_TABLES.rrsets[0];
    assert A_TABLES.rrsets[..0] == [] && row.rrLabel[0] != ["c"][0];
    AbsentLookup(A_TABLES, 1, ["c"], TXT);
  }

  /** A client's update meets all that is asked of one; after it the server of `/a` answers with the
      new record. */
  lemma ExampleIsUpdated()
    ensures var unpack := (c: Component) => Just(UPDATE_PACKET);
            var t' := TablesAfter(A_TABLES, Zone(1, ["a"]), Printed(UPDATE_QUERY, []), unpack);
            IsUpdateOf(UPDATE_PACKET, UPDATE_MESSAGE, UPDATED, ["v"])
            && Lookup(t', 1, ["c"], TXT) == ["y"]
  {
    hide Valid, Wellformed, Readable, Encodable, HasStem, TablesAfter, ReactionTo, Lookup, Wire, Printed;
    UpdateEncodes();
    UpdateIsNamed();
    AIsValid();
    NotYetStored();
    var unpack := (c: Component) => Just(UPDATE_PACKET);
    var rr, key := Arriving(UPDATE_MESSAGE, UPDATED), StoreKey(1, ["c"], TXT);
    UpdateIsCarriedOut(A_TABLES, Zone(1, ["a"]), UPDATE_QUERY, [], unpack,
                       UPDATE_PACKET, UPDATE_MESSAGE, UPDATED, ["v"]);
    var t' := TablesAfter(A_TABLES, Zone(1, ["a"]), Printed(UPDATE_QUERY, []), unpack);
    assert ActsAsStore(A_TABLES, t', Zone(1, ["a"]), rr);
    assert LookupKey(t', key) == Apply(Add, LookupKey(A_TABLES, key), "y");
  }
}
