/** Many resolutions at once, against the servers' databases and over the wire. */
module NetworkResolver {
  import opened Chain
  import opened Grammar
  import opened IterativeQuery
  import opened NameRoundTrip
  import opened Names
  import opened Network
  import opened Protocol
  import opened QueryNames
  import opened Resolution
  import opened Resolver

  /** Every reply is what the network's servers send to the Interest it answers; Interests may still
      time out. */
  predicate NetHonest(s: Strategy, n: Net, rootHint: Name, events: seq<Event>) {
    forall k | 0 <= k < |events| :: NetHonestEvent(n, HandleAll(s, rootHint, events[..k]), events[k])
  }

  predicate NetHonestEvent(n: Net, rs: ResolverState, e: Event) {
    e.DataFor? && e.at < |rs.pending| ==> NetworkReply(n, rs.pending[e.at].st.lastInterest) == Just(e.re)
  }

  /** Moreover, an Interest times out exactly where the network keeps silent. */
  predicate NetExact(s: Strategy, n: Net, rootHint: Name, events: seq<Event>) {
    forall k | 0 <= k < |events| :: NetExactEvent(n, HandleAll(s, rootHint, events[..k]), events[k])
  }

  predicate NetExactEvent(n: Net, rs: ResolverState, e: Event) {
    match e
    case StubInterest(_) => true
    case DataFor(at, re) => at < |rs.pending| ==> NetworkReply(n, rs.pending[at].st.lastInterest) == Just(re)
    case TimeoutOf(at) => at < |rs.pending| ==> NetworkReply(n, rs.pending[at].st.lastInterest) == Nothing
  }

  /** The network is ready for every stub's query. */
  ghost predicate ReadyForAll(s: Strategy, n: Net, rootHint: Name, stubs: seq<Query>) {
    forall id | 0 <= id < |stubs| :: Ready(s, n, stubs[id], rootHint)
  }

  /** An Interest that is outstanding is answered by the network as by the static zones. */
  lemma PendingIsServed(s: Strategy, n: Net, rootHint: Name, events: seq<Event>, at: nat)
    requires Honest(s, WorldOf(n), rootHint, events) && at < |HandleAll(s, rootHint, events).pending|
    requires ReadyForAll(s, n, rootHint, HandleAll(s, rootHint, events).stubs)
    ensures var i := HandleAll(s, rootHint, events).pending[at].st.lastInterest;
            NetworkReply(n, i) == Serve(WorldOf(n), i)
  {
    hide Honest, HandleAll, Consistent, Ready, WorldOf, NetworkReply, Serve, InterestOf, Iterate;
    var rs, alone := HandleAll(s, rootHint, events), AllAlone(s, rootHint, events);
    Independent(s, rootHint, events);
    AllOnTrack(s, WorldOf(n), rootHint, events);
    WaitingRun(s, rs, alone, at);
    var q, r := rs.pending[at].query, alone[rs.pending[at].stub];
    assert OnTrack(s, WorldOf(n), rootHint, q, r);
    var m: nat :| After(s, WorldOf(n), q, rootHint, m) == r;
    RunIsServed(s, n, q, rootHint, m);
  }

  lemma ReadyBefore(s: Strategy, rootHint: Name, n: Net, events: seq<Event>, k: nat)
    requires k <= |events| && ReadyForAll(s, n, rootHint, HandleAll(s, rootHint, events).stubs)
    ensures ReadyForAll(s, n, rootHint, HandleAll(s, rootHint, events[..k]).stubs)
  {
    hide Ready, HandleAll;
    StubsStay(s, rootHint, events, k);
  }

  /** Replies that the network's servers send are those of the static zones. */
  lemma {:induction false} NetHonestIsHonest(s: Strategy, n: Net, rootHint: Name, events: seq<Event>)
    requires NetHonest(s, n, rootHint, events)
    requires ReadyForAll(s, n, rootHint, HandleAll(s, rootHint, events).stubs)
    ensures Honest(s, WorldOf(n), rootHint, events)
  {
    hide HandleAll, ReadyForAll, NetworkReply, Serve, WorldOf;
    if events != [] {
      var last := |events| - 1;
      var before := events[..last];
      assert forall k | 0 <= k < last :: before[..k] == events[..k] && before[k] == events[k];
      ReadyBefore(s, rootHint, n, events, last);
      NetHonestIsHonest(s, n, rootHint, before);
      var rs := HandleAll(s, rootHint, before);
      var e := events[last];
      if e.DataFor? && e.at < |rs.pending| {
        PendingIsServed(s, n, rootHint, before, e.at);
      }
    }
  }

  lemma HonestUpTo(s: Strategy, w: World, rootHint: Name, events: seq<Event>, k: nat)
    requires k <= |events| && Honest(s, w, rootHint, events)
    ensures Honest(s, w, rootHint, events[..k])
  {
    hide HandleAll, HonestEvent;
    assert forall j | 0 <= j < k :: events[..k][..j] == events[..j] && events[..k][j] == events[j];
  }

  lemma NetExactIsExact(s: Strategy, n: Net, rootHint: Name, events: seq<Event>)
    requires NetExact(s, n, rootHint, events)
    requires ReadyForAll(s, n, rootHint, HandleAll(s, rootHint, events).stubs)
    ensures Exact(s, WorldOf(n), rootHint, events)
  {
    hide HandleAll, ReadyForAll, NetworkReply, Serve, WorldOf, Honest;
    assert NetHonest(s, n, rootHint, events) by {
      assert forall k | 0 <= k < |events| :: NetExactEvent(n, HandleAll(s, rootHint, events[..k]), events[k]);
    }
    NetHonestIsHonest(s, n, rootHint, events);
    forall k | 0 <= k < |events|
      ensures ExactEvent(WorldOf(n), HandleAll(s, rootHint, events[..k]), events[k])
    {
      var rs, e := HandleAll(s, rootHint, events[..k]), events[k];
      assert NetExactEvent(n, rs, e);
      HonestUpTo(s, WorldOf(n), rootHint, events, k);
      ReadyBefore(s, rootHint, n, events, k);
      if !e.StubInterest? && e.at < |rs.pending| {
        PendingIsServed(s, n, rootHint, events[..k], e.at);
      }
    }
  }

  /** However the resolutions interleave and whichever Interests time out, an answer given to a stub
      is the one that the delegation walk through the servers' tables yields for its query. */
  lemma AnswersFromDatabases(s: Strategy, n: Net, rootHint: Name, events: seq<Event>, a: StubAnswer)
    requires NetHonest(s, n, rootHint, events)
    requires ReadyForAll(s, n, rootHint, HandleAll(s, rootHint, events).stubs)
    requires a in HandleAll(s, rootHint, events).answers
    ensures Walk(s, WorldOf(n), a.query, 0) == Answer(a.response)
  {
    hide NetHonest, ReadyForAll, HandleAll, Walk, Honest;
    NetHonestIsHonest(s, n, rootHint, events);
    AnswersAreCorrect(s, WorldOf(n), rootHint, events, a);
  }

  /** Every stub is served by the servers' databases: within the bound unless the walk through their
      tables diverges, and as that walk says. */
  lemma StubsServedFromDatabases(s: Strategy, n: Net, rootHint: Name, events: seq<Event>, id: nat)
    requires NetExact(s, n, rootHint, events) && id < |HandleAll(s, rootHint, events).stubs|
    requires ReadyForAll(s, n, rootHint, HandleAll(s, rootHint, events).stubs)
    ensures Served(s, WorldOf(n), rootHint, events, id)
  {
    hide NetExact, ReadyForAll, HandleAll, Served, Exact;
    NetExactIsExact(s, n, rootHint, events);
    EveryStubIsServed(s, WorldOf(n), rootHint, events, id);
  }

  /** From a stub's printed name through databases, names and bytes to its answer: a readable query
      that arrives as the `k`-th event is served as the walk through the servers' tables says for
      that very query, and any answer it gets is that walk's. */
  lemma PrintedStubFromDatabases(s: Strategy, n: Net, rootHint: Name, events: seq<Event>, k: nat, q: Query,
                                 suffix: Name) returns (id: nat)
    requires Wellformed(QUERY_NAMES, q, suffix) && Readable(QUERY_NAMES, q)
    requires k < |events| && events[k] == StubInterest(StubQuery(Printed(q, suffix)))
    requires NetHonest(s, n, rootHint, events)
    requires ReadyForAll(s, n, rootHint, HandleAll(s, rootHint, events).stubs)
    ensures id == |HandleAll(s, rootHint, events[..k]).stubs| < |HandleAll(s, rootHint, events).stubs|
    ensures NetExact(s, n, rootHint, events) ==> Served(s, WorldOf(n), rootHint, events, id)
    ensures forall a | a in HandleAll(s, rootHint, events).answers && a.stub == id ::
              a.query == q && a.name == AnswerName(q) && Walk(s, WorldOf(n), q, 0) == Answer(a.response)
  {
    hide NetHonest, NetExact, ReadyForAll, HandleAll, Walk, Honest, Exact, Served, StubQuery, Printed, Wellformed;
    hide Readable, WorldOf;
    NetHonestIsHonest(s, n, rootHint, events);
    if NetExact(s, n, rootHint, events) {
      NetExactIsExact(s, n, rootHint, events);
    }
    id := PrintedStubIsServed(s, WorldOf(n), rootHint, events, k, q, suffix);
  }
}
