/** The resolver program: many stub queries in flight, each outstanding Interest bound to its
    own copy of its query. */
module Resolver {
  import opened Enums
  import opened Grammar
  import opened IterativeQuery
  import opened NameRoundTrip
  import opened Names
  import opened Protocol
  import opened QueryNames
  import opened Resolution

  /** A callback waiting for a reply. `stub` numbers the stub Interest it works for. */
  datatype Pending = Pending(stub: nat, query: Query, st: QueryState)

  /** The Data sent back to a stub; the version behind its name is left out. */
  datatype StubAnswer = StubAnswer(stub: nat, query: Query, name: Name, response: Response)

  /** The name of an answer: that of the query, without its hint. */
  function AnswerName(q: Query): Name {
    q.zone + [q.queryType.ToString()] + q.rrLabel + [q.rrtype.ToString()]
  }

  function AnswerTo(stub: nat, q: Query, re: Response): StubAnswer {
    StubAnswer(stub, q, AnswerName(q), re)
  }

  datatype ResolverState = ResolverState(stubs: seq<Query>, pending: seq<Pending>, answers: seq<StubAnswer>)

  /** What the face delivers: a stub's Interest, or a reply to or the timeout of the `at`-th
      outstanding Interest. */
  datatype Event = StubInterest(query: Query) | DataFor(at: nat, re: Response) | TimeoutOf(at: nat)

  const IDLE := ResolverState([], [], [])

  /** The query state bound to the Interest it sends. */
  function Expressed(s: Strategy, q: Query, st: QueryState): QueryState {
    st.(lastInterest := InterestOf(s, q, st))
  }

  function Without<T>(xs: seq<T>, i: nat): seq<T>
    requires i < |xs|
  {
    xs[..i] + xs[i + 1..]
  }

  function Handle(s: Strategy, rootHint: Name, rs: ResolverState, e: Event): ResolverState {
    match e
    case StubInterest(q) =>
      ResolverState(rs.stubs + [q],
                    rs.pending + [Pending(|rs.stubs|, q, Expressed(s, q, InitialState(rootHint)))],
                    rs.answers)
    case DataFor(at, re) =>
      if at >= |rs.pending| then rs
      else
        var p, rest := rs.pending[at], Without(rs.pending, at);
        var st := OnData(s, p.query, p.st, re);
        (match StatusOf(st.step)
         case Answered =>
           rs.(pending := rest, answers := rs.answers + [AnswerTo(p.stub, p.query, st.lastResponse)])
         case Aborted => rs.(pending := rest)
         case Running => rs.(pending := rest + [Pending(p.stub, p.query, Expressed(s, p.query, st))]))
    case TimeoutOf(at) =>
      if at >= |rs.pending| then rs else rs.(pending := Without(rs.pending, at))
  }

  function HandleAll(s: Strategy, rootHint: Name, events: seq<Event>): ResolverState {
    if events == [] then IDLE
    else Handle(s, rootHint, HandleAll(s, rootHint, events[..|events| - 1]), events[|events| - 1])
  }

  // ----- The program ---------------------------------------------------------------------------

  /** The query a stub's Interest starts: a name that is no query's starts one for the empty name. */
  function StubQuery(name: Name): Query {
    match Match(QUERY_NAMES, Uri(name))
    case Nothing => FRESH
    case Just(c) => Understood(c, FRESH)
  }

  /** What makes the record lists of a waiting query safe to index. */
  predicate Safe(s: Strategy, p: Pending) {
    p.st.authZoneIndex == 0 && p.st.hintIndex == 0
    && if s == Plain then p.st.step != FHQuery else CanSend(p.st)
  }

  class NameCachingResolver {
    const strategy: Strategy
    const rootZoneForwardingHint: Name
    var stubs: seq<Query>
    var pending: seq<Pending>
    var answers: seq<StubAnswer>

    function State(): ResolverState
      reads this
    {
      ResolverState(stubs, pending, answers)
    }

    predicate Valid()
      reads this
    {
      (strategy == Plain ==> rootZoneForwardingHint == []
                             && forall p | p in pending :: p.st.hint == [] && p.st.lastHint == [])
      && forall p | p in pending :: Safe(strategy, p)
    }

    constructor (strategy: Strategy, rootHint: Name)
      requires strategy == Plain ==> rootHint == []
      ensures Valid() && State() == IDLE
      ensures this.strategy == strategy && rootZoneForwardingHint == rootHint
    {
      this.strategy := strategy;
      rootZoneForwardingHint := rootHint;
      stubs, pending, answers := [], [], [];
    }

    method OnInterest(name: Name)
      requires Valid()
      modifies this
      ensures Valid()
      ensures State() == Handle(strategy, rootZoneForwardingHint, old(State()), StubInterest(StubQuery(name)))
    {
      hide Match, Understood;
      var query := new QueryMessage(FRESH);
      var ok := query.FromInterest(name);
      var q := query.Value();
      stubs := stubs + [q];
      if strategy == Plain {
        var iq := new IterativeQuery(q);
        ResolvePlain(|stubs| - 1, iq);
      } else {
        var iq := new IterativeQueryWithForwardingHint(q, rootZoneForwardingHint);
        ResolveHinted(|stubs| - 1, iq);
      }
    }

    /** Sends the next Interest of a plain query and binds a copy of the query to it. */
    method ResolvePlain(stub: nat, iq: IterativeQuery)
      requires Valid() && strategy == Plain && iq.authZoneIndex == 0 && iq.step != FHQuery
      modifies `pending, iq
      ensures Valid()
      ensures pending == old(pending) + [Pending(stub, iq.query, Expressed(Plain, iq.query, old(iq.State())))]
    {
      var interest := iq.ToLatestInterest();
      iq.lastInterest := interest;
      pending := pending + [Pending(stub, iq.query, iq.State())];
    }

    method ResolveHinted(stub: nat, iq: IterativeQueryWithForwardingHint)
      requires Valid() && iq.authZoneIndex == 0 && iq.forwardingHintIndex == 0 && CanSend(iq.State())
      requires strategy == Hinted
      modifies `pending, iq
      ensures Valid()
      ensures pending == old(pending) + [Pending(stub, iq.query, Expressed(Hinted, iq.query, old(iq.State())))]
    {
      var interest := iq.ToLatestInterest();
      iq.lastInterest := interest;
      pending := pending + [Pending(stub, iq.query, iq.State())];
    }

    /** A reply to the `at`-th outstanding Interest. The hinted strategy indexes the records of NS
        and FH answers unchecked, so such an answer of kind Resp must have one. */
    method OnDataFor(at: nat, re: Response)
      requires Valid() && at < |pending|
      requires strategy == Hinted && re.kind == Resp && pending[at].st.step != RRQuery ==> re.rrs != []
      modifies this
      ensures Valid()
      ensures State() == Handle(strategy, rootZoneForwardingHint, old(State()), DataFor(at, re))
    {
      var p := pending[at];
      assert Safe(strategy, p);
      pending := pending[..at] + pending[at + 1..];
      if strategy == Plain {
        var iq := new IterativeQuery.Copy(p.query, p.st);
        iq.DoData(re);
        if iq.step == AnswerStub {
          AnswerStubWith(p.stub, iq.query, iq.lastResponse);
        } else if iq.step == Abort {
          return;
        } else {
          ResolvePlain(p.stub, iq);
        }
      } else {
        var iq := new IterativeQueryWithForwardingHint.Copy(p.query, p.st);
        iq.DoData(re);
        if iq.step == AnswerStub {
          AnswerStubWith(p.stub, iq.query, iq.lastResponse);
        } else if iq.step == Abort {
          return;
        } else {
          ResolveHinted(p.stub, iq);
        }
      }
    }

    /** Sends an answer, named step by step. */
    method AnswerStubWith(stub: nat, q: Query, re: Response)
      modifies `answers
      ensures answers == old(answers) + [AnswerTo(stub, q, re)]
    {
      var name := q.zone;
      name := name + [q.queryType.ToString()];
      name := name + q.rrLabel;
      name := name + [q.rrtype.ToString()];
      answers := answers + [StubAnswer(stub, q, name, re)];
    }

    method OnTimeout(at: nat)
      requires Valid() && at < |pending|
      modifies this
      ensures Valid()
      ensures State() == Handle(strategy, rootZoneForwardingHint, old(State()), TimeoutOf(at))
    {
      pending := pending[..at] + pending[at + 1..];
    }
  }

  // ----- Independence of the resolutions -------------------------------------------------------

  /** The replies (or, as Nothing, the timeout) that one stub's Interests received, in order. */
  function Project(s: Strategy, rootHint: Name, events: seq<Event>, stub: nat): seq<Option<Response>> {
    if events == [] then []
    else
      var before := events[..|events| - 1];
      var rs := HandleAll(s, rootHint, before);
      Project(s, rootHint, before, stub)
      + ReplyTo(rs, events[|events| - 1], stub)
  }

  function ReplyTo(rs: ResolverState, e: Event, stub: nat): seq<Option<Response>> {
    match e
    case StubInterest(_) => []
    case DataFor(at, re) => if at < |rs.pending| && rs.pending[at].stub == stub then [Just(re)] else []
    case TimeoutOf(at) => if at < |rs.pending| && rs.pending[at].stub == stub then [Nothing] else []
  }

  /** The query run by itself on these replies. */
  function Alone(s: Strategy, rootHint: Name, q: Query, replies: seq<Option<Response>>): Run {
    if replies == [] then Start(rootHint)
    else
      var r := Alone(s, rootHint, q, replies[..|replies| - 1]);
      if r.status != Running then r
      else Receive(s, q, Expressed(s, q, r.st), replies[|replies| - 1])
  }

  /** At most one outstanding Interest per stub, at most one answer, and never both. */
  predicate Distinct(rs: ResolverState) {
    (forall i, j | 0 <= i < j < |rs.pending| :: rs.pending[i].stub != rs.pending[j].stub)
    && (forall i, j | 0 <= i < j < |rs.answers| :: rs.answers[i].stub != rs.answers[j].stub)
    && (forall p, a | p in rs.pending && a in rs.answers :: p.stub != a.stub)
  }

  predicate Known(rs: ResolverState, stub: nat) {
    (exists p | p in rs.pending :: p.stub == stub) || (exists a | a in rs.answers :: a.stub == stub)
  }

  /** The resolver's bookkeeping for one stub is that of its query run by itself. */
  predicate Agrees(s: Strategy, rs: ResolverState, stub: nat, q: Query, alone: Run) {
    match alone.status
    case Running => Pending(stub, q, Expressed(s, q, alone.st)) in rs.pending
    case Answered => AnswerTo(stub, q, alone.st.lastResponse) in rs.answers
    case Aborted => !Known(rs, stub)
  }

  predicate Consistent(s: Strategy, rs: ResolverState, alone: seq<Run>) {
    |alone| == |rs.stubs| && Distinct(rs)
    && (forall p | p in rs.pending :: p.stub < |rs.stubs|)
    && (forall a | a in rs.answers :: a.stub < |rs.stubs|)
    && (forall id | 0 <= id < |rs.stubs| :: Agrees(s, rs, id, rs.stubs[id], alone[id]))
  }

  /** How one event moves the separate runs. */
  function AloneStep(s: Strategy, rootHint: Name, rs: ResolverState, alone: seq<Run>, e: Event): seq<Run> {
    match e
    case StubInterest(_) => alone + [Start(rootHint)]
    case DataFor(at, re) =>
      if at < |rs.pending| && rs.pending[at].stub < |alone|
      then Deliver(s, alone, rs.pending[at], Just(re)) else alone
    case TimeoutOf(at) =>
      if at < |rs.pending| && rs.pending[at].stub < |alone|
      then Deliver(s, alone, rs.pending[at], Nothing) else alone
  }

  function Deliver(s: Strategy, alone: seq<Run>, p: Pending, reply: Option<Response>): seq<Run>
    requires p.stub < |alone|
  {
    alone[p.stub := Receive(s, p.query, Expressed(s, p.query, alone[p.stub].st), reply)]
  }

  /** Pending entries keep their order when one is taken out. */
  lemma WithoutIndex(xs: seq<Pending>, at: nat, i: nat)
    requires at < |xs|
    ensures i < |xs| - 1 ==> Without(xs, at)[i] == xs[if i < at then i else i + 1]
    ensures |Without(xs, at)| == |xs| - 1
  {
  }

  lemma WithoutMember(rs: ResolverState, at: nat, p: Pending)
    requires at < |rs.pending| && Distinct(rs)
    ensures p in Without(rs.pending, at) <==> p in rs.pending && p.stub != rs.pending[at].stub
  {
    var rest := Without(rs.pending, at);
    if p in rs.pending && p.stub != rs.pending[at].stub {
      var i :| 0 <= i < |rs.pending| && rs.pending[i] == p;
      WithoutIndex(rs.pending, at, if i < at then i else i - 1);
      assert p in rest;
    }
    if p in rest {
      var i :| 0 <= i < |rest| && rest[i] == p;
      WithoutIndex(rs.pending, at, i);
    }
  }

  lemma WithoutMembers(rs: ResolverState, at: nat)
    requires at < |rs.pending| && Distinct(rs)
    ensures forall p :: p in Without(rs.pending, at) <==> p in rs.pending && p.stub != rs.pending[at].stub
    ensures Distinct(rs.(pending := Without(rs.pending, at)))
  {
    forall p
      ensures p in Without(rs.pending, at) <==> p in rs.pending && p.stub != rs.pending[at].stub
    {
      WithoutMember(rs, at, p);
    }
    forall i, j | 0 <= i < j < |rs.pending| - 1
      ensures Without(rs.pending, at)[i].stub != Without(rs.pending, at)[j].stub
    {
      WithoutIndex(rs.pending, at, i);
      WithoutIndex(rs.pending, at, j);
    }
  }

  /** The query waiting at `at` is in the state its separate run has reached. */
  lemma WaitingRun(s: Strategy, rs: ResolverState, alone: seq<Run>, at: nat)
    requires Consistent(s, rs, alone) && at < |rs.pending|
    ensures var p := rs.pending[at];
            p.stub < |alone| && alone[p.stub].status == Running && p.query == rs.stubs[p.stub]
            && p.st == Expressed(s, p.query, alone[p.stub].st)
  {
    var p := rs.pending[at];
    assert p in rs.pending;
    assert Agrees(s, rs, p.stub, rs.stubs[p.stub], alone[p.stub]);
    assert Known(rs, p.stub);
  }

  lemma ConsistentStub(s: Strategy, rootHint: Name, rs: ResolverState, alone: seq<Run>, q: Query)
    requires Consistent(s, rs, alone)
    ensures Consistent(s, Handle(s, rootHint, rs, StubInterest(q)), alone + [Start(rootHint)])
  {
    var rs' := Handle(s, rootHint, rs, StubInterest(q));
    forall id | 0 <= id < |rs'.stubs|
      ensures Agrees(s, rs', id, rs'.stubs[id], (alone + [Start(rootHint)])[id])
    {
      if id < |rs.stubs| {
        assert Agrees(s, rs, id, rs.stubs[id], alone[id]);
        assert Known(rs', id) ==> Known(rs, id);
      } else {
        assert rs'.pending[|rs.pending|] == Pending(id, q, Expressed(s, q, InitialState(rootHint)));
      }
    }
  }

  /** The books, without the entry delivered to, after its run has become `r`. */
  function Settled(s: Strategy, rest: ResolverState, p: Pending, r: Run): ResolverState {
    match r.status
    case Running => rest.(pending := rest.pending + [Pending(p.stub, p.query, Expressed(s, p.query, r.st))])
    case Answered => rest.(answers := rest.answers + [AnswerTo(p.stub, p.query, r.st.lastResponse)])
    case Aborted => rest
  }

  /** The books after replacing the waiting entry. */
  lemma SettledDistinct(s: Strategy, rs: ResolverState, alone: seq<Run>, at: nat, r: Run)
    requires Consistent(s, rs, alone) && at < |rs.pending|
    ensures var rs' := Settled(s, rs.(pending := Without(rs.pending, at)), rs.pending[at], r);
            Distinct(rs') && (forall p | p in rs'.pending :: p.stub < |rs.stubs|)
            && (forall a | a in rs'.answers :: a.stub < |rs.stubs|)
  {
    hide Agrees, Expressed, Without;
    WithoutMembers(rs, at);
    assert rs.pending[at] in rs.pending;
  }

  lemma SettledAgrees(s: Strategy, rs: ResolverState, alone: seq<Run>, at: nat, r: Run, id: nat)
    requires Consistent(s, rs, alone) && at < |rs.pending| && id < |rs.stubs|
    requires rs.pending[at].query == rs.stubs[rs.pending[at].stub]
    ensures var p := rs.pending[at];
            Agrees(s, Settled(s, rs.(pending := Without(rs.pending, at)), p, r), id, rs.stubs[id],
                   if id == p.stub then r else alone[id])
  {
    var p := rs.pending[at];
    var rs' := Settled(s, rs.(pending := Without(rs.pending, at)), p, r);
    assert Agrees(s, rs, id, rs.stubs[id], alone[id]);
    hide Expressed, Without;
    WithoutMembers(rs, at);
    assert p in rs.pending;
    if id != p.stub {
      assert Known(rs', id) ==> Known(rs, id);
    }
  }

  lemma SettledConsistent(s: Strategy, rs: ResolverState, alone: seq<Run>, at: nat, r: Run)
    requires Consistent(s, rs, alone) && at < |rs.pending|
    ensures var p := rs.pending[at];
            p.stub < |alone|
            && Consistent(s, Settled(s, rs.(pending := Without(rs.pending, at)), p, r), alone[p.stub := r])
  {
    WaitingRun(s, rs, alone, at);
    SettledDistinct(s, rs, alone, at, r);
    var p := rs.pending[at];
    var rs', alone' := Settled(s, rs.(pending := Without(rs.pending, at)), p, r), alone[p.stub := r];
    hide Agrees, Expressed, Without, Distinct;
    forall id | 0 <= id < |rs'.stubs|
      ensures Agrees(s, rs', id, rs'.stubs[id], alone'[id])
    {
      SettledAgrees(s, rs, alone, at, r, id);
    }
  }

  /** Replacing the waiting entry by the run's new entry keeps the books consistent. */
  lemma ConsistentDelivery(s: Strategy, rootHint: Name, rs: ResolverState, alone: seq<Run>, at: nat,
                           reply: Option<Response>)
    requires Consistent(s, rs, alone) && at < |rs.pending|
    ensures rs.pending[at].stub < |alone|
    ensures Consistent(s, Handle(s, rootHint, rs, if reply.Just? then DataFor(at, reply.value) else TimeoutOf(at)),
                       Deliver(s, alone, rs.pending[at], reply))
  {
    hide Consistent;
    WaitingRun(s, rs, alone, at);
    var p := rs.pending[at];
    SettledConsistent(s, rs, alone, at, Deliver(s, alone, p, reply)[p.stub]);
  }

  /** The separate runs of all stubs, driven by the projections of the events. */
  function AllAlone(s: Strategy, rootHint: Name, events: seq<Event>): seq<Run> {
    var stubs := HandleAll(s, rootHint, events).stubs;
    seq(|stubs|, id requires 0 <= id < |stubs| => Alone(s, rootHint, stubs[id], Project(s, rootHint, events, id)))
  }

  lemma AloneExtend(s: Strategy, rootHint: Name, q: Query, replies: seq<Option<Response>>, last: Option<Response>)
    ensures Alone(s, rootHint, q, replies + [last])
            == var r := Alone(s, rootHint, q, replies);
               if r.status != Running then r else Receive(s, q, Expressed(s, q, r.st), last)
  {
    assert (replies + [last])[..|replies|] == replies;
  }

  /** Under any interleaving of stub Interests, replies and timeouts, every stub's query follows
      the trajectory of a run by itself on the replies meant for it; it has at most one Interest
      outstanding and is answered at most once. */
  lemma {:induction false} Independent(s: Strategy, rootHint: Name, events: seq<Event>)
    ensures Consistent(s, HandleAll(s, rootHint, events), AllAlone(s, rootHint, events))
  {
    if events != [] {
      var before, e := events[..|events| - 1], events[|events| - 1];
      var rs, alone := HandleAll(s, rootHint, before), AllAlone(s, rootHint, before);
      Independent(s, rootHint, before);
      AllAloneStep(s, rootHint, events);
      match e {
        case StubInterest(q) => ConsistentStub(s, rootHint, rs, alone, q);
        case DataFor(at, re) =>
          if at < |rs.pending| {
            ConsistentDelivery(s, rootHint, rs, alone, at, Just(re));
          }
        case TimeoutOf(at) =>
          if at < |rs.pending| {
            ConsistentDelivery(s, rootHint, rs, alone, at, Nothing);
          }
      }
    }
  }

  lemma AllAloneStep(s: Strategy, rootHint: Name, events: seq<Event>)
    requires events != []
    requires Consistent(s, HandleAll(s, rootHint, events[..|events| - 1]),
                        AllAlone(s, rootHint, events[..|events| - 1]))
    ensures AllAlone(s, rootHint, events)
            == AloneStep(s, rootHint, HandleAll(s, rootHint, events[..|events| - 1]),
                         AllAlone(s, rootHint, events[..|events| - 1]), events[|events| - 1])
  {
    hide Consistent, Handle, AloneStep, Receive;
    var before, e := events[..|events| - 1], events[|events| - 1];
    var rs, alone := HandleAll(s, rootHint, before), AllAlone(s, rootHint, before);
    var stubs := HandleAll(s, rootHint, events).stubs;
    StubsKept(s, rootHint, rs, e);
    AloneStepLength(s, rootHint, rs, alone, e);
    forall id | 0 <= id < |stubs|
      ensures Alone(s, rootHint, stubs[id], Project(s, rootHint, events, id))
              == AloneStep(s, rootHint, rs, alone, e)[id]
    {
      if id < |rs.stubs| {
        AloneStepAt(s, rootHint, rs, alone, e, id, Project(s, rootHint, before, id));
      } else {
        NoRepliesYet(s, rootHint, before, id);
        assert Project(s, rootHint, events, id) == [] + ReplyTo(rs, e, id) == [];
      }
    }
  }

  lemma AloneStepLength(s: Strategy, rootHint: Name, rs: ResolverState, alone: seq<Run>, e: Event)
    ensures |AloneStep(s, rootHint, rs, alone, e)| == |alone| + if e.StubInterest? then 1 else 0
    ensures e.StubInterest? ==> AloneStep(s, rootHint, rs, alone, e)[|alone|] == Start(rootHint)
  {
  }

  lemma StubsKept(s: Strategy, rootHint: Name, rs: ResolverState, e: Event)
    ensures Handle(s, rootHint, rs, e).stubs == if e.StubInterest? then rs.stubs + [e.query] else rs.stubs
  {
  }

  lemma AloneStepAt(s: Strategy, rootHint: Name, rs: ResolverState, alone: seq<Run>, e: Event, id: nat,
                    replies: seq<Option<Response>>)
    requires Consistent(s, rs, alone) && id < |rs.stubs|
    requires alone[id] == Alone(s, rootHint, rs.stubs[id], replies)
    ensures Alone(s, rootHint, rs.stubs[id], replies + ReplyTo(rs, e, id)) == AloneStep(s, rootHint, rs, alone, e)[id]
  {
    assert replies + [] == replies;
    var at := match e case StubInterest(_) => |rs.pending| case DataFor(i, _) => i case TimeoutOf(i) => i;
    if at < |rs.pending| {
      WaitingRun(s, rs, alone, at);
      if rs.pending[at].stub == id {
        AloneExtend(s, rootHint, rs.stubs[id], replies, if e.DataFor? then Just(e.re) else Nothing);
      }
    }
  }

  lemma {:induction false} StubsBounded(s: Strategy, rootHint: Name, events: seq<Event>)
    ensures var rs := HandleAll(s, rootHint, events); forall p | p in rs.pending :: p.stub < |rs.stubs|
  {
    if events != [] {
      var before := events[..|events| - 1];
      StubsBounded(s, rootHint, before);
      var rs, rs' := HandleAll(s, rootHint, before), HandleAll(s, rootHint, events);
      forall p | p in rs'.pending
        ensures p.stub < |rs'.stubs|
      {
        assert forall x | x in rs.pending :: x.stub < |rs.stubs|;
      }
    }
  }

  /** A stub that has not asked yet has received nothing. */
  lemma {:induction false} NoRepliesYet(s: Strategy, rootHint: Name, events: seq<Event>, stub: nat)
    requires stub >= |HandleAll(s, rootHint, events).stubs|
    ensures Project(s, rootHint, events, stub) == []
  {
    hide Handle, ReplyTo;
    if events != [] {
      var before := events[..|events| - 1];
      var rs := HandleAll(s, rootHint, before);
      StubsKept(s, rootHint, rs, events[|events| - 1]);
      NoRepliesYet(s, rootHint, before, stub);
      StubsBounded(s, rootHint, before);
      NoReplyTo(rs, events[|events| - 1], stub);
    }
  }

  lemma NoReplyTo(rs: ResolverState, e: Event, stub: nat)
    requires (forall p | p in rs.pending :: p.stub < |rs.stubs|) && stub >= |rs.stubs|
    ensures ReplyTo(rs, e, stub) == []
  {
    assert forall i | 0 <= i < |rs.pending| :: rs.pending[i] in rs.pending;
  }

  // ----- Correctness of concurrent answers -----------------------------------------------------

  /** Every reply is the one the static zones give to the Interest it answers; Interests may
      still time out. */
  predicate Honest(s: Strategy, w: World, rootHint: Name, events: seq<Event>) {
    forall n | 0 <= n < |events| :: HonestEvent(w, HandleAll(s, rootHint, events[..n]), events[n])
  }

  /** A stub's run that has not been given up is a prefix of the resolution by itself. */
  ghost predicate OnTrack(s: Strategy, w: World, rootHint: Name, q: Query, r: Run) {
    r.status == Aborted || exists m: nat :: After(s, w, q, rootHint, m) == r
  }

  lemma OnTrackStep(s: Strategy, w: World, rootHint: Name, q: Query, r: Run, reply: Response)
    requires OnTrack(s, w, rootHint, q, r) && r.status == Running
    requires Serve(w, InterestOf(s, q, r.st)) == Just(reply)
    ensures OnTrack(s, w, rootHint, q, Receive(s, q, Expressed(s, q, r.st), Just(reply)))
  {
    var m: nat :| After(s, w, q, rootHint, m) == r;
    IterateFurther(s, w, q, Start(rootHint), m, 1);
    assert Iterate(s, w, q, r, 1) == Step(s, w, q, r);
    assert After(s, w, q, rootHint, m + 1) == Step(s, w, q, r);
  }

  lemma {:induction false} AllOnTrack(s: Strategy, w: World, rootHint: Name, events: seq<Event>)
    requires Honest(s, w, rootHint, events)
    ensures var rs := HandleAll(s, rootHint, events);
            forall id | 0 <= id < |rs.stubs| :: OnTrack(s, w, rootHint, rs.stubs[id], AllAlone(s, rootHint, events)[id])
  {
    hide Consistent, Agrees, Serve, InterestOf, OnData, Handle, Receive, After, Alone, Project, OnTrack, Honest;
    if events != [] {
      var before, e := events[..|events| - 1], events[|events| - 1];
      var rs, alone := HandleAll(s, rootHint, before), AllAlone(s, rootHint, before);
      HonestPrefix(s, w, rootHint, events);
      AllOnTrack(s, w, rootHint, before);
      Independent(s, rootHint, before);
      AllAloneStep(s, rootHint, events);
      StubsKept(s, rootHint, rs, e);
      forall id | 0 <= id < |HandleAll(s, rootHint, events).stubs|
        ensures OnTrack(s, w, rootHint, HandleAll(s, rootHint, events).stubs[id], AllAlone(s, rootHint, events)[id])
      {
        OnTrackAfter(s, w, rootHint, rs, alone, e, id);
      }
    }
  }

  lemma HonestPrefix(s: Strategy, w: World, rootHint: Name, events: seq<Event>)
    requires events != [] && Honest(s, w, rootHint, events)
    ensures Honest(s, w, rootHint, events[..|events| - 1])
    ensures HonestEvent(w, HandleAll(s, rootHint, events[..|events| - 1]), events[|events| - 1])
  {
    hide HandleAll, Serve;
    var before := events[..|events| - 1];
    assert forall n | 0 <= n < |before| :: before[..n] == events[..n] && before[n] == events[n];
  }

  predicate HonestEvent(w: World, rs: ResolverState, e: Event) {
    e.DataFor? && e.at < |rs.pending| ==> Serve(w, rs.pending[e.at].st.lastInterest) == Just(e.re)
  }

  /** One event keeps every stub's run on its track. */
  lemma OnTrackAfter(s: Strategy, w: World, rootHint: Name, rs: ResolverState, alone: seq<Run>, e: Event, id: nat)
    requires Consistent(s, rs, alone) && HonestEvent(w, rs, e) && id < |Handle(s, rootHint, rs, e).stubs|
    requires forall i | 0 <= i < |rs.stubs| :: OnTrack(s, w, rootHint, rs.stubs[i], alone[i])
    ensures id < |AloneStep(s, rootHint, rs, alone, e)|
    ensures OnTrack(s, w, rootHint, Handle(s, rootHint, rs, e).stubs[id], AloneStep(s, rootHint, rs, alone, e)[id])
  {
    StubsKept(s, rootHint, rs, e);
    AloneStepLength(s, rootHint, rs, alone, e);
    hide Handle, Agrees, Serve, InterestOf, OnData;
    match e {
      case StubInterest(q) => assert After(s, w, q, rootHint, 0) == Start(rootHint);
      case TimeoutOf(at) =>
        if at < |rs.pending| {
          WaitingRun(s, rs, alone, at);
        }
      case DataFor(at, re) =>
        if at < |rs.pending| {
          WaitingRun(s, rs, alone, at);
          OnTrackStep(s, w, rootHint, rs.pending[at].query, alone[rs.pending[at].stub], re);
        }
    }
  }

  /** However the resolutions interleave and whichever Interests time out, an answer given to a
      stub is the one the delegation walk yields for that stub's query. */
  lemma AnswersAreCorrect(s: Strategy, w: World, rootHint: Name, events: seq<Event>, a: StubAnswer)
    requires Honest(s, w, rootHint, events)
    requires a in HandleAll(s, rootHint, events).answers
    ensures Walk(s, w, a.query, 0) == Answer(a.response)
  {
    var rs, alone := HandleAll(s, rootHint, events), AllAlone(s, rootHint, events);
    Independent(s, rootHint, events);
    AllOnTrack(s, w, rootHint, events);
    assert Agrees(s, rs, a.stub, rs.stubs[a.stub], alone[a.stub]);
    assert Known(rs, a.stub);
    EndToEnd(s, w, a.query, rootHint, a.response);
  }

  // ----- Every stub is served ------------------------------------------------------------------

  /** Every reply is that of the static zones, and an Interest times out exactly where they keep
      silent. */
  predicate Exact(s: Strategy, w: World, rootHint: Name, events: seq<Event>) {
    forall n | 0 <= n < |events| :: ExactEvent(w, HandleAll(s, rootHint, events[..n]), events[n])
  }

  predicate ExactEvent(w: World, rs: ResolverState, e: Event) {
    match e
    case StubInterest(_) => true
    case DataFor(at, re) => at < |rs.pending| ==> Serve(w, rs.pending[at].st.lastInterest) == Just(re)
    case TimeoutOf(at) => at < |rs.pending| ==> Serve(w, rs.pending[at].st.lastInterest) == Nothing
  }

  /** After `k` deliveries the run is the resolution after `k` exchanges, and it was still running
      before the last of them. */
  predicate Tracked(s: Strategy, w: World, rootHint: Name, q: Query, r: Run, k: nat) {
    After(s, w, q, rootHint, k) == r && (k > 0 ==> After(s, w, q, rootHint, k - 1).status == Running)
  }

  lemma TrackedStep(s: Strategy, w: World, rootHint: Name, q: Query, r: Run, k: nat)
    requires Tracked(s, w, rootHint, q, r, k) && r.status == Running
    ensures Tracked(s, w, rootHint, q, Receive(s, q, Expressed(s, q, r.st), Serve(w, InterestOf(s, q, r.st))), k + 1)
  {
    IterateFurther(s, w, q, Start(rootHint), k, 1);
    assert Iterate(s, w, q, r, 1) == Step(s, w, q, r);
  }

  lemma ExactPrefix(s: Strategy, w: World, rootHint: Name, events: seq<Event>)
    requires events != [] && Exact(s, w, rootHint, events)
    ensures Exact(s, w, rootHint, events[..|events| - 1])
    ensures ExactEvent(w, HandleAll(s, rootHint, events[..|events| - 1]), events[|events| - 1])
  {
    hide HandleAll, ExactEvent;
    var before := events[..|events| - 1];
    assert forall n | 0 <= n < |before| :: before[..n] == events[..n] && before[n] == events[n];
  }

  /** The number of replies and timeouts that one stub's Interests have received. */
  function Delivered(s: Strategy, rootHint: Name, events: seq<Event>, id: nat): nat {
    |Project(s, rootHint, events, id)|
  }

  /** One event keeps a known stub's run on its track. */
  lemma TrackedAfter(s: Strategy, w: World, rootHint: Name, rs: ResolverState, alone: seq<Run>, e: Event, id: nat,
                     k: nat)
    requires Consistent(s, rs, alone) && ExactEvent(w, rs, e) && id < |rs.stubs|
    requires Tracked(s, w, rootHint, rs.stubs[id], alone[id], k)
    ensures id < |AloneStep(s, rootHint, rs, alone, e)|
    ensures Tracked(s, w, rootHint, rs.stubs[id], AloneStep(s, rootHint, rs, alone, e)[id], k + |ReplyTo(rs, e, id)|)
  {
    AloneStepLength(s, rootHint, rs, alone, e);
    var at := match e case StubInterest(_) => |rs.pending| case DataFor(i, _) => i case TimeoutOf(i) => i;
    hide Agrees, Serve, InterestOf, OnData, Tracked, Receive;
    if at < |rs.pending| {
      WaitingRun(s, rs, alone, at);
      if rs.pending[at].stub == id {
        TrackedStep(s, w, rootHint, rs.stubs[id], alone[id], k);
      }
    }
  }

  lemma {:induction false} StubTracked(s: Strategy, w: World, rootHint: Name, events: seq<Event>, id: nat)
    requires Exact(s, w, rootHint, events) && id < |HandleAll(s, rootHint, events).stubs|
    ensures Tracked(s, w, rootHint, HandleAll(s, rootHint, events).stubs[id], AllAlone(s, rootHint, events)[id],
                    Delivered(s, rootHint, events, id))
  {
    hide Consistent, Tracked, Exact, ExactEvent, Handle, Receive, AloneStep, ReplyTo;
    if events != [] {
      var before, e := events[..|events| - 1], events[|events| - 1];
      var rs, alone := HandleAll(s, rootHint, before), AllAlone(s, rootHint, before);
      ExactPrefix(s, w, rootHint, events);
      Independent(s, rootHint, before);
      AllAloneStep(s, rootHint, events);
      StubsKept(s, rootHint, rs, e);
      if id < |rs.stubs| {
        StubTracked(s, w, rootHint, before, id);
        TrackedAfter(s, w, rootHint, rs, alone, e, id, Delivered(s, rootHint, before, id));
      } else {
        NewStubTracked(s, w, rootHint, events, id);
      }
    }
  }

  lemma NewStubTracked(s: Strategy, w: World, rootHint: Name, events: seq<Event>, id: nat)
    requires events != [] && events[|events| - 1].StubInterest?
    requires id == |HandleAll(s, rootHint, events[..|events| - 1]).stubs|
    ensures id < |HandleAll(s, rootHint, events).stubs| && Delivered(s, rootHint, events, id) == 0
    ensures Tracked(s, w, rootHint, HandleAll(s, rootHint, events).stubs[id], AllAlone(s, rootHint, events)[id], 0)
  {
    NoRepliesYet(s, rootHint, events[..|events| - 1], id);
  }

  predicate Waiting(rs: ResolverState, id: nat) {
    exists p | p in rs.pending :: p.stub == id
  }

  predicate StubAnswered(rs: ResolverState, id: nat) {
    exists a | a in rs.answers :: a.stub == id
  }

  lemma AgreementShows(s: Strategy, rs: ResolverState, alone: seq<Run>, id: nat)
    requires Consistent(s, rs, alone) && id < |rs.stubs|
    ensures Waiting(rs, id) <==> alone[id].status == Running
    ensures StubAnswered(rs, id) <==> alone[id].status == Answered
    ensures alone[id].status == Answered
            ==> AnswerTo(id, rs.stubs[id], alone[id].st.lastResponse) in rs.answers
  {
    assert Agrees(s, rs, id, rs.stubs[id], alone[id]);
  }

  /** Whether a stub has been served as its walk says: while it waits it has had fewer replies and
      timeouts than the bound, unless the walk diverges. */
  predicate Served(s: Strategy, w: World, rootHint: Name, events: seq<Event>, id: nat)
    requires id < |HandleAll(s, rootHint, events).stubs|
  {
    var rs := HandleAll(s, rootHint, events);
    var q, k := rs.stubs[id], Delivered(s, rootHint, events, id);
    match Walk(s, w, q, 0)
    case Divergence => Waiting(rs, id)
    case Answer(re) =>
      k <= Bound(s, q) && (k == Bound(s, q) ==> !Waiting(rs, id))
      && (!Waiting(rs, id) ==> AnswerTo(id, q, re) in rs.answers)
    case Silence =>
      k <= Bound(s, q) && (k == Bound(s, q) ==> !Waiting(rs, id)) && !StubAnswered(rs, id)
  }

  /** What a tracked run has come to after `k` deliveries. */
  lemma TrackedOutcome(s: Strategy, w: World, rootHint: Name, q: Query, r: Run, k: nat)
    requires Tracked(s, w, rootHint, q, r, k)
    ensures match Walk(s, w, q, 0)
            case Divergence => r.status == Running
            case Answer(re) =>
              k <= Bound(s, q) && (k == Bound(s, q) ==> r.status != Running)
              && (r.status != Running ==> r.status == Answered && r.st.lastResponse == re)
            case Silence =>
              k <= Bound(s, q) && (k == Bound(s, q) ==> r.status != Running) && r.status != Answered
  {
    hide Walk, Iterate;
    EndToEnd(s, w, q, rootHint, r.st.lastResponse);
    if k > Bound(s, q) {
      RunMeetsWalk(s, w, q, rootHint, k - 1);
    }
    RunMeetsWalk(s, w, q, rootHint, if k < Bound(s, q) then Bound(s, q) else k);
    assert After(s, w, q, rootHint, k) == r;
  }

  /** Every stub is served: unless its walk diverges, it has had its outcome after at most the
      bound's number of replies and timeouts, and once it is no longer waiting it has been answered
      as the walk says or, where the walk meets silence, given up; where the walk diverges it waits
      for ever. */
  lemma EveryStubIsServed(s: Strategy, w: World, rootHint: Name, events: seq<Event>, id: nat)
    requires Exact(s, w, rootHint, events) && id < |HandleAll(s, rootHint, events).stubs|
    ensures Served(s, w, rootHint, events, id)
  {
    hide Walk, Tracked, HandleAll, Consistent, Waiting, StubAnswered, Project, Alone;
    var rs, alone := HandleAll(s, rootHint, events), AllAlone(s, rootHint, events);
    Independent(s, rootHint, events);
    assert |alone| == |rs.stubs|;
    StubTracked(s, w, rootHint, events, id);
    TrackedOutcome(s, w, rootHint, rs.stubs[id], alone[id], Delivered(s, rootHint, events, id));
    AgreementShows(s, rs, alone, id);
  }

  // ----- What stubs ask, and what they get -----------------------------------------------------

  /** The query that a readable name starts is the one that was printed. */
  lemma StubQueryRead(q: Query, suffix: Name)
    requires Wellformed(QUERY_NAMES, q, suffix) && Readable(QUERY_NAMES, q)
    ensures StubQuery(Printed(q, suffix)) == q
  {
    hide Match, Understood, Wellformed, Readable, Printed;
    RoundTripExactly(QUERY_NAMES, q, suffix);
  }

  /** A name that is no query's starts one for the empty name, to the root zone, of type NS. */
  lemma StubQueryUnread(name: Name)
    requires !Matchable(QUERY_NAMES, name)
    ensures StubQuery(name) == Query([], [], Dns, [], NS)
  {
    hide Match, Matchable;
    if name == [] {
      NoMatchOfRoot();
    } else {
      MatchedExactly(QUERY_NAMES, name);
    }
  }

  lemma NoMatchOfRoot()
    ensures Match(QUERY_NAMES, Uri([])) == Nothing
  {
    assert Uri([]) == "/" && "/"[1..] == "";
  }

  /** Stubs keep their numbers. */
  lemma {:induction false} StubsStay(s: Strategy, rootHint: Name, events: seq<Event>, k: nat)
    requires k <= |events|
    ensures HandleAll(s, rootHint, events[..k]).stubs <= HandleAll(s, rootHint, events).stubs
  {
    hide Handle;
    if k == |events| {
      assert events[..k] == events;
    } else {
      var before := events[..|events| - 1];
      StubsKept(s, rootHint, HandleAll(s, rootHint, before), events[|events| - 1]);
      StubsStay(s, rootHint, before, k);
      assert before[..k] == events[..k];
    }
  }

  /** The number and the query of the stub whose name arrives as the `k`-th event. */
  lemma StubNumbered(s: Strategy, rootHint: Name, events: seq<Event>, k: nat, name: Name) returns (id: nat)
    requires k < |events| && events[k] == StubInterest(StubQuery(name))
    ensures id == |HandleAll(s, rootHint, events[..k]).stubs|
    ensures id < |HandleAll(s, rootHint, events).stubs|
    ensures HandleAll(s, rootHint, events).stubs[id] == StubQuery(name)
  {
    hide Match, Understood, StubQuery;
    id := |HandleAll(s, rootHint, events[..k]).stubs|;
    assert events[..k + 1][..k] == events[..k];
    StubsKept(s, rootHint, HandleAll(s, rootHint, events[..k]), events[k]);
    StubsStay(s, rootHint, events, k + 1);
  }

  /** From the name that a stub sends to its answer: a readable query that arrives as the `k`-th
      event is served as the walk for that very query says, and whatever answer it gets, in
      whichever interleaving, carries that query and the walk's response. */
  lemma PrintedStubIsServed(s: Strategy, w: World, rootHint: Name, events: seq<Event>, k: nat, q: Query, suffix: Name)
    returns (id: nat)
    requires Wellformed(QUERY_NAMES, q, suffix) && Readable(QUERY_NAMES, q)
    requires k < |events| && events[k] == StubInterest(StubQuery(Printed(q, suffix)))
    ensures id == |HandleAll(s, rootHint, events[..k]).stubs| < |HandleAll(s, rootHint, events).stubs|
    ensures HandleAll(s, rootHint, events).stubs[id] == q
    ensures Exact(s, w, rootHint, events) ==> Served(s, w, rootHint, events, id)
    ensures Honest(s, w, rootHint, events)
            ==> forall a | a in HandleAll(s, rootHint, events).answers && a.stub == id ::
                  a.query == q && a.name == AnswerName(q) && Walk(s, w, q, 0) == Answer(a.response)
  {
    hide StubQuery, HandleAll, Walk, Honest, Exact, Served, Printed, Wellformed, Readable, AnswerName;
    StubQueryRead(q, suffix);
    id := StubNumbered(s, rootHint, events, k, Printed(q, suffix));
    if Exact(s, w, rootHint, events) {
      EveryStubIsServed(s, w, rootHint, events, id);
    }
    forall a | Honest(s, w, rootHint, events) && a in HandleAll(s, rootHint, events).answers && a.stub == id
      ensures a.query == q && a.name == AnswerName(q) && Walk(s, w, q, 0) == Answer(a.response)
    {
      AnswersAreCorrect(s, w, rootHint, events, a);
      AnswerIsOwn(s, rootHint, events, a);
    }
  }

  /** An answer carries its stub's query and is named after it. */
  lemma AnswerIsOwn(s: Strategy, rootHint: Name, events: seq<Event>, a: StubAnswer)
    requires a in HandleAll(s, rootHint, events).answers
    ensures a.stub < |HandleAll(s, rootHint, events).stubs|
    ensures a.query == HandleAll(s, rootHint, events).stubs[a.stub] && a.name == AnswerName(a.query)
  {
    hide HandleAll, Alone, Project, AnswerName;
    var rs, alone := HandleAll(s, rootHint, events), AllAlone(s, rootHint, events);
    Independent(s, rootHint, events);
    assert Agrees(s, rs, a.stub, rs.stubs[a.stub], alone[a.stub]);
    assert Known(rs, a.stub);
  }

  /** A name that is no query's is never answered: the walk for the empty name meets silence. */
  lemma UnreadStubIsUnanswered(s: Strategy, w: World, rootHint: Name, events: seq<Event>, k: nat, name: Name,
                               a: StubAnswer)
    requires k < |events| && events[k] == StubInterest(StubQuery(name)) && !Matchable(QUERY_NAMES, name)
    requires Honest(s, w, rootHint, events) && a in HandleAll(s, rootHint, events).answers
    ensures a.stub != |HandleAll(s, rootHint, events[..k]).stubs|
  {
    hide StubQuery, HandleAll, Honest, Matchable;
    StubQueryUnread(name);
    var id := StubNumbered(s, rootHint, events, k, name);
    AnswersAreCorrect(s, w, rootHint, events, a);
    AnswerIsOwn(s, rootHint, events, a);
  }

  /** Whether the Data sent back satisfies the Interest that the stub sent, whatever version is
      appended to its name: exactly when the stub's query carries no hint. */
  lemma AnswerSatisfiesExactly(q: Query, version: Component)
    requires IsComponent(q.queryType.ToString()) && IsComponent(q.rrtype.ToString())
    ensures Printed(q, []) <= AnswerName(q) + [version] <==> q.hint == []
  {
    hide QueryType.ToString, RRType.ToString;
    if q.hint == [] {
      assert Printed(q, []) == AnswerName(q);
    } else {
      assert |Printed(q, [])| == |AnswerName(q)| + |q.hint| + 1;
    }
  }

  // ----- Replies that no honest server sends ---------------------------------------------------

  /** A reply of unknown kind ends the resolution without an answer; an update's reply, or an Auth
      outside the search, makes the resolver ask the same again. */
  lemma UnexpectedReplies(s: Strategy, q: Query, st: QueryState, re: Response)
    requires st.step in {NSQuery, RRQuery, FHQuery} && (st.step == FHQuery ==> s == Hinted)
    ensures var next := OnData(s, q, st, re);
            (re.kind == UnknownResponse ==> StatusOf(next.step) == Aborted)
            && (re.kind in {UpdateOk, UpdateFail} || (re.kind == Auth && st.step != NSQuery)
                ==> StatusOf(next.step) == Running && InterestOf(s, q, next) == InterestOf(s, q, st))
  {
  }
}
