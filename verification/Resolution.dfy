/** Whole resolutions against honest, static zones: correctness, termination and cost. */
module Resolution {
  import opened Enums
  import opened IterativeQuery
  import opened Names
  import opened Protocol

  datatype Status = Running | Answered | Aborted

  datatype Run = Run(st: QueryState, status: Status)

  function StatusOf(step: QueryStep): Status {
    match step
    case AnswerStub => Answered
    case Abort => Aborted
    case _ => Running
  }

  /** One exchange of the resolver: a reply moves the query on, a timeout ends it. */
  function Receive(s: Strategy, q: Query, st: QueryState, reply: Option<Response>): Run {
    match reply
    case Nothing => Run(st, Aborted)
    case Just(re) => var st' := OnData(s, q, st, re); Run(st', StatusOf(st'.step))
  }

  function Step(s: Strategy, w: World, q: Query, r: Run): Run {
    if r.status != Running then r
    else
      var i := InterestOf(s, q, r.st);
      Receive(s, q, r.st.(lastInterest := i), Serve(w, i))
  }

  function Iterate(s: Strategy, w: World, q: Query, r: Run, m: nat): Run
    decreases m
  {
    if m == 0 then r else Iterate(s, w, q, Step(s, w, q, r), m - 1)
  }

  function Start(rootHint: Name): Run {
    Run(InitialState(rootHint), Running)
  }

  datatype Sent = Sent(step: QueryStep, interest: Query)

  /** The Interests sent in the first `m` exchanges. */
  function Trace(s: Strategy, w: World, q: Query, r: Run, m: nat): seq<Sent>
    decreases m
  {
    if m == 0 || r.status != Running then []
    else [Sent(r.st.step, InterestOf(s, q, r.st))] + Trace(s, w, q, Step(s, w, q, r), m - 1)
  }

  // ----- The recursive delegation walk ---------------------------------------------------------

  datatype Outcome = Answer(re: Response) | Silence | Divergence

  /** The forwarding hint of the first name server in an NS answer, if its zone holds one. */
  function HintOf(v: ZoneView, nsRecords: seq<string>): Option<Name> {
    var server := ParseName(RecordAt(nsRecords, 0));
    if server == [] || Records(v, server, FH) == [] then Nothing
    else Just(ParseName(Records(v, server, FH)[0]))
  }

  /** No prefix of the zone's remaining label is delegated, and the whole of it passes the Auth test
      against a delegated label. */
  predicate Stuck(v: ZoneView, r: Name) {
    r != [] && ShortestCut(v, r).Nothing? && HasAuth(v, r, NS)
  }

  /** Follows the shortest delegation zone by zone, then looks up what is left. */
  function Walk(s: Strategy, w: World, q: Query, k: nat): Outcome
    requires k <= |q.rrLabel|
    decreases |q.rrLabel| - k
  {
    var zone, r := q.rrLabel[..k], q.rrLabel[k..];
    if zone !in w || r == [] then Silence
    else match ShortestCut(w[zone], r)
      case Just(m) =>
        var servers := Records(w[zone], r[..m], NS);
        if s == Plain && q.rrtype == NS && m == |r| then Answer(Response(Resp, servers))
        else if s == Hinted && HintOf(w[zone], servers).Nothing? then Silence
        else Walk(s, w, q, k + m)
      case Nothing =>
        if Stuck(w[zone], r) then Divergence
        else if q.rrtype == NS then Answer(Response(Nack, []))
        else Answer(Protocol.Answer(w[zone], r, q.rrtype))
  }

  /** The chain of shortest delegations from `k` on ends exactly at the destination. */
  predicate CutsReachEnd(w: World, q: Query, k: nat)
    requires k <= |q.rrLabel|
    decreases |q.rrLabel| - k
  {
    k == |q.rrLabel|
    || (q.rrLabel[..k] in w
        && match ShortestCut(w[q.rrLabel[..k]], q.rrLabel[k..])
           case Nothing => false
           case Just(m) => CutsReachEnd(w, q, k + m))
  }

  predicate Meets(r: Run, out: Outcome) {
    match out
    case Answer(re) => r.status == Answered && r.st.lastResponse == re
    case Silence => r.status == Aborted
    case Divergence => r.status == Running
  }

  // ----- One zone's search ---------------------------------------------------------------------

  function Remaining(q: Query, st: QueryState): Name
    requires st.finished <= |q.rrLabel|
  {
    q.rrLabel[st.finished..]
  }

  /** The Auth-driven search inside one zone: every shorter prefix is known to be undelegated. */
  predicate Searching(w: World, q: Query, st: QueryState) {
    st.step == NSQuery && st.finished <= |q.rrLabel| && st.rrLabelLen >= 1
    && st.hintIndex == 0 && st.authZoneIndex == 0
    && (Remaining(q, st) == [] ==> st.rrLabelLen == 1)
    && (q.rrLabel[..st.finished] in w
        ==> NoCutBelow(w[q.rrLabel[..st.finished]], Remaining(q, st), st.rrLabelLen))
  }

  /** Exchanges left when `finished + rrLabelLen` has reached `sum`. */
  function Budget(s: Strategy, q: Query, sum: nat): int {
    if s == Plain then |q.rrLabel| + 2 - sum else 2 * (|q.rrLabel| + 1 - sum) + 1
  }

  lemma {:induction false} Ended(s: Strategy, w: World, q: Query, r: Run, m: nat)
    requires r.status != Running
    ensures Iterate(s, w, q, r, m) == r && Trace(s, w, q, r, m) == []
  {
    if m > 0 {
      Ended(s, w, q, r, m - 1);
    }
  }

  /** In a stuck zone the resolver only ever gets Auth and asks again. */
  lemma {:induction false} StuckForever(s: Strategy, w: World, q: Query, r: Run, m: nat)
    requires r.status == Running && Searching(w, q, r.st)
    requires q.rrLabel[..r.st.finished] in w && Stuck(w[q.rrLabel[..r.st.finished]], Remaining(q, r.st))
    ensures Iterate(s, w, q, r, m).status == Running
    decreases m
  {
    if m > 0 {
      var v, rest := w[q.rrLabel[..r.st.finished]], Remaining(q, r.st);
      var rrLabel := GetSubName(q.rrLabel, r.st.finished, r.st.rrLabelLen);
      SubNameOfRemaining(q, r.st);
      HasAuthMonotone(v, rrLabel, rest, NS);
      StuckForever(s, w, q, Step(s, w, q, r), m - 1);
    }
  }

  /** The label asked for is a prefix of the remaining one; past its end it is the whole. */
  lemma SubNameOfRemaining(q: Query, st: QueryState)
    requires st.finished <= |q.rrLabel|
    ensures var rrLabel := GetSubName(q.rrLabel, st.finished, st.rrLabelLen);
            rrLabel == Remaining(q, st)[..if st.rrLabelLen <= |Remaining(q, st)| then st.rrLabelLen
                                          else |Remaining(q, st)|]
    ensures GetPrefix(q.rrLabel, st.finished) == q.rrLabel[..st.finished]
    ensures GetSubName(q.rrLabel, st.finished, |q.rrLabel|) == Remaining(q, st)
  {
  }

  /** From any point of a zone's search the run ends, within the budget, as the walk says. */
  lemma {:induction false} Search(s: Strategy, w: World, q: Query, r: Run, m: nat)
    requires r.status == Running && Searching(w, q, r.st)
    requires Remaining(q, r.st) == [] || r.st.rrLabelLen <= |Remaining(q, r.st)|
    requires m >= Budget(s, q, r.st.finished + r.st.rrLabelLen)
    ensures Meets(Iterate(s, w, q, r, m), Walk(s, w, q, r.st.finished))
    decreases |q.rrLabel| + 1 - (r.st.finished + r.st.rrLabelLen)
  {
    hide HasAuth, Records, GetSubName, GetPrefix, ShortestCut;
    var st := r.st;
    var zone, rest, j := q.rrLabel[..st.finished], Remaining(q, st), st.rrLabelLen;
    var next := Step(s, w, q, r);
    SubNameOfRemaining(q, st);
    assert rest[..|rest|] == rest;
    assert m > 0 && Iterate(s, w, q, r, m) == Iterate(s, w, q, next, m - 1);
    if zone !in w || rest == [] {
      Ended(s, w, q, next, m - 1);
    } else if Stuck(w[zone], rest) {
      StuckForever(s, w, q, r, m);
    } else if Delegated(w[zone], rest[..j]) {
      ShortestCutUnique(w[zone], rest, j);
      Descend(s, w, q, r, m);
    } else if HasAuth(w[zone], rest[..j], NS) {
      assert j < |rest|;
      Search(s, w, q, next, m - 1);
    } else {
      SearchFails(s, w, q, r, m);
    }
  }

  /** After a Nack for an undelegated prefix the rest is looked up in this zone. */
  lemma SearchFails(s: Strategy, w: World, q: Query, r: Run, m: nat)
    requires r.status == Running && Searching(w, q, r.st) && q.rrLabel[..r.st.finished] in w
    requires r.st.rrLabelLen <= |Remaining(q, r.st)|
    requires var v, asked := w[q.rrLabel[..r.st.finished]], Remaining(q, r.st)[..r.st.rrLabelLen];
             !Delegated(v, asked) && !HasAuth(v, asked, NS) && !Stuck(v, Remaining(q, r.st))
    requires m >= Budget(s, q, r.st.finished + r.st.rrLabelLen)
    ensures Meets(Iterate(s, w, q, r, m), Walk(s, w, q, r.st.finished))
  {
    hide HasAuth, Records, GetSubName, GetPrefix, ShortestCut;
    var next := Step(s, w, q, r);
    SubNameOfRemaining(q, r.st);
    NoCutPastNack(w[q.rrLabel[..r.st.finished]], Remaining(q, r.st), r.st.rrLabelLen);
    assert m > 0 && Iterate(s, w, q, r, m) == Iterate(s, w, q, next, m - 1);
    if q.rrtype == NS {
      Ended(s, w, q, next, m - 1);
    } else {
      SubNameOfRemaining(q, next.st);
      Ended(s, w, q, Step(s, w, q, next), m - 2);
    }
  }

  /** A Nack for a prefix means that nothing below it is delegated either. */
  lemma NoCutPastNack(v: ZoneView, r: Name, j: nat)
    requires 1 <= j <= |r| && NoCutBelow(v, r, j)
    requires !Delegated(v, r[..j]) && !HasAuth(v, r[..j], NS)
    ensures ShortestCut(v, r).Nothing?
  {
    var cut := ShortestCut(v, r);
    if cut.Just? && cut.value > j {
      HasAuthAbove(v, r[..j], r[..cut.value]);
    }
  }

  /** The search has reached the zone's shortest delegation. */
  predicate AtCut(w: World, q: Query, r: Run) {
    r.status == Running && Searching(w, q, r.st) && q.rrLabel[..r.st.finished] in w
    && ShortestCut(w[q.rrLabel[..r.st.finished]], Remaining(q, r.st)) == Just(r.st.rrLabelLen)
  }

  /** The NS records of the delegation just reached. */
  function ServersAt(w: World, q: Query, st: QueryState): seq<string>
    requires st.finished <= |q.rrLabel| && st.rrLabelLen <= |Remaining(q, st)|
    requires q.rrLabel[..st.finished] in w
  {
    Records(w[q.rrLabel[..st.finished]], Remaining(q, st)[..st.rrLabelLen], NS)
  }

  /** At FHQuery the last response is the NS answer of the zone's shortest delegation. */
  predicate AtDelegation(w: World, q: Query, st: QueryState) {
    st.finished <= |q.rrLabel| && st.authZoneIndex == 0 && q.rrLabel[..st.finished] in w
    && ShortestCut(w[q.rrLabel[..st.finished]], Remaining(q, st)) == Just(st.rrLabelLen)
    && st.lastResponse == Response(Resp, ServersAt(w, q, st))
  }

  /** With a plain query, one exchange follows the delegation. */
  lemma PlainDelegation(w: World, q: Query, r: Run)
    requires AtCut(w, q, r)
    ensures Step(Plain, w, q, r).st ==
            r.st.(lastInterest := PlainInterest(q, r.st), lastResponse := Response(Resp, ServersAt(w, q, r.st)),
                  lastFinished := r.st.finished, finished := r.st.finished + r.st.rrLabelLen,
                  rrLabelLen := 1, authZoneIndex := 0,
                  step := if q.rrtype == NS && r.st.rrLabelLen == |Remaining(q, r.st)| then AnswerStub else NSQuery)
    ensures Step(Plain, w, q, r).status == StatusOf(Step(Plain, w, q, r).st.step)
  {
    SubNameOfRemaining(q, r.st);
  }

  /** With forwarding hints, the NS answer is kept and the hint is asked for. */
  lemma HintedDelegation(w: World, q: Query, r: Run)
    requires AtCut(w, q, r)
    ensures Step(Hinted, w, q, r) ==
            Run(r.st.(lastInterest := HintedInterest(q, r.st), step := FHQuery,
                      lastResponse := Response(Resp, ServersAt(w, q, r.st))), Running)
    ensures AtDelegation(w, q, Step(Hinted, w, q, r).st)
  {
    SubNameOfRemaining(q, r.st);
  }

  /** The hint exchange then either follows the delegation or gives up. */
  lemma HintedExchange(w: World, q: Query, r: Run)
    requires r.status == Running && r.st.step == FHQuery && r.st.hintIndex == 0 && AtDelegation(w, q, r.st)
    ensures var hint := HintOf(w[q.rrLabel[..r.st.finished]], ServersAt(w, q, r.st));
            var next := Step(Hinted, w, q, r);
            if hint.Nothing? then next.status == Aborted && next.st.finished == r.st.finished
                                  && next.st.lastFinished == r.st.lastFinished && next.st.hintIndex == 0
                                  && next.st.hint == r.st.hint && next.st.lastHint == r.st.lastHint
                                  && (next.st.step == Abort
                                      || next.st == r.st.(lastInterest := HintedInterest(q, r.st)))
            else next == Run(r.st.(lastInterest := HintedInterest(q, r.st), step := NSQuery,
                                   lastFinished := r.st.finished, finished := r.st.finished + r.st.rrLabelLen,
                                   lastHint := r.st.hint, hint := hint.value, rrLabelLen := 1), Running)
  {
    SubNameOfRemaining(q, r.st);
  }

  /** Inside one zone the search asks for longer and longer prefixes, gets Auth for each, and
      stands before the shortest delegated one after exactly as many exchanges. */
  lemma {:induction false} SearchReachesCut(s: Strategy, w: World, q: Query, r: Run, m: nat)
    requires r.status == Running && Searching(w, q, r.st) && q.rrLabel[..r.st.finished] in w
    requires ShortestCut(w[q.rrLabel[..r.st.finished]], Remaining(q, r.st)) == Just(m)
    ensures r.st.rrLabelLen <= m
    ensures var at := Iterate(s, w, q, r, m - r.st.rrLabelLen);
            AtCut(w, q, at) && at.st == r.st.(rrLabelLen := m, lastInterest := at.st.lastInterest)
    decreases m - r.st.rrLabelLen
  {
    hide HasAuth, GetSubName, GetPrefix;
    var v, rest, j := w[q.rrLabel[..r.st.finished]], Remaining(q, r.st), r.st.rrLabelLen;
    SubNameOfRemaining(q, r.st);
    assert Delegated(v, rest[..m]);
    if j < m {
      HasAuthAbove(v, rest[..j], rest[..m]);
      SearchReachesCut(s, w, q, Step(s, w, q, r), m);
    }
  }

  /** Following a delegation: one exchange, or two with the hint looked up in between. */
  lemma Descend(s: Strategy, w: World, q: Query, r: Run, m: nat)
    requires AtCut(w, q, r)
    requires m >= Budget(s, q, r.st.finished + r.st.rrLabelLen)
    ensures Meets(Iterate(s, w, q, r, m), Walk(s, w, q, r.st.finished))
    decreases |q.rrLabel| + 1 - (r.st.finished + r.st.rrLabelLen), 0
  {
    hide Serve, InterestOf, OnData, HasAuth;
    var next := Step(s, w, q, r);
    if s == Plain {
      PlainDelegation(w, q, r);
      if next.status == Answered {
        Ended(s, w, q, next, m - 1);
      } else {
        Search(s, w, q, next, m - 1);
      }
    } else {
      HintedDelegation(w, q, r);
      HintedExchange(w, q, next);
      var after := Step(s, w, q, next);
      assert Iterate(s, w, q, r, m) == Iterate(s, w, q, after, m - 2);
      if after.status == Aborted {
        Ended(s, w, q, after, m - 2);
      } else {
        Search(s, w, q, after, m - 2);
      }
    }
  }

  // ----- Correctness, termination and cost -----------------------------------------------------

  /** The exchanges that suffice, for a destination of n components: n + 1, or 2n + 1 with hints. */
  function Bound(s: Strategy, q: Query): nat {
    if s == Plain then |q.rrLabel| + 1 else 2 * |q.rrLabel| + 1
  }

  lemma RunMeetsWalk(s: Strategy, w: World, q: Query, rootHint: Name, m: nat)
    requires m >= Bound(s, q)
    ensures Meets(Iterate(s, w, q, Start(rootHint), m), Walk(s, w, q, 0))
  {
    assert q.rrLabel[0..] == q.rrLabel;
    Search(s, w, q, Start(rootHint), m);
  }

  lemma {:induction false} IterateFurther(s: Strategy, w: World, q: Query, r: Run, m: nat, more: nat)
    ensures Iterate(s, w, q, r, m + more) == Iterate(s, w, q, Iterate(s, w, q, r, m), more)
    decreases m
  {
    if m > 0 {
      IterateFurther(s, w, q, Step(s, w, q, r), m - 1, more);
    }
  }

  /** A run that has ended stays as it is, and sends nothing more. */
  lemma {:induction false} EndIsFinal(s: Strategy, w: World, q: Query, r: Run, m: nat, later: nat)
    requires m <= later && Iterate(s, w, q, r, m).status != Running
    ensures Iterate(s, w, q, r, later) == Iterate(s, w, q, r, m)
    ensures Trace(s, w, q, r, later) == Trace(s, w, q, r, m)
    decreases m
  {
    if r.status != Running || m == 0 {
      Ended(s, w, q, r, m);
      Ended(s, w, q, r, later);
    } else {
      EndIsFinal(s, w, q, Step(s, w, q, r), m - 1, later - 1);
    }
  }

  lemma {:induction false} TraceLength(s: Strategy, w: World, q: Query, r: Run, m: nat)
    ensures |Trace(s, w, q, r, m)| <= m
    decreases m
  {
    if m > 0 && r.status == Running {
      TraceLength(s, w, q, Step(s, w, q, r), m - 1);
    }
  }

  /** The resolution of `q` after `m` exchanges. */
  function After(s: Strategy, w: World, q: Query, rootHint: Name, m: nat): Run {
    Iterate(s, w, q, Start(rootHint), m)
  }

  predicate AnsweredWith(r: Run, re: Response) {
    r.status == Answered && r.st.lastResponse == re
  }

  lemma EndedIsAtBound(s: Strategy, w: World, q: Query, rootHint: Name, m: nat)
    requires After(s, w, q, rootHint, m).status != Running
    ensures After(s, w, q, rootHint, m) == After(s, w, q, rootHint, Bound(s, q))
  {
    if m <= Bound(s, q) {
      EndIsFinal(s, w, q, Start(rootHint), m, Bound(s, q));
    } else {
      RunMeetsWalk(s, w, q, rootHint, m);
      RunMeetsWalk(s, w, q, rootHint, Bound(s, q));
      EndIsFinal(s, w, q, Start(rootHint), Bound(s, q), m);
    }
  }

  /** End-to-end correctness of both strategies: a run answers the stub with a response exactly
      when the delegation walk yields that response, it is given up exactly when the walk meets
      silence, and it never ends exactly when the walk diverges. */
  lemma EndToEnd(s: Strategy, w: World, q: Query, rootHint: Name, re: Response)
    ensures (exists m: nat :: AnsweredWith(After(s, w, q, rootHint, m), re))
            <==> Walk(s, w, q, 0) == Answer(re)
    ensures (exists m: nat :: After(s, w, q, rootHint, m).status == Aborted)
            <==> Walk(s, w, q, 0) == Silence
    ensures (forall m: nat :: After(s, w, q, rootHint, m).status == Running)
            <==> Walk(s, w, q, 0) == Divergence
  {
    var last := After(s, w, q, rootHint, Bound(s, q));
    RunMeetsWalk(s, w, q, rootHint, Bound(s, q));
    forall m: nat | After(s, w, q, rootHint, m).status != Running
      ensures After(s, w, q, rootHint, m) == last
    {
      EndedIsAtBound(s, w, q, rootHint, m);
    }
  }

  /** A run that ends sends at most n + 1 Interests, or 2n + 1 with forwarding hints. */
  lemma Cost(s: Strategy, w: World, q: Query, rootHint: Name, m: nat)
    requires Walk(s, w, q, 0) != Divergence
    ensures |Trace(s, w, q, Start(rootHint), m)| <= Bound(s, q)
  {
    if m > Bound(s, q) {
      RunMeetsWalk(s, w, q, rootHint, Bound(s, q));
      EndIsFinal(s, w, q, Start(rootHint), Bound(s, q), m);
      TraceLength(s, w, q, Start(rootHint), Bound(s, q));
    } else {
      TraceLength(s, w, q, Start(rootHint), m);
    }
  }
}
