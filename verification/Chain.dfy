/** The chain of delegations behind every reachable state of a resolver. */
module Chain {
  import opened Enums
  import opened IterativeQuery
  import opened Like
  import opened Names
  import opened Protocol
  import opened Resolution

  /** How far the destination is resolved, and the forwarding hint to use there. */
  datatype Level = Level(finished: nat, hint: Name)

  /** The level below: the shortest delegation, and with hints the FH record of its server. */
  function NextLevel(s: Strategy, w: World, q: Query, at: Level): (below: Option<Level>)
    ensures below.Just? ==> at.finished < below.value.finished <= |q.rrLabel|
  {
    if at.finished > |q.rrLabel| || q.rrLabel[..at.finished] !in w then Nothing
    else
      var v, r := w[q.rrLabel[..at.finished]], q.rrLabel[at.finished..];
      match ShortestCut(v, r)
      case Nothing => Nothing
      case Just(m) =>
        if s == Plain then Just(Level(at.finished + m, []))
        else match HintOf(v, Records(v, r[..m], NS))
          case Nothing => Nothing
          case Just(hint) => Just(Level(at.finished + m, hint))
  }

  function LevelAt(s: Strategy, w: World, q: Query, rootHint: Name, i: nat): Option<Level> {
    if i == 0 then Just(Level(0, rootHint))
    else match LevelAt(s, w, q, rootHint, i - 1)
      case Nothing => Nothing
      case Just(above) => NextLevel(s, w, q, above)
  }

  /** The cuts of this state are the i-th level of the chain and the one above it. */
  predicate OnChain(s: Strategy, w: World, q: Query, rootHint: Name, st: QueryState, i: nat) {
    LevelAt(s, w, q, rootHint, i) == Just(Level(st.finished, st.hint))
    && LevelAt(s, w, q, rootHint, if i == 0 then 0 else i - 1) == Just(Level(st.lastFinished, st.lastHint))
  }

  /** What holds after every exchange, `i` delegations deep. */
  predicate Invariant(s: Strategy, w: World, q: Query, rootHint: Name, st: QueryState, i: nat) {
    st.lastFinished <= st.finished <= |q.rrLabel| && st.hintIndex == 0
    && OnChain(s, w, q, rootHint, st, i)
    && (st.step == NSQuery ==> Searching(w, q, st))
    && (st.step == FHQuery ==> s == Hinted && AtDelegation(w, q, st))
  }

  /** Following a delegation goes one level down the chain. */
  lemma ChainStep(s: Strategy, w: World, q: Query, rootHint: Name, st: QueryState, next: QueryState, i: nat)
    requires OnChain(s, w, q, rootHint, st, i)
    requires NextLevel(s, w, q, Level(st.finished, st.hint)) == Just(Level(next.finished, next.hint))
    requires next.lastFinished == st.finished && next.lastHint == st.hint
    ensures OnChain(s, w, q, rootHint, next, i + 1)
  {
  }

  lemma InvariantDelegation(s: Strategy, w: World, q: Query, rootHint: Name, r: Run, i: nat) returns (i': nat)
    requires s == Plain ==> rootHint == [] && r.st.hint == [] && r.st.lastHint == []
    requires Invariant(s, w, q, rootHint, r.st, i) && AtCut(w, q, r)
    ensures Invariant(s, w, q, rootHint, Step(s, w, q, r).st, i')
    ensures s == Plain ==> Step(s, w, q, r).st.hint == [] && Step(s, w, q, r).st.lastHint == []
  {
    if s == Plain {
      PlainDelegation(w, q, r);
      ChainStep(s, w, q, rootHint, r.st, Step(s, w, q, r).st, i);
      i' := i + 1;
    } else {
      HintedDelegation(w, q, r);
      i' := i;
    }
  }

  lemma InvariantHint(w: World, q: Query, rootHint: Name, r: Run, i: nat) returns (i': nat)
    requires Invariant(Hinted, w, q, rootHint, r.st, i) && r.status == Running && r.st.step == FHQuery
    ensures Invariant(Hinted, w, q, rootHint, Step(Hinted, w, q, r).st, i')
  {
    HintedExchange(w, q, r);
    var next := Step(Hinted, w, q, r);
    i' := i;
    if next.status == Running {
      ChainStep(Hinted, w, q, rootHint, r.st, next.st, i);
      i' := i + 1;
    }
  }

  lemma InvariantStep(s: Strategy, w: World, q: Query, rootHint: Name, r: Run, i: nat) returns (i': nat)
    requires s == Plain ==> rootHint == [] && r.st.hint == [] && r.st.lastHint == []
    requires Invariant(s, w, q, rootHint, r.st, i)
    ensures Invariant(s, w, q, rootHint, Step(s, w, q, r).st, i')
    ensures s == Plain ==> Step(s, w, q, r).st.hint == [] && Step(s, w, q, r).st.lastHint == []
  {
    hide Serve, LevelAt, ShortestCut, GetSubName, GetPrefix;
    i' := i;
    if r.status == Running {
      if r.st.step == NSQuery && AtCut(w, q, r) {
        i' := InvariantDelegation(s, w, q, rootHint, r, i);
      } else if r.st.step == NSQuery {
        InvariantSearchStep(s, w, q, r);
      } else if r.st.step == FHQuery {
        i' := InvariantHint(w, q, rootHint, r, i);
      }
    }
  }

  /** An exchange that does not reach a delegation goes on searching or leaves the search. */
  lemma InvariantSearchStep(s: Strategy, w: World, q: Query, r: Run)
    requires r.status == Running && Searching(w, q, r.st) && !AtCut(w, q, r)
    ensures var next := Step(s, w, q, r).st;
            next.finished == r.st.finished && next.lastFinished == r.st.lastFinished
            && next.hint == r.st.hint && next.lastHint == r.st.lastHint && next.hintIndex == 0
            && next.step != FHQuery && (next.step == NSQuery ==> Searching(w, q, next))
  {
    hide GetSubName, GetPrefix, HasAuth, Records, ShortestCut;
    SubNameOfRemaining(q, r.st);
    var zone, rest := q.rrLabel[..r.st.finished], Remaining(q, r.st);
    assert rest[..|rest|] == rest;
    if zone in w && rest != [] && r.st.rrLabelLen <= |rest| && Delegated(w[zone], rest[..r.st.rrLabelLen]) {
      ShortestCutUnique(w[zone], rest, r.st.rrLabelLen);
    }
  }

  /** Every reachable state satisfies the invariant. */
  lemma {:induction false} InvariantAlways(s: Strategy, w: World, q: Query, rootHint: Name, r: Run, i: nat, m: nat)
    returns (i': nat)
    requires s == Plain ==> rootHint == [] && r.st.hint == [] && r.st.lastHint == []
    requires Invariant(s, w, q, rootHint, r.st, i)
    ensures Invariant(s, w, q, rootHint, Iterate(s, w, q, r, m).st, i')
    decreases m
  {
    i' := i;
    if m > 0 {
      i' := InvariantStep(s, w, q, rootHint, r, i);
      i' := InvariantAlways(s, w, q, rootHint, Step(s, w, q, r), i', m - 1);
    }
  }

  /** No record list is indexed past its end: the NS answer kept for FHQuery has a record, and
      an honest answer of kind Resp has one too. */
  lemma SafeIndices(w: World, q: Query, st: QueryState, sent: Query)
    requires st.step == FHQuery ==> AtDelegation(w, q, st) && st.hintIndex == 0
    ensures CanSend(st)
    ensures Serve(w, sent).Just? ==> CanReceive(st, Serve(w, sent).value)
  {
  }

  /** What is asked lies inside the destination. */
  lemma InsideDestination(s: Strategy, q: Query, st: QueryState)
    requires st.finished <= |q.rrLabel|
    ensures var sent := InterestOf(s, q, st);
            (st.step == NSQuery ==> sent.zone + sent.rrLabel <= q.rrLabel)
            && (st.step == RRQuery ==> sent.zone + sent.rrLabel == q.rrLabel)
  {
    SubNameOfRemaining(q, st);
  }

  /** In every reachable state the counters are cuts of one chain of shortest delegations, the two
      hints are those of the last level and of the one above it, the NSQuery label lies inside the
      destination, the RRQuery asks for exactly the destination, and no record list is indexed
      past its end. */
  lemma ReachableState(s: Strategy, w: World, q: Query, rootHint: Name, m: nat) returns (i: nat)
    requires s == Plain ==> rootHint == []
    ensures var st := After(s, w, q, rootHint, m).st;
            var sent := InterestOf(s, q, st);
            Invariant(s, w, q, rootHint, st, i) && CanSend(st)
            && (Serve(w, sent).Just? ==> CanReceive(st, Serve(w, sent).value))
            && (st.step == NSQuery ==> sent.zone + sent.rrLabel <= q.rrLabel)
            && (st.step == RRQuery ==> sent.zone + sent.rrLabel == q.rrLabel)
  {
    var start := Start(rootHint);
    assert q.rrLabel[0..] == q.rrLabel;
    i := InvariantAlways(s, w, q, rootHint, start, 0, m);
    var st := After(s, w, q, rootHint, m).st;
    SafeIndices(w, q, st, InterestOf(s, q, st));
    InsideDestination(s, q, st);
  }

  /** The Interest of an asking step, when the resolver stands at this level: zone and hint are the
      level's; the label is cut from the destination behind the zone, or it is the name in the first
      record of the zone's shortest delegation. */
  predicate IsSentAt(w: World, q: Query, st: QueryState, sent: Query, at: Level) {
    at.finished <= |q.rrLabel| && sent.hint == at.hint && sent.zone == q.rrLabel[..at.finished] && sent.queryType == Dns
    && var rest := q.rrLabel[at.finished..];
       match st.step
       case NSQuery =>
         sent.rrtype == NS && sent.rrLabel == rest[..if st.rrLabelLen <= |rest| then st.rrLabelLen else |rest|]
       case RRQuery => sent.rrtype == q.rrtype && sent.rrLabel == rest
       case FHQuery =>
         sent.zone in w && ShortestCut(w[sent.zone], rest).Just?
         && var servers := Records(w[sent.zone], rest[..ShortestCut(w[sent.zone], rest).value], NS);
            servers != [] && sent.rrtype == FH && sent.rrLabel == ParseName(servers[0])
       case _ => true
  }

  /** Every Interest sent, in full: each zone is asked over its own level's hint, that is, over the
      FH record of the last delegation or the hint of the root zone; without hints, over none. */
  lemma SentAtLevel(s: Strategy, w: World, q: Query, rootHint: Name, m: nat) returns (i: nat)
    requires s == Plain ==> rootHint == []
    ensures var st := After(s, w, q, rootHint, m).st;
            st.step in {NSQuery, RRQuery, FHQuery}
            ==> LevelAt(s, w, q, rootHint, i).Just?
                && IsSentAt(w, q, st, InterestOf(s, q, st), LevelAt(s, w, q, rootHint, i).value)
                && (s == Plain ==> InterestOf(s, q, st).hint == [])
  {
    i := ReachableState(s, w, q, rootHint, m);
    var st := After(s, w, q, rootHint, m).st;
    hide Iterate, ShortestCut;
    SubNameOfRemaining(q, st);
    if s == Plain {
      PlainLevelHint(w, q, i);
    }
  }

  lemma PlainLevelHint(w: World, q: Query, i: nat)
    requires LevelAt(Plain, w, q, [], i).Just?
    ensures LevelAt(Plain, w, q, [], i).value.hint == []
  {
  }

  // ----- The last response understood ----------------------------------------------------------

  /** While searching below the root, the last response is the NS answer of the last cut; while
      asking for the records, it is the Nack that ended the search. */
  predicate LastUnderstood(w: World, q: Query, st: QueryState) {
    st.lastFinished <= st.finished <= |q.rrLabel|
    && (st.step == NSQuery && st.finished > 0
        ==> q.rrLabel[..st.lastFinished] in w
            && st.lastResponse
               == Response(Resp, Records(w[q.rrLabel[..st.lastFinished]], q.rrLabel[st.lastFinished..st.finished], NS)))
    && (st.step == RRQuery ==> st.lastResponse == Response(Nack, []))
  }

  lemma LastUnderstoodStep(s: Strategy, w: World, q: Query, rootHint: Name, r: Run, i: nat)
    requires Invariant(s, w, q, rootHint, r.st, i) && LastUnderstood(w, q, r.st)
    ensures LastUnderstood(w, q, Step(s, w, q, r).st)
  {
    hide LevelAt, HasAuth, GetSubName, GetPrefix;
    if r.status == Running && r.st.step == NSQuery && AtCut(w, q, r) {
      LastUnderstoodCut(s, w, q, r);
    } else if r.status == Running && r.st.step == NSQuery {
      LastUnderstoodSearch(s, w, q, r);
    } else if r.status == Running && r.st.step == FHQuery {
      HintedExchange(w, q, r);
      CutSlice(q, r.st);
    }
  }

  lemma CutSlice(q: Query, st: QueryState)
    requires st.finished <= |q.rrLabel| && st.rrLabelLen <= |Remaining(q, st)|
    ensures Remaining(q, st)[..st.rrLabelLen] == q.rrLabel[st.finished..st.finished + st.rrLabelLen]
  {
  }

  lemma LastUnderstoodCut(s: Strategy, w: World, q: Query, r: Run)
    requires AtCut(w, q, r) && LastUnderstood(w, q, r.st)
    ensures LastUnderstood(w, q, Step(s, w, q, r).st)
  {
    hide Step, ShortestCut, HasAuth;
    CutSlice(q, r.st);
    if s == Plain {
      PlainDelegation(w, q, r);
    } else {
      HintedDelegation(w, q, r);
    }
  }

  lemma LastUnderstoodSearch(s: Strategy, w: World, q: Query, r: Run)
    requires r.status == Running && Searching(w, q, r.st) && !AtCut(w, q, r) && LastUnderstood(w, q, r.st)
    ensures LastUnderstood(w, q, Step(s, w, q, r).st)
  {
    hide GetSubName, GetPrefix, HasAuth, Records, ShortestCut;
    SubNameOfRemaining(q, r.st);
    var zone, rest := q.rrLabel[..r.st.finished], Remaining(q, r.st);
    assert rest[..|rest|] == rest;
    if zone in w && rest != [] && r.st.rrLabelLen <= |rest| && Delegated(w[zone], rest[..r.st.rrLabelLen]) {
      ShortestCutUnique(w[zone], rest, r.st.rrLabelLen);
    }
  }

  /** In every reachable state the last response is what the search or the lookup has understood. */
  lemma {:induction false} LastResponseUnderstood(s: Strategy, w: World, q: Query, rootHint: Name, m: nat)
    requires s == Plain ==> rootHint == []
    ensures LastUnderstood(w, q, After(s, w, q, rootHint, m).st)
  {
    hide Invariant, Serve, OnData, InterestOf, LastUnderstood;
    if m == 0 {
      assert LastUnderstood(w, q, InitialState(rootHint)) by { NothingUnderstood(w, q, rootHint); }
    } else {
      LastResponseUnderstood(s, w, q, rootHint, m - 1);
      var r := After(s, w, q, rootHint, m - 1);
      IterateFurther(s, w, q, Start(rootHint), m - 1, 1);
      assert Iterate(s, w, q, r, 1) == Step(s, w, q, r);
      var i := ReachableState(s, w, q, rootHint, m - 1);
      LastUnderstoodStep(s, w, q, rootHint, r, i);
    }
  }

  lemma NothingUnderstood(w: World, q: Query, rootHint: Name)
    ensures LastUnderstood(w, q, InitialState(rootHint))
  {
  }

  /** Whether this level's zone keeps the resolver asking forever. */
  predicate StuckAt(w: World, q: Query, at: Level) {
    at.finished <= |q.rrLabel| && q.rrLabel[..at.finished] in w
    && Stuck(w[q.rrLabel[..at.finished]], q.rrLabel[at.finished..])
  }

  /** The walk may be started at any level of the chain that leaves something to resolve. */
  lemma {:induction false} WalkAlongChain(s: Strategy, w: World, q: Query, rootHint: Name, i: nat)
    requires LevelAt(s, w, q, rootHint, i).Just?
    requires LevelAt(s, w, q, rootHint, i).value.finished < |q.rrLabel|
    ensures Walk(s, w, q, 0) == Walk(s, w, q, LevelAt(s, w, q, rootHint, i).value.finished)
  {
    hide HasAuth, Records, HintOf;
    if i > 0 {
      WalkAlongChain(s, w, q, rootHint, i - 1);
    }
  }

  lemma {:induction false} DivergenceBelow(s: Strategy, w: World, q: Query, rootHint: Name, i: nat) returns (j: nat)
    requires LevelAt(s, w, q, rootHint, i).Just?
    requires LevelAt(s, w, q, rootHint, i).value.finished <= |q.rrLabel|
    requires Walk(s, w, q, LevelAt(s, w, q, rootHint, i).value.finished) == Divergence
    ensures LevelAt(s, w, q, rootHint, j).Just? && StuckAt(w, q, LevelAt(s, w, q, rootHint, j).value)
    decreases |q.rrLabel| - LevelAt(s, w, q, rootHint, i).value.finished
  {
    hide Records, HasAuth, HintOf;
    var at := LevelAt(s, w, q, rootHint, i).value;
    if StuckAt(w, q, at) {
      j := i;
    } else {
      assert LevelAt(s, w, q, rootHint, i + 1) == NextLevel(s, w, q, at);
      j := DivergenceBelow(s, w, q, rootHint, i + 1);
    }
  }

  predicate ChainStuck(s: Strategy, w: World, q: Query, rootHint: Name, i: nat) {
    LevelAt(s, w, q, rootHint, i).Just? && StuckAt(w, q, LevelAt(s, w, q, rootHint, i).value)
  }

  /** Exact termination: a resolution never ends if and only if the chain reaches a zone in which
      no prefix of the non-empty remaining label is delegated and the whole of it passes the Auth test
      against a delegated label. */
  lemma NeverEndsExactly(s: Strategy, w: World, q: Query, rootHint: Name)
    ensures (forall m: nat :: After(s, w, q, rootHint, m).status == Running)
            <==> exists i: nat :: ChainStuck(s, w, q, rootHint, i)
  {
    EndToEnd(s, w, q, rootHint, Response(Nack, []));
    if Walk(s, w, q, 0) == Divergence {
      var j := DivergenceBelow(s, w, q, rootHint, 0);
      assert ChainStuck(s, w, q, rootHint, j);
    }
    if i: nat :| ChainStuck(s, w, q, rootHint, i) {
      WalkAlongChain(s, w, q, rootHint, i);
    }
  }

  const ABOVE_CUT: World := map[[] := map[RecordKey(["a", "b"], NS) := ["/ns"]]]

  /** A concrete failure: where only `a/b` is delegated, a resolution of `a` never ends. */
  lemma NeverEndsAbove(s: Strategy, q: Query, rootHint: Name, m: nat)
    requires q.rrLabel == ["a"]
    ensures After(s, ABOVE_CUT, q, rootHint, m).status == Running
  {
    var v := ABOVE_CUT[[]];
    assert q.rrLabel[..0] == [] && q.rrLabel[0..] == ["a"] && ["a"][..1] == ["a"];
    assert ["a"] != ["a", "b"];
    HasAuthAbove(v, ["a"], ["a", "b"]);
    assert ChainStuck(s, ABOVE_CUT, q, rootHint, 0);
    NeverEndsExactly(s, ABOVE_CUT, q, rootHint);
  }

  const WILD_CUT: World := map[[] := map[RecordKey(["axc", "x"], NS) := ["/ns"], RecordKey(["a_c"], TXT) := ["t"]]]

  /** A concrete failure through a wildcard: no delegated label extends `a_c`, whose records the root
      zone itself holds, and still its resolution never ends. */
  lemma NeverEndsByWildcard(s: Strategy, q: Query, rootHint: Name, m: nat)
    requires q.rrLabel == ["a_c"]
    ensures !(["a_c"] < ["axc", "x"])
    ensures After(s, WILD_CUT, q, rootHint, m).status == Running
  {
    var v := WILD_CUT[[]];
    assert q.rrLabel[..0] == [] && q.rrLabel[0..] == ["a_c"] && ["a_c"][..1] == ["a_c"];
    assert ["a_c"] != ["axc", "x"];
    hide Extends;
    ExtendsIsLooser();
    assert RecordKey(["axc", "x"], NS) in v && HasAuth(v, ["a_c"], NS);
    assert ChainStuck(s, WILD_CUT, q, rootHint, 0);
    NeverEndsExactly(s, WILD_CUT, q, rootHint);
  }

  // ----- Never ending, where the Auth test is a prefix test ------------------------------------

  predicate LowerCuts(v: ZoneView) {
    forall k | k in v && k.rrtype == NS && v[k] != [] :: Lower(k.rrLabel)
  }

  /** The label is not delegated, nor is any prefix of it, but it is a strict prefix of a label that
      is. */
  predicate AboveCut(v: ZoneView, r: Name) {
    r != [] && ShortestCut(v, r).Nothing? && exists k | k in v :: k.rrtype == NS && v[k] != [] && r < k.rrLabel
  }

  /** For labels without wildcards and all in lower case, being stuck is lying above a delegation. */
  lemma StuckIsAboveCut(v: ZoneView, r: Name)
    requires Literal(r) && Lower(r) && LowerCuts(v)
    ensures Stuck(v, r) <==> AboveCut(v, r)
  {
    hide Extends, Literal, Lower, ShortestCut;
    forall k | r != [] && k in v && k.rrtype == NS && v[k] != []
      ensures Extends(r, k.rrLabel) <==> r < k.rrLabel
    {
      ExtendsIsStrictPrefix(r, k.rrLabel);
    }
  }

  predicate ChainAboveCut(s: Strategy, w: World, q: Query, rootHint: Name, i: nat) {
    LevelAt(s, w, q, rootHint, i).Just?
    && var k := LevelAt(s, w, q, rootHint, i).value.finished;
       k <= |q.rrLabel| && q.rrLabel[..k] in w && AboveCut(w[q.rrLabel[..k]], q.rrLabel[k..])
  }

  /** With such labels a resolution never ends if and only if the chain reaches a zone in which the
      remaining label lies undelegated above a delegated one. */
  lemma NeverEndsAboveExactly(s: Strategy, w: World, q: Query, rootHint: Name)
    requires Literal(q.rrLabel) && Lower(q.rrLabel) && forall z | z in w :: LowerCuts(w[z])
    ensures (forall m: nat :: After(s, w, q, rootHint, m).status == Running)
            <==> exists i: nat :: ChainAboveCut(s, w, q, rootHint, i)
  {
    hide Stuck, AboveCut, LowerCuts, LevelAt, Iterate;
    NeverEndsExactly(s, w, q, rootHint);
    forall i: nat
      ensures ChainStuck(s, w, q, rootHint, i) <==> ChainAboveCut(s, w, q, rootHint, i)
    {
      if LevelAt(s, w, q, rootHint, i).Just? {
        var k := LevelAt(s, w, q, rootHint, i).value.finished;
        if k <= |q.rrLabel| && q.rrLabel[..k] in w {
          assert forall c | c in q.rrLabel[k..] :: c in q.rrLabel;
          StuckIsAboveCut(w[q.rrLabel[..k]], q.rrLabel[k..]);
        }
      }
    }
  }
}
