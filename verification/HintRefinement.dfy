/** A resolver with forwarding hints refines the plain one. */
module HintRefinement {
  import opened Enums
  import opened IterativeQuery
  import opened Names
  import opened Protocol
  import opened Resolution

  /** Every NS answer on the way names first a server whose FH records its zone holds. */
  predicate HintsComplete(w: World, q: Query, k: nat)
    requires k <= |q.rrLabel|
    decreases |q.rrLabel| - k
  {
    var zone, r := q.rrLabel[..k], q.rrLabel[k..];
    zone in w ==>
      match ShortestCut(w[zone], r)
      case Nothing => true
      case Just(m) => HintOf(w[zone], Records(w[zone], r[..m], NS)).Just? && HintsComplete(w, q, k + m)
  }

  /** An NS query for a fully delegated name, whose answer the hint exchange overlooks. */
  predicate AnsweredByDelegation(w: World, q: Query, k: nat)
    requires k <= |q.rrLabel|
  {
    q.rrtype == NS && k < |q.rrLabel| && CutsReachEnd(w, q, k)
  }

  /** The outcome with hints, exactly: that of the plain resolver when every hint exists and it is
      not an NS query for a fully delegated name, and silence otherwise. */
  lemma {:induction false} HintedOutcome(w: World, q: Query, k: nat)
    requires k <= |q.rrLabel|
    ensures Walk(Hinted, w, q, k)
            == if HintsComplete(w, q, k) && !AnsweredByDelegation(w, q, k) then Walk(Plain, w, q, k) else Silence
    decreases |q.rrLabel| - k
  {
    hide HasAuth, Records;
    var zone, r := q.rrLabel[..k], q.rrLabel[k..];
    if zone in w && r != [] {
      match ShortestCut(w[zone], r) {
        case Nothing =>
        case Just(m) =>
          HintedOutcome(w, q, k + m);
          assert CutsReachEnd(w, q, k) <==> CutsReachEnd(w, q, k + m);
      }
    }
  }

  /** Such a query is the one kind that the plain resolver answers with NS records. */
  lemma {:induction false} DelegationAnswers(w: World, q: Query, k: nat)
    requires k <= |q.rrLabel| && q.rrtype == NS
    ensures AnsweredByDelegation(w, q, k)
            <==> Walk(Plain, w, q, k).Answer? && Walk(Plain, w, q, k).re.kind == Resp
    decreases |q.rrLabel| - k
  {
    hide HasAuth, Records;
    var zone, r := q.rrLabel[..k], q.rrLabel[k..];
    if zone in w && r != [] {
      match ShortestCut(w[zone], r) {
        case Nothing =>
        case Just(m) =>
          DelegationAnswers(w, q, k + m);
          assert CutsReachEnd(w, q, k) <==> CutsReachEnd(w, q, k + m);
      }
    }
  }

  const DELEGATED: World := map[[] := map[RecordKey(["a"], NS) := ["/ns"], RecordKey(["ns"], FH) := ["/h"]],
                                ["a"] := map[]]

  /** A concrete failure: the NS query for the delegated name `a` is answered with its servers by
      the plain resolver and given up with hints, although the hint exists. */
  lemma HintedLeavesUnanswered(rootHint: Name)
    ensures var q := Query([], [], Dns, ["a"], NS);
            AnsweredWith(After(Plain, DELEGATED, q, [], 2), Response(Resp, ["/ns"]))
            && HintsComplete(DELEGATED, q, 0)
            && After(Hinted, DELEGATED, q, rootHint, 3).status == Aborted
  {
    var q, v := Query([], [], Dns, ["a"], NS), DELEGATED[[]];
    assert q.rrLabel[..0] == [] && q.rrLabel[0..] == ["a"] && ["a"][..1] == ["a"] && q.rrLabel[1..] == [];
    ShortestCutUnique(v, ["a"], 1);
    assert HintOf(v, ["/ns"]) == Just(["h"]) by {
      ParseOne("ns");
      ParseOne("h");
    }
    hide HintOf, ShortestCut, Iterate;
    HintedOutcome(DELEGATED, q, 0);
    RunMeetsWalk(Plain, DELEGATED, q, [], 2);
    RunMeetsWalk(Hinted, DELEGATED, q, rootHint, 3);
  }

  function Unhinted(st: QueryState): QueryState {
    st.(hint := [], lastHint := [], hintIndex := 0, lastInterest := NO_INTEREST)
  }

  /** The two runs agree on everything but hints. */
  predicate Matched(p: Run, f: Run) {
    p.status == f.status && Unhinted(p.st) == Unhinted(f.st) && f.st.hintIndex == 0
  }

  /** A trace without its FHQuery exchanges and without the hints inside the Interests. */
  function Erase(sent: seq<Sent>): seq<Sent> {
    if sent == [] then []
    else if sent[0].step == FHQuery then Erase(sent[1..])
    else [Sent(sent[0].step, sent[0].interest.(hint := []))] + Erase(sent[1..])
  }

  /** What the plain run keeps while it is compared. */
  predicate Comparable(w: World, q: Query, p: Run) {
    p.status == Running ==>
      p.st.finished <= |q.rrLabel|
      && (p.st.step == RRQuery || (p.st.step == NSQuery && Searching(w, q, p.st) && HintsComplete(w, q, p.st.finished)))
  }

  /** One plain exchange is one hinted exchange, or two when it follows a delegation. */
  lemma MatchedStep(w: World, q: Query, p: Run, f: Run) returns (m: nat)
    requires q.rrtype != NS && Matched(p, f) && Comparable(w, q, p) && p.status == Running
    ensures 1 <= m <= 2
    ensures Matched(Step(Plain, w, q, p), Iterate(Hinted, w, q, f, m))
    ensures Comparable(w, q, Step(Plain, w, q, p))
    ensures Sent(p.st.step, InterestOf(Plain, q, p.st))
            == Sent(f.st.step, InterestOf(Hinted, q, f.st).(hint := []))
    ensures m == 2 ==> Step(Hinted, w, q, f).status == Running && Step(Hinted, w, q, f).st.step == FHQuery
  {
    if AtCut(w, q, p) {
      m := 2;
      MatchedDelegation(w, q, p, f);
    } else {
      m := 1;
      MatchedElsewhere(w, q, p, f);
    }
    hide Step, Serve, InterestOf, OnData, Comparable, Matched;
    assert Iterate(Hinted, w, q, f, 1) == Step(Hinted, w, q, f);
    assert Iterate(Hinted, w, q, f, 2) == Step(Hinted, w, q, Step(Hinted, w, q, f));
    SameInterest(w, q, p, f);
  }

  /** Both strategies ask the same, but for the hint. */
  lemma SameInterest(w: World, q: Query, p: Run, f: Run)
    requires Matched(p, f) && Comparable(w, q, p) && p.status == Running
    ensures Sent(p.st.step, InterestOf(Plain, q, p.st))
            == Sent(f.st.step, InterestOf(Hinted, q, f.st).(hint := []))
  {
    hide Searching, HintsComplete;
  }

  lemma MatchedDelegation(w: World, q: Query, p: Run, f: Run)
    requires q.rrtype != NS && Matched(p, f) && Comparable(w, q, p) && AtCut(w, q, p)
    ensures var asked := Step(Hinted, w, q, f);
            asked.status == Running && asked.st.step == FHQuery
            && Matched(Step(Plain, w, q, p), Step(Hinted, w, q, asked)) && Comparable(w, q, Step(Plain, w, q, p))
  {
    hide Step, HasAuth, ShortestCut, GetSubName, GetPrefix;
    PlainDelegation(w, q, p);
    HintedDelegation(w, q, f);
    HintedExchange(w, q, Step(Hinted, w, q, f));
  }

  lemma MatchedElsewhere(w: World, q: Query, p: Run, f: Run)
    requires q.rrtype != NS && Matched(p, f) && Comparable(w, q, p) && p.status == Running && !AtCut(w, q, p)
    ensures Matched(Step(Plain, w, q, p), Step(Hinted, w, q, f)) && Comparable(w, q, Step(Plain, w, q, p))
  {
    SameInterest(w, q, p, f);
    if p.st.step == NSQuery {
      NotACut(w, q, p);
    }
    hide Searching, HintsComplete, ShortestCut, HasAuth, GetSubName, GetPrefix;
  }

  /** Away from a cut, an NS query is not answered by records. */
  lemma NotACut(w: World, q: Query, p: Run)
    requires p.status == Running && Searching(w, q, p.st) && !AtCut(w, q, p)
    ensures var reply := Serve(w, PlainInterest(q, p.st));
            reply.Just? ==> reply.value.kind in {Auth, Nack}
    ensures Serve(w, PlainInterest(q, p.st)).Just? && Serve(w, PlainInterest(q, p.st)).value.kind == Auth
            ==> Searching(w, q, p.st.(rrLabelLen := p.st.rrLabelLen + 1))
  {
    SubNameOfRemaining(q, p.st);
    var zone, rest := q.rrLabel[..p.st.finished], Remaining(q, p.st);
    assert rest[..|rest|] == rest;
    if zone in w && rest != [] && p.st.rrLabelLen <= |rest| && Delegated(w[zone], rest[..p.st.rrLabelLen]) {
      ShortestCutUnique(w[zone], rest, p.st.rrLabelLen);
    }
  }

  lemma EraseStep(head: Sent, tail: seq<Sent>)
    ensures Erase([head] + tail)
            == (if head.step == FHQuery then [] else [Sent(head.step, head.interest.(hint := []))]) + Erase(tail)
  {
    assert ([head] + tail)[1..] == tail;
  }

  /** Refinement for every type but NS: for every number of plain exchanges there is a number of
      hinted ones after which the runs agree, and deleting the FHQuery exchanges from the hinted
      trace leaves exactly the plain trace. */
  lemma {:induction false} Refines(w: World, q: Query, p: Run, f: Run, n: nat) returns (m: nat)
    requires q.rrtype != NS && Matched(p, f) && Comparable(w, q, p)
    ensures n <= m <= 2 * n
    ensures Matched(Iterate(Plain, w, q, p, n), Iterate(Hinted, w, q, f, m))
    ensures Erase(Trace(Hinted, w, q, f, m)) == Trace(Plain, w, q, p, n)
    decreases n
  {
    hide Searching, HintsComplete, OnData, InterestOf, Serve;
    if n == 0 || p.status != Running {
      m := n;
      Ended'(w, q, p, f, n);
    } else {
      var steps := MatchedStep(w, q, p, f);
      var rest := Refines(w, q, Step(Plain, w, q, p), Iterate(Hinted, w, q, f, steps), n - 1);
      m := steps + rest;
      IterateFurther(Hinted, w, q, f, steps, rest);
      var next := Step(Hinted, w, q, f);
      var first := Sent(f.st.step, InterestOf(Hinted, q, f.st));
      EraseStep(first, Trace(Hinted, w, q, next, m - 1));
      if steps == 2 {
        var second := Sent(FHQuery, InterestOf(Hinted, q, next.st));
        assert Iterate(Hinted, w, q, f, 2) == Step(Hinted, w, q, next);
        EraseStep(second, Trace(Hinted, w, q, Step(Hinted, w, q, next), rest));
      } else {
        assert Iterate(Hinted, w, q, f, 1) == next;
      }
    }
  }

  lemma Ended'(w: World, q: Query, p: Run, f: Run, n: nat)
    requires n == 0 || (p.status != Running && f.status != Running)
    ensures Iterate(Plain, w, q, p, n) == p && Iterate(Hinted, w, q, f, n) == f
    ensures Trace(Plain, w, q, p, n) == [] == Trace(Hinted, w, q, f, n)
  {
    if n > 0 {
      Ended(Plain, w, q, p, n);
      Ended(Hinted, w, q, f, n);
    }
  }

  /** The refinement from the start of a resolution. */
  lemma HintedRefinesPlain(w: World, q: Query, rootHint: Name, n: nat) returns (m: nat)
    requires q.rrtype != NS && HintsComplete(w, q, 0)
    ensures n <= m <= 2 * n
    ensures Matched(After(Plain, w, q, [], n), After(Hinted, w, q, rootHint, m))
    ensures Erase(Trace(Hinted, w, q, Start(rootHint), m)) == Trace(Plain, w, q, Start([]), n)
  {
    assert q.rrLabel[0..] == q.rrLabel;
    m := Refines(w, q, Start([]), Start(rootHint), n);
  }
}
