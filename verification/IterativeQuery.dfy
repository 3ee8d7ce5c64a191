/** The two resolver strategies: what a query remembers, the Interest it sends next, and how
    a response moves it on. */
module IterativeQuery {
  import opened Enums
  import opened Names
  import opened Protocol

  datatype QueryState = QueryState(
    step: QueryStep, finished: nat, lastFinished: nat, rrLabelLen: nat,
    lastResponse: Response, authZoneIndex: nat, lastInterest: Query,
    hint: Name, lastHint: Name, hintIndex: nat)

  const NO_INTEREST := Query([], [], Dns, [], NS)

  /** A new query; a plain resolver carries the empty hint. */
  function InitialState(rootHint: Name): QueryState {
    QueryState(NSQuery, 0, 0, 1, Response(Resp, []), 0, NO_INTEREST, rootHint, rootHint, 0)
  }

  function RecordAt(rrs: seq<string>, i: nat): string {
    if i < |rrs| then rrs[i] else ""
  }

  /** The Interest a plain resolver sends in this state. */
  function PlainInterest(q: Query, st: QueryState): Query {
    Query([], GetPrefix(q.rrLabel, st.finished), Dns,
          GetSubName(q.rrLabel, st.finished, if st.step == RRQuery then |q.rrLabel| else st.rrLabelLen),
          if st.step == RRQuery || st.step == AnswerStub then q.rrtype else NS)
  }

  /** The state of a plain resolver after a response. */
  function PlainOnData(q: Query, st: QueryState, re: Response): QueryState {
    match re.kind
    case UnknownResponse => st.(step := Abort)
    case Nack =>
      st.(lastResponse := re,
          step := if st.step == NSQuery then (if q.rrtype == NS then AnswerStub else RRQuery)
                  else if st.step == RRQuery then AnswerStub
                  else st.step)
    case Auth => st.(rrLabelLen := st.rrLabelLen + 1)
    case Resp =>
      if st.step == NSQuery then
        var st' := st.(lastFinished := st.finished, finished := st.finished + st.rrLabelLen,
                       rrLabelLen := 1, authZoneIndex := 0, lastResponse := re);
        if q.rrtype == NS && st'.finished == |q.rrLabel| then st'.(step := AnswerStub) else st'
      else if st.step == RRQuery then st.(step := AnswerStub, lastResponse := re)
      else st
    case _ => st
  }

  /** The Interest a resolver with forwarding hints sends in this state. */
  function HintedInterest(q: Query, st: QueryState): Query {
    var zone := GetPrefix(q.rrLabel, st.finished);
    match st.step
    case RRQuery => Query(st.hint, zone, Dns, GetSubName(q.rrLabel, st.finished, |q.rrLabel|), q.rrtype)
    case NSQuery => Query(st.hint, zone, Dns, GetSubName(q.rrLabel, st.finished, st.rrLabelLen), NS)
    case FHQuery =>
      Query(st.hint, zone, Dns, ParseName(RecordAt(st.lastResponse.rrs, st.authZoneIndex)), FH)
    case _ => st.lastInterest
  }

  /** The state of a resolver with forwarding hints after a response. */
  function HintedOnData(q: Query, st: QueryState, re: Response): QueryState {
    match re.kind
    case UnknownResponse => st.(step := Abort)
    case Nack =>
      st.(lastResponse := re,
          step := match st.step
                  case NSQuery => if q.rrtype == NS then AnswerStub else RRQuery
                  case RRQuery => AnswerStub
                  case FHQuery => Abort
                  case other => other)
    case Auth => st.(rrLabelLen := st.rrLabelLen + 1)
    case Resp =>
      (match st.step
       case NSQuery =>
         st.(lastResponse := re,
             step := if q.rrtype == NS && st.finished == |q.rrLabel| then AnswerStub else FHQuery)
       case FHQuery =>
         st.(step := NSQuery, lastFinished := st.finished, lastHint := st.hint,
             finished := st.finished + st.rrLabelLen, rrLabelLen := 1, authZoneIndex := 0,
             hint := ParseName(RecordAt(re.rrs, st.hintIndex)))
       case RRQuery => st.(step := AnswerStub, lastResponse := re)
       case _ => st)
    case _ => st
  }

  datatype Strategy = Plain | Hinted

  function InterestOf(s: Strategy, q: Query, st: QueryState): Query {
    if s == Plain then PlainInterest(q, st) else HintedInterest(q, st)
  }

  function OnData(s: Strategy, q: Query, st: QueryState, re: Response): QueryState {
    if s == Plain then PlainOnData(q, st, re) else HintedOnData(q, st, re)
  }

  /** What indexing a record list demands: a record at the index that is read. */
  predicate CanSend(st: QueryState) {
    st.step == FHQuery ==> st.authZoneIndex < |st.lastResponse.rrs|
  }

  predicate CanReceive(st: QueryState, re: Response) {
    st.step == FHQuery && re.kind == Resp ==> st.hintIndex < |re.rrs|
  }

  class IterativeQuery {
    const query: Query
    var step: QueryStep
    var finishedLabelNum: nat
    var lastFinishedLabelNum: nat
    var rrLabelLen: nat
    var lastResponse: Response
    var authZoneIndex: nat
    var lastInterest: Query

    function State(): QueryState
      reads this
    {
      QueryState(step, finishedLabelNum, lastFinishedLabelNum, rrLabelLen,
                 lastResponse, authZoneIndex, lastInterest, [], [], 0)
    }

    constructor (query: Query)
      ensures this.query == query && State() == InitialState([])
    {
      this.query := query;
      step := NSQuery;
      finishedLabelNum, lastFinishedLabelNum, rrLabelLen := 0, 0, 1;
      lastResponse, authZoneIndex, lastInterest := Response(Resp, []), 0, NO_INTEREST;
    }

    /** The by-value copy bound to a callback. */
    constructor Copy(query: Query, st: QueryState)
      ensures this.query == query && State() == st.(hint := [], lastHint := [], hintIndex := 0)
    {
      this.query := query;
      step := st.step;
      finishedLabelNum, lastFinishedLabelNum, rrLabelLen := st.finished, st.lastFinished, st.rrLabelLen;
      lastResponse, authZoneIndex, lastInterest := st.lastResponse, st.authZoneIndex, st.lastInterest;
    }

    method DoData(re: Response)
      modifies this
      ensures State() == PlainOnData(query, old(State()), re)
    {
      if re.kind == UnknownResponse {
        step := Abort;
        return;
      } else if re.kind == Nack {
        if step == NSQuery {
          if query.rrtype == NS {
            step := AnswerStub;
          } else {
            step := RRQuery;
          }
        } else if step == RRQuery {
          step := AnswerStub;
        }
        lastResponse := re;
      } else if re.kind == Auth {
        rrLabelLen := rrLabelLen + 1;
      } else if re.kind == Resp {
        if step == NSQuery {
          lastFinishedLabelNum := finishedLabelNum;
          finishedLabelNum := finishedLabelNum + rrLabelLen;
          rrLabelLen := 1;
          authZoneIndex := 0;
          lastResponse := re;
          if query.rrtype == NS && finishedLabelNum == |query.rrLabel| {
            step := AnswerStub;
          }
        } else if step == RRQuery {
          step := AnswerStub;
          lastResponse := re;
        }
      }
    }

    method ToLatestInterest() returns (i: Query)
      ensures i == PlainInterest(query, State())
    {
      var authZone := GetPrefix(query.rrLabel, finishedLabelNum);
      var rrLabel;
      if step == RRQuery {
        rrLabel := GetSubName(query.rrLabel, finishedLabelNum, |query.rrLabel|);
      } else {
        rrLabel := GetSubName(query.rrLabel, finishedLabelNum, rrLabelLen);
      }
      i := Query([], authZone, Dns, rrLabel, NS);
      if step == NSQuery {
        i := i.(rrtype := NS, queryType := Dns);
      } else if step == RRQuery {
        i := i.(rrtype := query.rrtype);
        if query.rrtype == IdCert {
          i := i.(queryType := Key);
          i := i.(queryType := Dns);
        } else {
          i := i.(queryType := Dns);
        }
      } else if step == AnswerStub {
        i := i.(rrtype := query.rrtype, queryType := Dns);
      }
    }
  }

  class IterativeQueryWithForwardingHint {
    const query: Query
    var step: QueryStep
    var finishedLabelNum: nat
    var lastFinishedLabelNum: nat
    var rrLabelLen: nat
    var lastResponse: Response
    var authZoneIndex: nat
    var lastInterest: Query
    var forwardingHint: Name
    var lastForwardingHint: Name
    var forwardingHintIndex: nat

    function State(): QueryState
      reads this
    {
      QueryState(step, finishedLabelNum, lastFinishedLabelNum, rrLabelLen, lastResponse, authZoneIndex,
                 lastInterest, forwardingHint, lastForwardingHint, forwardingHintIndex)
    }

    /** The resolver sets both hints to that of the root zone right after construction. */
    constructor (query: Query, rootHint: Name)
      ensures this.query == query && State() == InitialState(rootHint)
    {
      this.query := query;
      step := NSQuery;
      finishedLabelNum, lastFinishedLabelNum, rrLabelLen := 0, 0, 1;
      lastResponse, authZoneIndex, lastInterest := Response(Resp, []), 0, NO_INTEREST;
      forwardingHint, lastForwardingHint, forwardingHintIndex := rootHint, rootHint, 0;
    }

    constructor Copy(query: Query, st: QueryState)
      ensures this.query == query && State() == st
    {
      this.query := query;
      step := st.step;
      finishedLabelNum, lastFinishedLabelNum, rrLabelLen := st.finished, st.lastFinished, st.rrLabelLen;
      lastResponse, authZoneIndex, lastInterest := st.lastResponse, st.authZoneIndex, st.lastInterest;
      forwardingHint, lastForwardingHint, forwardingHintIndex := st.hint, st.lastHint, st.hintIndex;
    }

    method DoData(re: Response)
      requires CanReceive(State(), re)
      modifies this
      ensures State() == HintedOnData(query, old(State()), re)
    {
      if re.kind == UnknownResponse {
        step := Abort;
        return;
      } else if re.kind == Nack {
        if step == NSQuery {
          if query.rrtype == NS {
            step := AnswerStub;
          } else {
            step := RRQuery;
          }
        } else if step == RRQuery {
          step := AnswerStub;
        } else if step == FHQuery {
          step := Abort;
        }
        lastResponse := re;
      } else if re.kind == Auth {
        rrLabelLen := rrLabelLen + 1;
      } else if re.kind == Resp {
        if step == NSQuery {
          step := FHQuery;
          lastResponse := re;
          if query.rrtype == NS && finishedLabelNum == |query.rrLabel| {
            step := AnswerStub;
          }
        } else if step == FHQuery {
          step := NSQuery;
          lastFinishedLabelNum := finishedLabelNum;
          lastForwardingHint := forwardingHint;
          finishedLabelNum := finishedLabelNum + rrLabelLen;
          rrLabelLen := 1;
          authZoneIndex := 0;
          forwardingHint := ParseName(re.rrs[forwardingHintIndex]);
        } else if step == RRQuery {
          step := AnswerStub;
          lastResponse := re;
        }
      }
    }

    method ToLatestInterest() returns (i: Query)
      requires CanSend(State())
      ensures i == HintedInterest(query, State())
    {
      var authZone := GetPrefix(query.rrLabel, finishedLabelNum);
      i := NO_INTEREST;
      var rrLabel;
      if step == RRQuery {
        rrLabel := GetSubName(query.rrLabel, finishedLabelNum, |query.rrLabel|);
        i := i.(rrtype := query.rrtype);
        if query.rrtype == IdCert {
          i := i.(queryType := Key);
          i := i.(queryType := Dns);
        } else {
          i := i.(queryType := Dns);
        }
      } else if step == NSQuery {
        rrLabel := GetSubName(query.rrLabel, finishedLabelNum, rrLabelLen);
        i := i.(rrtype := NS, queryType := Dns);
      } else if step == FHQuery {
        rrLabel := ParseName(lastResponse.rrs[authZoneIndex]);
        i := i.(rrtype := FH, queryType := Dns);
      } else {
        return lastInterest;
      }
      i := i.(rrLabel := rrLabel, zone := authZone, hint := forwardingHint);
    }
  }
}
