/** Names of queries and updates: how they are printed, and when reading them back recovers
    what was printed. */
module QueryNames {
  import opened Enums
  import opened Grammar
  import opened Names
  import opened Protocol

  // ----- Printing and reading ------------------------------------------------------------------

  /** The components in front of the authority zone. */
  function HintPart(hint: Name): Name {
    if hint == [] then [] else hint + [MARKER]
  }

  /** hint, marker, zone, query type, label, record type, and `suffix` (a version, say). */
  function Printed(q: Query, suffix: Name): Name {
    HintPart(q.hint) + q.zone + [q.queryType.ToString()] + q.rrLabel + [q.rrtype.ToString()] + suffix
  }

  /** The query the captures give to an object that was `before`: without a captured hint the
      object keeps the hint it has. */
  function Understood(c: Captures, before: Query): Query {
    Query(if c.hint == "" then before.hint else ParseName(c.hint), ParseName(c.body.zone),
          ToQueryType(c.body.queryType), ParseName(c.body.rrLabel), ToRRType(c.body.rrtype))
  }

  const FRESH := Query([], [], Dns, [], NS)

  class QueryMessage {
    var forwardingHint: Name
    var authorityZone: Name
    var queryType: QueryType
    var rrLabel: Name
    var rrType: RRType

    function Value(): Query
      reads this
    {
      Query(forwardingHint, authorityZone, queryType, rrLabel, rrType)
    }

    constructor (q: Query)
      ensures Value() == q
    {
      forwardingHint, authorityZone, queryType, rrLabel, rrType := q.hint, q.zone, q.queryType, q.rrLabel, q.rrtype;
    }

    method ToInterest() returns (name: Name)
      ensures name == Printed(Value(), [])
    {
      name := [];
      if forwardingHint != [] {
        name := forwardingHint;
        name := name + [MARKER];
      }
      name := name + authorityZone;
      name := name + [queryType.ToString()];
      name := name + rrLabel;
      name := name + [rrType.ToString()];
      assert name == Printed(Value(), []);
    }

    /** Reads the name of an Interest; on a mismatch nothing changes. */
    method FromInterest(name: Name) returns (ok: bool)
      modifies this
      ensures ok == Match(QUERY_NAMES, Uri(name)).Just?
      ensures Value() == if ok then Understood(Match(QUERY_NAMES, Uri(name)).value, old(Value())) else old(Value())
    {
      var captures := Match(QUERY_NAMES, Uri(name));
      if captures.Nothing? {
        return false;
      }
      SetCaptures(captures.value);
      return true;
    }

    method SetCaptures(c: Captures)
      modifies this
      ensures Value() == Understood(c, old(Value()))
    {
      authorityZone := ParseName(c.body.zone);
      queryType := ToQueryType(c.body.queryType);
      rrLabel := ParseName(c.body.rrLabel);
      rrType := ToRRType(c.body.rrtype);
      if c.hint != "" {
        forwardingHint := ParseName(c.hint);
      }
    }

    /** Reads an update's name and finds the component that carries the update; Nothing where the
        name does not match or has no component at the computed index. */
    method FromUpdateInterest(name: Name) returns (wire: Option<Component>)
      modifies this
      ensures var m := Match(UPDATE_NAMES, Uri(name));
              wire == (if m.Just? && UpdateIndex(m.value) < |name| then Just(name[UpdateIndex(m.value)]) else Nothing)
              && Value() == if m.Just? then Understood(m.value, old(Value())) else old(Value())
    {
      hide Match, ParseName, ToQueryType, ToRRType;
      var captures := Match(UPDATE_NAMES, Uri(name));
      if captures.Nothing? {
        return Nothing;
      }
      SetCaptures(captures.value);
      var temp := 0;
      if captures.value.hint == "" {
        temp := temp + 0;
      } else if captures.value.hint == "/" {
        temp := temp + 1;
      } else {
        temp := temp + |forwardingHint| + 1;
      }
      if captures.value.body.zone == "/" {
        temp := temp + 0;
      } else {
        temp := temp + |authorityZone|;
      }
      temp := temp + 1;
      wire := if temp < |name| then Just(name[temp]) else Nothing;
    }
  }

  /** The position computed for the embedded update. */
  function UpdateIndex(c: Captures): nat {
    (if c.hint == "" then 0 else if c.hint == "/" then 1 else |ParseName(c.hint)| + 1)
    + (if c.body.zone == "/" then 0 else |ParseName(c.body.zone)|) + 1
  }
}
