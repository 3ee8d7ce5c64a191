/** Data packets as the program reads them: a name, and the encoded message in the content. */
module DataPackets {
  import opened Enums
  import opened Grammar
  import opened NameRoundTrip
  import opened Names
  import opened Protocol
  import opened QueryNames
  import opened ResourceRecords
  import opened ResponseCodec
  import opened Tlv

  datatype Packet = Packet(name: Name, content: Bytes)

  const DEFAULT_MESSAGE := Message([], 3600, Resp, [], NS, [])

  /** A fresh message that has taken label and type from a packet's name, where that is a query's. */
  function Prepared(name: Name): Message {
    match Match(QUERY_NAMES, Uri(name))
    case Nothing => DEFAULT_MESSAGE
    case Just(c) => DEFAULT_MESSAGE.(rrLabel := ParseName(c.body.rrLabel), rrtype := ToRRType(c.body.rrtype))
  }

  /** The message in a packet; Nothing where decoding throws. */
  function FromData(p: Packet): Option<Message> {
    match ReadElement(p.content)
    case Nothing => Nothing
    case Just((e, _)) => Decode(e.value, Prepared(p.name))
  }

  method ReadPacket(p: Packet) returns (m: Option<Message>)
    ensures m == FromData(p)
  {
    hide Match, Decode, ReadElement;
    var message := new ResponseMessage(DEFAULT_MESSAGE);
    var captures := Match(QUERY_NAMES, Uri(p.name));
    if captures.Just? {
      message.rrLabel := ParseName(captures.value.body.rrLabel);
      message.rrtype := ToRRType(captures.value.body.rrtype);
    }
    var content := ReadElement(p.content);
    if content.Nothing? {
      return Nothing;
    }
    var ok := message.WireDecode(content.value.0.value);
    m := if ok then Just(message.Value()) else Nothing;
  }

  /** What was put into a packet is read from it, the records with the label and type that its name
      gives. */
  lemma PacketArrives(name: Name, m: Message)
    requires Encodable(m)
    ensures FromData(Packet(name, Wire(m)))
            == Just(Prepared(name).(queryName := m.queryName, kind := m.kind, freshness := m.freshness,
                                    rrs := AllReceived(m.rrs, Prepared(name).rrLabel, Prepared(name).rrtype)))
  {
    hide Wire, ContentValue, Decode, ReadElement, Encodable, Match, AllReceived;
    ResponseRoundTrip(m, Prepared(name));
    assert [] + AllReceived(m.rrs, Prepared(name).rrLabel, Prepared(name).rrtype)
           == AllReceived(m.rrs, Prepared(name).rrLabel, Prepared(name).rrtype);
  }

  /** A readable query's name gives its own label and type. */
  lemma PreparedFor(q: Query, suffix: Name)
    requires Wellformed(QUERY_NAMES, q, suffix) && Readable(QUERY_NAMES, q)
    ensures Prepared(Printed(q, suffix)) == DEFAULT_MESSAGE.(rrLabel := q.rrLabel, rrtype := q.rrtype)
  {
    hide Match, Readable, Wellformed, Printed, ParseName;
    RoundTripExactly(QUERY_NAMES, q, suffix);
  }

  /** Behind any other name they have the empty label and type NS. */
  lemma PreparedOtherwise(name: Name)
    requires name != [] && !Matchable(QUERY_NAMES, name)
    ensures Prepared(name).rrLabel == [] && Prepared(name).rrtype == NS
  {
    hide Match, Matchable;
    GrammarsAreProper();
    MatchedExactly(QUERY_NAMES, name);
  }
}
