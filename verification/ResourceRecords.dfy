/** Zones, record sets and records, and the wire form of a record. */
module ResourceRecords {
  import opened Enums
  import opened Names
  import opened Protocol
  import opened Tlv

  const RR_DATA := 134
  const RR_DATA_SUB1 := 141
  const RR_DATA_RECORD := 142
  const RR_UPDATE_ACTION := 143
  const RR_ZONE := 145

  const DEFAULT_TTL := 3600

  datatype Zone = Zone(id: nat, name: Name)

  datatype RRSetValue = RRSetValue(id: nat, zone: Zone, rrLabel: Name, cls: string, rrtype: RRType)

  datatype RRValue = RRValue(id: nat, data: string, ttl: nat, action: UpdateAction, rrset: RRSetValue)

  const DEFAULT_RRSET := RRSetValue(0, Zone(0, []), [], "", NS)

  const DEFAULT_RR := RRValue(0, "ex.com", DEFAULT_TTL, None, DEFAULT_RRSET)

  /** A record set as the managers share it by pointer. */
  class RRSet {
    var id: nat
    var zone: Zone
    var rrLabel: Name
    var cls: string
    var rrtype: RRType

    function Value(): RRSetValue
      reads this
    {
      RRSetValue(id, zone, rrLabel, cls, rrtype)
    }

    constructor (v: RRSetValue)
      ensures Value() == v
    {
      id, zone, rrLabel, cls, rrtype := v.id, v.zone, v.rrLabel, v.cls, v.rrtype;
    }
  }

  // ----- The wire form of a record -------------------------------------------------------------

  function RRBody(v: RRValue): Bytes {
    Block(RR_DATA_SUB1, NonNegative(v.id))
    + Block(RR_ZONE, ToBytes(Uri(v.rrset.zone.name)))
    + Block(RR_DATA_RECORD, ToBytes(v.data))
    + Block(RR_UPDATE_ACTION, ToBytes(v.action.ToString()))
  }

  function RRWire(v: RRValue): Bytes {
    Block(RR_DATA, RRBody(v))
  }

  /** Type `typ` at position `i` of the parsed elements. */
  predicate HasElement(es: seq<Element>, i: nat, typ: nat) {
    i < |es| && es[i].typ == typ
  }

  /** What reading the parsed elements into `before` yields; elements after the fourth are ignored. */
  function DecodeRRElements(es: seq<Element>, before: RRValue): Option<RRValue> {
    if HasElement(es, 0, RR_DATA_SUB1) && ReadNonNegative(es[0].value).Just?
       && HasElement(es, 1, RR_ZONE) && HasElement(es, 2, RR_DATA_RECORD) && HasElement(es, 3, RR_UPDATE_ACTION)
    then Just(before.(id := ReadNonNegative(es[0].value).value % 0x1_0000_0000,
                      rrset := before.rrset.(zone := before.rrset.zone.(name := ParseName(ToText(es[1].value)))),
                      data := ToText(es[2].value),
                      action := ToUpdateAction(ToText(es[3].value))))
    else Nothing
  }

  function DecodeRR(e: Element, before: RRValue): Option<RRValue> {
    if e.typ != RR_DATA then Nothing
    else match ParseElements(e.value)
      case Nothing => Nothing
      case Just(es) => DecodeRRElements(es, before)
  }

  class RR {
    var id: nat
    var data: string
    var ttl: nat
    var action: UpdateAction
    var rrset: RRSetValue

    function Value(): RRValue
      reads this
    {
      RRValue(id, data, ttl, action, rrset)
    }

    constructor (v: RRValue)
      ensures Value() == v
    {
      id, data, ttl, action, rrset := v.id, v.data, v.ttl, v.action, v.rrset;
    }

    /** One pass of the encoder over this record, last field first. */
    method WireEncodeInto(block: EncodingImpl) returns (totalLength: nat)
      modifies block
      ensures totalLength == |RRWire(Value())|
      ensures block.buffer == Prepended(block.writing, RRWire(Value()), old(block.buffer))
    {
      hide Block, NonNegative, Prepended;
      ghost var before := block.buffer;
      ghost var b4 := Block(RR_UPDATE_ACTION, ToBytes(action.ToString()));
      ghost var b3 := Block(RR_DATA_RECORD, ToBytes(data));
      ghost var b2 := Block(RR_ZONE, ToBytes(Uri(rrset.zone.name)));
      ghost var b1 := Block(RR_DATA_SUB1, NonNegative(id));
      var n4 := block.PrependByteArrayBlock(RR_UPDATE_ACTION, ToBytes(action.ToString()));
      var n3 := block.PrependByteArrayBlock(RR_DATA_RECORD, ToBytes(data));
      PrependedTwice(block.writing, b3, b4, before);
      var n2 := block.PrependByteArrayBlock(RR_ZONE, ToBytes(Uri(rrset.zone.name)));
      PrependedTwice(block.writing, b2, b3 + b4, before);
      var n1 := block.PrependNonNegativeIntegerBlock(RR_DATA_SUB1, id);
      PrependedTwice(block.writing, b1, b2 + (b3 + b4), before);
      totalLength := n4 + n3 + n2 + n1;
      assert b1 + (b2 + (b3 + b4)) == RRBody(Value());
      totalLength := block.PrependHeader(RR_DATA, RRBody(Value()), totalLength, before);
    }

    /** Measures first, then writes; the estimate is exactly the size of what is written. */
    method WireEncode() returns (wire: Bytes, estimatedSize: nat)
      ensures wire == RRWire(Value()) && estimatedSize == |wire|
    {
      var estimator := new EncodingImpl(false);
      estimatedSize := WireEncodeInto(estimator);
      var buffer := new EncodingImpl(true);
      var written := WireEncodeInto(buffer);
      wire := buffer.buffer;
      assert wire == RRWire(Value()) + [];
    }

    /** Reads the elements in order; `ok` is false where the program throws. */
    method WireDecode(wire: Element) returns (ok: bool)
      modifies this
      ensures ok <==> DecodeRR(wire, old(Value())).Just?
      ensures ok ==> Value() == DecodeRR(wire, old(Value())).value
    {
      if wire.typ != RR_DATA {
        return false;
      }
      var parsed := ParseElements(wire.value);
      if parsed.Nothing? {
        return false;
      }
      var es, it := parsed.value, 0;
      if it < |es| && es[it].typ == RR_DATA_SUB1 && ReadNonNegative(es[it].value).Just? {
        id := ReadNonNegative(es[it].value).value % 0x1_0000_0000;
        it := it + 1;
      } else {
        return false;
      }
      if it < |es| && es[it].typ == RR_ZONE {
        rrset := rrset.(zone := rrset.zone.(name := ParseName(ToText(es[it].value))));
        it := it + 1;
      } else {
        return false;
      }
      if it < |es| && es[it].typ == RR_DATA_RECORD {
        data := ToText(es[it].value);
        it := it + 1;
      } else {
        return false;
      }
      if it < |es| && es[it].typ == RR_UPDATE_ACTION {
        action := ToUpdateAction(ToText(es[it].value));
        it := it + 1;
      } else {
        return false;
      }
      return true;
    }
  }

  /** A record whose fields fit their wire types: a 32-bit id and octet strings. */
  predicate FitsWire(v: RRValue) {
    v.id <= 0xFFFF_FFFF && IsOctets(v.data) && IsOctets(Uri(v.rrset.zone.name))
  }

  lemma ActionRoundTrip(a: UpdateAction)
    ensures IsOctets(a.ToString()) && ToUpdateAction(a.ToString()) == a
  {
  }

  function RRElements(v: RRValue): seq<Element> {
    [Element(RR_DATA_SUB1, NonNegative(v.id)), Element(RR_ZONE, ToBytes(Uri(v.rrset.zone.name))),
     Element(RR_DATA_RECORD, ToBytes(v.data)), Element(RR_UPDATE_ACTION, ToBytes(v.action.ToString()))]
  }

  /** Each nested length encloses exactly its field. */
  lemma RRBodyParses(v: RRValue)
    requires |RRBody(v)| <= MAX_NUMBER
    ensures ParseElements(RRBody(v)) == Just(RRElements(v))
  {
    var es := RRElements(v);
    FourBlocks(es[0], es[1], es[2], es[3]);
    BlocksParse(es);
  }

  /** Decoding an encoded record recovers id, zone, data and update action; the time-to-live,
      the label and the type are not carried. */
  lemma RRRoundTrip(v: RRValue, before: RRValue)
    requires FitsWire(v) && |RRBody(v)| <= MAX_NUMBER
    ensures DecodeRR(Element(RR_DATA, RRBody(v)), before) == Just(Carried(v, before))
  {
    RRBodyParses(v);
    RRElementsDecode(v, before);
  }

  /** `before` with the fields that travel on the wire taken from `v`. */
  function Carried(v: RRValue, before: RRValue): RRValue {
    before.(id := v.id, data := v.data, action := v.action,
            rrset := before.rrset.(zone := before.rrset.zone.(name := v.rrset.zone.name)))
  }

  lemma RRElementsDecode(v: RRValue, before: RRValue)
    requires FitsWire(v)
    ensures DecodeRRElements(RRElements(v), before) == Just(Carried(v, before))
  {
    hide NonNegative, ReadNonNegative, ToBytes, ToText, ParseName, Uri, ToUpdateAction, IsOctets, UpdateAction.ToString;
    NonNegativeRoundTrip(v.id);
    TextRoundTrip(Uri(v.rrset.zone.name));
    ParseUri(v.rrset.zone.name);
    TextRoundTrip(v.data);
    ActionRoundTrip(v.action);
    TextRoundTrip(v.action.ToString());
  }

  // ----- The format of a record, in numbers ----------------------------------------------------

  /** A record is an element of type 134 that encloses exactly four: its id (141), the text of its
      zone (145), its data (142) and the text of its update action (143). */
  lemma RecordFormat(v: RRValue)
    requires |RRBody(v)| <= MAX_NUMBER
    ensures ReadElement(RRWire(v)) == Just((Element(134, RRBody(v)), []))
    ensures ParseElements(RRBody(v))
            == Just([Element(141, NonNegative(v.id)), Element(145, ToBytes(Uri(v.rrset.zone.name))),
                     Element(142, ToBytes(v.data)),
                     Element(143, ToBytes(match v.action
                                          case None => "NONE"
                                          case Add => "ADD"
                                          case Remove => "REMOVE"
                                          case ReplaceAll => "REPLACE-ALL"
                                          case Replace => "REPLACE"
                                          case UnknownAction => "UNKNOWN"))])
  {
    RRBodyParses(v);
    assert RRWire(v) + [] == RRWire(v);
    BlockRoundTrip(RR_DATA, RRBody(v), []);
  }

  /** The four elements that a readable record begins with. */
  predicate RecordElements(es: seq<Element>) {
    |es| >= 4 && es[0].typ == 141 && |es[0].value| in {1, 2, 4, 8}
    && es[1].typ == 145 && es[2].typ == 142 && es[3].typ == 143
  }

  /** A record is read exactly when its type is 134 and it begins with these elements; of its id the
      low 32 bits are kept. */
  lemma RecordDecodesExactly(e: Element, before: RRValue)
    ensures DecodeRR(e, before).Just?
            <==> e.typ == 134 && ParseElements(e.value).Just? && RecordElements(ParseElements(e.value).value)
    ensures DecodeRR(e, before).Just?
            ==> DecodeRR(e, before).value.id == FromBigEndian(ParseElements(e.value).value[0].value) % 0x1_0000_0000
  {
    hide ParseElements, FromBigEndian;
  }
}
