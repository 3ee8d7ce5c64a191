/** The wire form of a response: name, kind, freshness and the blob of records. */
module ResponseCodec {
  import opened Enums
  import opened Names
  import opened Protocol
  import opened ResourceRecords
  import opened Tlv

  const NAME := 7
  const NAME_COMPONENT := 8
  const CONTENT := 21
  const RESPONSE_TYPE := 130
  const RESPONSE_FRESHNESS := 131
  const RESPONSE_CONTENT_BLOB := 132
  const RESPONSE_NUMBER_OF_RR_DATA := 133

  /** A response as its fields; the name is given by the bytes of its components. */
  datatype Message = Message(queryName: seq<Bytes>, freshness: nat, kind: ResponseType,
                             rrLabel: Name, rrtype: RRType, rrs: seq<RRValue>)

  // ----- Encoding ------------------------------------------------------------------------------

  function NameElements(n: seq<Bytes>): seq<Element> {
    seq(|n|, i requires 0 <= i < |n| => Element(NAME_COMPONENT, n[i]))
  }

  function RRElementsOf(rrs: seq<RRValue>): seq<Element> {
    seq(|rrs|, i requires 0 <= i < |rrs| => Element(RR_DATA, RRBody(rrs[i])))
  }

  /** The records from the k-th on, one after the other. */
  function RRsFrom(rrs: seq<RRValue>, k: nat): Bytes
    requires k <= |rrs|
    decreases |rrs| - k
  {
    if k == |rrs| then [] else RRWire(rrs[k]) + RRsFrom(rrs, k + 1)
  }

  function RRsWire(rrs: seq<RRValue>): Bytes {
    RRsFrom(rrs, 0)
  }

  function Blob(rrs: seq<RRValue>): Bytes {
    Block(RESPONSE_NUMBER_OF_RR_DATA, NonNegative(|rrs|)) + RRsWire(rrs)
  }

  function ContentElements(m: Message): seq<Element> {
    [Element(NAME, Blocks(NameElements(m.queryName))), Element(RESPONSE_TYPE, ToBytes(m.kind.ToString())),
     Element(RESPONSE_FRESHNESS, NonNegative(m.freshness)), Element(RESPONSE_CONTENT_BLOB, Blob(m.rrs))]
  }

  function ContentValue(m: Message): Bytes {
    Block(NAME, Blocks(NameElements(m.queryName))) + Block(RESPONSE_TYPE, ToBytes(m.kind.ToString()))
    + Block(RESPONSE_FRESHNESS, NonNegative(m.freshness)) + Block(RESPONSE_CONTENT_BLOB, Blob(m.rrs))
  }

  function Wire(m: Message): Bytes {
    Block(CONTENT, ContentValue(m))
  }

  // ----- Decoding ------------------------------------------------------------------------------

  function DecodeRRs(es: seq<Element>, count: nat, rrLabel: Name, rrtype: RRType): Option<seq<RRValue>> {
    if count == 0 then Just([])
    else match DecodeRRs(es, count - 1, rrLabel, rrtype)
      case Nothing => Nothing
      case Just(rrs) =>
        if !HasElement(es, count, RR_DATA) then Nothing
        else match DecodeRR(es[count], DEFAULT_RR)
          case Nothing => Nothing
          case Just(v) => Just(rrs + [Labelled(v, rrLabel, rrtype)])
  }

  /** A decoded record with the label and type of the response's name. */
  function Labelled(v: RRValue, rrLabel: Name, rrtype: RRType): RRValue {
    v.(rrset := v.rrset.(rrLabel := rrLabel, rrtype := rrtype))
  }

  function DecodeBlob(blob: Bytes, rrLabel: Name, rrtype: RRType): Option<seq<RRValue>> {
    match ParseElements(blob)
    case Nothing => Nothing
    case Just(es) =>
      if HasElement(es, 0, RESPONSE_NUMBER_OF_RR_DATA) && ReadNonNegative(es[0].value).Just?
      then DecodeRRs(es, ReadNonNegative(es[0].value).value, rrLabel, rrtype)
      else Nothing
  }

  /** The fields in front of the blob. */
  function DecodeFields(es: seq<Element>, before: Message): Option<Message> {
    if HasElement(es, 0, NAME) && NameValues(es[0].value).Just?
       && HasElement(es, 1, RESPONSE_TYPE)
       && HasElement(es, 2, RESPONSE_FRESHNESS) && ReadNonNegative(es[2].value).Just?
    then Just(before.(queryName := NameValues(es[0].value).value,
                      kind := ToResponseType(ToText(es[1].value)),
                      freshness := ReadNonNegative(es[2].value).value))
    else Nothing
  }

  function NameValues(value: Bytes): Option<seq<Bytes>> {
    match ParseElements(value)
    case Nothing => Nothing
    case Just(es) => Just(seq(|es|, i requires 0 <= i < |es| => es[i].value))
  }

  function DecodeElements(es: seq<Element>, before: Message): Option<Message> {
    if DecodeFields(es, before).Just? && HasElement(es, 3, RESPONSE_CONTENT_BLOB)
       && DecodeBlob(es[3].value, before.rrLabel, before.rrtype).Just?
    then Just(DecodeFields(es, before).value
              .(rrs := before.rrs + DecodeBlob(es[3].value, before.rrLabel, before.rrtype).value))
    else Nothing
  }

  /** What decoding a content value into `before` yields: records are appended to those it has. */
  function Decode(value: Bytes, before: Message): Option<Message> {
    match ParseElements(value)
    case Nothing => Nothing
    case Just(es) => DecodeElements(es, before)
  }

  // ----- The loops over the records ------------------------------------------------------------

  /** Prepends the records from the last to the first. */
  method EncodeRRs(rrs: seq<RRValue>, block: EncodingImpl) returns (totalLength: nat)
    modifies block
    ensures totalLength == |RRsWire(rrs)|
    ensures block.buffer == Prepended(block.writing, RRsWire(rrs), old(block.buffer))
  {
    hide RRWire;
    ghost var before := block.buffer;
    totalLength := 0;
    var i := 0;
    while i < |rrs|
      invariant 0 <= i <= |rrs|
      invariant totalLength == |RRsFrom(rrs, |rrs| - i)|
      invariant block.buffer == Prepended(block.writing, RRsFrom(rrs, |rrs| - i), before)
    {
      totalLength := EncodeRR(rrs, |rrs| - i - 1, block, totalLength, before);
      i := i + 1;
    }
  }

  /** The k-th record, in front of those after it. */
  method EncodeRR(rrs: seq<RRValue>, k: nat, block: EncodingImpl, length: nat, ghost before: Bytes)
    returns (totalLength: nat)
    requires k < |rrs| && length == |RRsFrom(rrs, k + 1)|
    requires block.buffer == Prepended(block.writing, RRsFrom(rrs, k + 1), before)
    modifies block
    ensures totalLength == |RRsFrom(rrs, k)|
    ensures block.buffer == Prepended(block.writing, RRsFrom(rrs, k), before)
  {
    var rr := new RR(rrs[k]);
    var size := rr.WireEncodeInto(block);
    totalLength := length + size;
    PrependedTwice(block.writing, RRWire(rrs[k]), RRsFrom(rrs, k + 1), before);
  }

  /** Reads `count` records after the first element; on failure, those before the unreadable one. */
  method ReadRRs(es: seq<Element>, count: nat, rrLabel: Name, rrtype: RRType) returns (ok: bool, read: seq<RRValue>)
    ensures ok <==> DecodeRRs(es, count, rrLabel, rrtype).Just?
    ensures ok ==> read == DecodeRRs(es, count, rrLabel, rrtype).value
  {
    hide DecodeRR;
    read := [];
    var i := 0;
    while i < count
      invariant 0 <= i <= count
      invariant DecodeRRs(es, i, rrLabel, rrtype) == Just(read)
    {
      var decoded, v := false, DEFAULT_RR;
      if i + 1 < |es| && es[i + 1].typ == RR_DATA {
        decoded, v := ReadRR(es[i + 1], rrLabel, rrtype);
      }
      if !decoded {
        FailedPrefix(es, i + 1, count, rrLabel, rrtype);
        return false, read;
      }
      read := read + [v];
      i := i + 1;
    }
    ok := true;
  }

  /** One record into a fresh object, which takes the label and type of the response's name. */
  method ReadRR(e: Element, rrLabel: Name, rrtype: RRType) returns (ok: bool, v: RRValue)
    ensures ok <==> DecodeRR(e, DEFAULT_RR).Just?
    ensures ok ==> v == Labelled(DecodeRR(e, DEFAULT_RR).value, rrLabel, rrtype)
  {
    var rr := new RR(DEFAULT_RR);
    ok := rr.WireDecode(e);
    rr.rrset := rr.rrset.(rrLabel := rrLabel);
    rr.rrset := rr.rrset.(rrtype := rrtype);
    v := rr.Value();
  }

  // ----- The response object -------------------------------------------------------------------

  class ResponseMessage {
    var queryName: seq<Bytes>
    var freshness: nat
    var kind: ResponseType
    var rrLabel: Name
    var rrtype: RRType
    var rrs: seq<RRValue>

    function Value(): Message
      reads this
    {
      Message(queryName, freshness, kind, rrLabel, rrtype, rrs)
    }

    constructor (m: Message)
      ensures Value() == m
    {
      queryName, freshness, kind := m.queryName, m.freshness, m.kind;
      rrLabel, rrtype, rrs := m.rrLabel, m.rrtype, m.rrs;
    }

    /** One pass of the encoder, from the last record to the name. */
    method WireEncodeInto(block: EncodingImpl) returns (totalLength: nat)
      modifies block
      ensures totalLength == |Wire(Value())|
      ensures block.buffer == Prepended(block.writing, Wire(Value()), old(block.buffer))
    {
      ghost var before := block.buffer;
      totalLength := EncodeRRs(rrs, block);
      totalLength := EncodeBlob(block, totalLength, before);
      totalLength := EncodeFields(block, totalLength, before);
    }

    /** The number of records and the header in front of the records. */
    method EncodeBlob(block: EncodingImpl, rrsLength: nat, ghost before: Bytes) returns (totalLength: nat)
      requires rrsLength == |RRsWire(rrs)| && block.buffer == Prepended(block.writing, RRsWire(rrs), before)
      modifies block
      ensures totalLength == |Block(RESPONSE_CONTENT_BLOB, Blob(rrs))|
      ensures block.buffer == Prepended(block.writing, Block(RESPONSE_CONTENT_BLOB, Blob(rrs)), before)
    {
      var n := block.PrependNonNegativeIntegerBlock(RESPONSE_NUMBER_OF_RR_DATA, |rrs|);
      PrependedTwice(block.writing, Block(RESPONSE_NUMBER_OF_RR_DATA, NonNegative(|rrs|)), RRsWire(rrs), before);
      totalLength := block.PrependHeader(RESPONSE_CONTENT_BLOB, Blob(rrs), rrsLength + n, before);
    }

    /** The fields in front of the blob. */
    method EncodeFields(block: EncodingImpl, blobLength: nat, ghost before: Bytes) returns (totalLength: nat)
      requires blobLength == |Block(RESPONSE_CONTENT_BLOB, Blob(rrs))|
      requires block.buffer == Prepended(block.writing, Block(RESPONSE_CONTENT_BLOB, Blob(rrs)), before)
      modifies block
      ensures totalLength == |Wire(Value())|
      ensures block.buffer == Prepended(block.writing, Wire(Value()), before)
    {
      hide Block, NonNegative, Prepended;
      ghost var b4 := Block(RESPONSE_CONTENT_BLOB, Blob(rrs));
      ghost var b3 := Block(RESPONSE_FRESHNESS, NonNegative(freshness));
      ghost var b2 := Block(RESPONSE_TYPE, ToBytes(kind.ToString()));
      ghost var b1 := Block(NAME, Blocks(NameElements(queryName)));
      var n3 := block.PrependNonNegativeIntegerBlock(RESPONSE_FRESHNESS, freshness);
      PrependedTwice(block.writing, b3, b4, before);
      var n2 := block.PrependByteArrayBlock(RESPONSE_TYPE, ToBytes(kind.ToString()));
      PrependedTwice(block.writing, b2, b3 + b4, before);
      var n1 := block.PrependByteArrayBlock(NAME, Blocks(NameElements(queryName)));
      PrependedTwice(block.writing, b1, b2 + (b3 + b4), before);
      assert b1 + (b2 + (b3 + b4)) == ContentValue(Value());
      totalLength := block.PrependHeader(CONTENT, ContentValue(Value()), blobLength + n3 + n2 + n1, before);
    }

    /** Measures first, then writes; the estimate is exactly the size of what is written. */
    method WireEncode() returns (wire: Bytes, estimatedSize: nat)
      ensures wire == Wire(Value()) && estimatedSize == |wire|
    {
      var estimator := new EncodingImpl(false);
      estimatedSize := WireEncodeInto(estimator);
      var buffer := new EncodingImpl(true);
      var written := WireEncodeInto(buffer);
      wire := buffer.buffer;
      assert wire == Wire(Value()) + [];
    }

    /** Reads the elements in order; `ok` is false where the program throws, and then the records
        read so far have been appended. */
    method WireDecode(value: Bytes) returns (ok: bool)
      modifies this
      ensures ok <==> Decode(value, old(Value())).Just?
      ensures ok ==> Value() == Decode(value, old(Value())).value
      ensures rrLabel == old(rrLabel) && rrtype == old(rrtype) && old(rrs) <= rrs
    {
      var parsed := ParseElements(value);
      if parsed.Nothing? {
        return false;
      }
      var es := parsed.value;
      ok := DecodeFieldsInto(es);
      if !ok {
        return;
      }
      if 3 < |es| && es[3].typ == RESPONSE_CONTENT_BLOB {
        ok := DecodeBlobInto(es[3].value);
      } else {
        return false;
      }
    }

    method DecodeFieldsInto(es: seq<Element>) returns (ok: bool)
      modifies this
      ensures ok <==> DecodeFields(es, old(Value())).Just?
      ensures ok ==> Value() == DecodeFields(es, old(Value())).value
      ensures rrLabel == old(rrLabel) && rrtype == old(rrtype) && rrs == old(rrs)
    {
      var it := 0;
      if it < |es| && es[it].typ == NAME && NameValues(es[it].value).Just? {
        queryName := NameValues(es[it].value).value;
        it := it + 1;
      } else {
        return false;
      }
      if it < |es| && es[it].typ == RESPONSE_TYPE {
        kind := ToResponseType(ToText(es[it].value));
        it := it + 1;
      } else {
        return false;
      }
      if it < |es| && es[it].typ == RESPONSE_FRESHNESS && ReadNonNegative(es[it].value).Just? {
        freshness := ReadNonNegative(es[it].value).value;
        it := it + 1;
      } else {
        return false;
      }
      return true;
    }

    method DecodeBlobInto(blob: Bytes) returns (ok: bool)
      modifies `rrs
      ensures ok <==> DecodeBlob(blob, rrLabel, rrtype).Just?
      ensures ok ==> rrs == old(rrs) + DecodeBlob(blob, rrLabel, rrtype).value
      ensures old(rrs) <= rrs
    {
      var parsed := ParseElements(blob);
      if parsed.Nothing? {
        return false;
      }
      var es := parsed.value;
      if |es| == 0 || es[0].typ != RESPONSE_NUMBER_OF_RR_DATA || ReadNonNegative(es[0].value).Nothing? {
        return false;
      }
      var read;
      ok, read := ReadRRs(es, ReadNonNegative(es[0].value).value, rrLabel, rrtype);
      rrs := rrs + read;
    }
  }

  /** Once a record cannot be read, neither can any longer run of records. */
  lemma {:induction false} FailedPrefix(es: seq<Element>, n: nat, count: nat, rrLabel: Name, rrtype: RRType)
    requires n <= count && DecodeRRs(es, n, rrLabel, rrtype).Nothing?
    ensures DecodeRRs(es, count, rrLabel, rrtype).Nothing?
  {
    hide DecodeRR, HasElement, Labelled;
    if n < count {
      FailedPrefix(es, n, count - 1, rrLabel, rrtype);
    }
  }

  // ----- Round trip ----------------------------------------------------------------------------

  /** What a decoded record is: the wire fields of `v`, the label and type of the response name,
      and defaults elsewhere (the time-to-live does not travel). */
  function Received(v: RRValue, rrLabel: Name, rrtype: RRType): RRValue {
    RRValue(v.id, v.data, DEFAULT_TTL, v.action,
            RRSetValue(0, Zone(0, v.rrset.zone.name), rrLabel, "", rrtype))
  }

  function AllReceived(rrs: seq<RRValue>, rrLabel: Name, rrtype: RRType): seq<RRValue> {
    seq(|rrs|, i requires 0 <= i < |rrs| => Received(rrs[i], rrLabel, rrtype))
  }

  lemma {:induction false} RRsWireSize(rrs: seq<RRValue>, k: nat, i: nat)
    requires k <= i < |rrs|
    ensures |RRBody(rrs[i])| <= |RRsFrom(rrs, k)|
    decreases i - k
  {
    hide RRBody, Block;
    BlockHolds(RR_DATA, RRBody(rrs[k]));
    if k < i {
      RRsWireSize(rrs, k + 1, i);
    }
  }

  lemma BlockHolds(typ: nat, value: Bytes)
    ensures |value| <= |Block(typ, value)|
  {
    hide VarNumber;
  }

  lemma {:induction false} RRsWireBlocks(rrs: seq<RRValue>, k: nat)
    requires k <= |rrs|
    ensures RRsFrom(rrs, k) == Blocks(RRElementsOf(rrs)[k..])
    decreases |rrs| - k
  {
    var es := RRElementsOf(rrs);
    if k < |rrs| {
      RRsWireBlocks(rrs, k + 1);
      assert es[k..][1..] == es[k + 1..] && es[k..][0] == es[k];
    }
  }

  lemma BlobParses(rrs: seq<RRValue>)
    requires |Blob(rrs)| <= MAX_NUMBER
    ensures ParseElements(Blob(rrs))
            == Just([Element(RESPONSE_NUMBER_OF_RR_DATA, NonNegative(|rrs|))] + RRElementsOf(rrs))
  {
    RRsWireBlocks(rrs, 0);
    assert RRElementsOf(rrs)[0..] == RRElementsOf(rrs);
    BlocksParse(RRElementsOf(rrs));
    ParseBlock(RESPONSE_NUMBER_OF_RR_DATA, NonNegative(|rrs|), RRsWire(rrs), RRElementsOf(rrs));
  }

  lemma RRReceived(v: RRValue, rrLabel: Name, rrtype: RRType)
    requires FitsWire(v) && |RRBody(v)| <= MAX_NUMBER
    ensures var decoded := DecodeRR(Element(RR_DATA, RRBody(v)), DEFAULT_RR);
            decoded.Just? && Labelled(decoded.value, rrLabel, rrtype) == Received(v, rrLabel, rrtype)
  {
    RRRoundTrip(v, DEFAULT_RR);
  }

  lemma AllReceivedStep(rrs: seq<RRValue>, count: nat, rrLabel: Name, rrtype: RRType)
    requires 0 < count <= |rrs|
    ensures AllReceived(rrs[..count], rrLabel, rrtype)
            == AllReceived(rrs[..count - 1], rrLabel, rrtype) + [Received(rrs[count - 1], rrLabel, rrtype)]
  {
  }

  lemma DecodeRRsStep(es: seq<Element>, count: nat, rrLabel: Name, rrtype: RRType, rrs: seq<RRValue>, v: RRValue)
    requires 0 < count < |es| && es[count] == Element(RR_DATA, RRBody(v))
    requires FitsWire(v) && |RRBody(v)| <= MAX_NUMBER
    requires DecodeRRs(es, count - 1, rrLabel, rrtype) == Just(rrs)
    ensures DecodeRRs(es, count, rrLabel, rrtype) == Just(rrs + [Received(v, rrLabel, rrtype)])
  {
    RRReceived(v, rrLabel, rrtype);
  }

  lemma {:induction false} RRsRoundTrip(rrs: seq<RRValue>, es: seq<Element>, count: nat, rrLabel: Name, rrtype: RRType)
    requires count <= |rrs| && (forall v | v in rrs :: FitsWire(v) && |RRBody(v)| <= MAX_NUMBER)
    requires |es| == 1 + |rrs| && es[1..] == RRElementsOf(rrs)
    ensures DecodeRRs(es, count, rrLabel, rrtype) == Just(AllReceived(rrs[..count], rrLabel, rrtype))
  {
    hide DecodeRR, FitsWire, RRBody, Received;
    if count > 0 {
      var v := rrs[count - 1];
      RRsRoundTrip(rrs, es, count - 1, rrLabel, rrtype);
      assert v in rrs;
      assert es[count] == es[1..][count - 1];
      DecodeRRsStep(es, count, rrLabel, rrtype, AllReceived(rrs[..count - 1], rrLabel, rrtype), v);
      AllReceivedStep(rrs, count, rrLabel, rrtype);
    } else {
      assert AllReceived(rrs[..0], rrLabel, rrtype) == [];
    }
  }

  lemma BodiesFit(rrs: seq<RRValue>)
    requires |Blob(rrs)| <= MAX_NUMBER
    ensures forall v | v in rrs :: |RRBody(v)| <= MAX_NUMBER
  {
    assert |RRsFrom(rrs, 0)| <= |Blob(rrs)|;
    hide Blob, RRBody, RRsFrom;
    forall v | v in rrs
      ensures |RRBody(v)| <= MAX_NUMBER
    {
      var i :| 0 <= i < |rrs| && rrs[i] == v;
      RRsWireSize(rrs, 0, i);
    }
  }

  lemma BlobRoundTrip(rrs: seq<RRValue>, rrLabel: Name, rrtype: RRType)
    requires |Blob(rrs)| <= MAX_NUMBER && |rrs| <= MAX_NUMBER
    requires forall v | v in rrs :: FitsWire(v)
    ensures DecodeBlob(Blob(rrs), rrLabel, rrtype) == Just(AllReceived(rrs, rrLabel, rrtype))
  {
    hide Blob, NonNegative, ReadNonNegative, ParseElements, DecodeRRs, RRBody, FitsWire, RRElementsOf, AllReceived;
    var es := [Element(RESPONSE_NUMBER_OF_RR_DATA, NonNegative(|rrs|))] + RRElementsOf(rrs);
    BlobParses(rrs);
    NonNegativeRoundTrip(|rrs|);
    BodiesFit(rrs);
    assert |RRElementsOf(rrs)| == |rrs| by { ElementPerRecord(rrs); }
    RRsRoundTrip(rrs, es, |rrs|, rrLabel, rrtype);
    assert rrs[..|rrs|] == rrs;
  }

  lemma ElementPerRecord(rrs: seq<RRValue>)
    ensures |RRElementsOf(rrs)| == |rrs|
  {
  }

  lemma KindRoundTrip(k: ResponseType)
    ensures IsOctets(k.ToString()) && ToResponseType(k.ToString()) == k
  {
  }

  lemma NameBytesRoundTrip(n: seq<Bytes>)
    requires |Blocks(NameElements(n))| <= MAX_NUMBER
    ensures NameValues(Blocks(NameElements(n))) == Just(n)
  {
    BlocksParse(NameElements(n));
    assert NameValues(Blocks(NameElements(n))).value == n;
  }

  /** A message that fits its wire types and the 64-bit sizes of the encoder. */
  predicate Encodable(m: Message) {
    |ContentValue(m)| <= MAX_NUMBER && |m.rrs| <= MAX_NUMBER && m.freshness <= MAX_NUMBER
    && forall v | v in m.rrs :: FitsWire(v)
  }

  lemma FieldsRoundTrip(m: Message, before: Message)
    requires Encodable(m)
    ensures DecodeFields(ContentElements(m), before)
            == Just(before.(queryName := m.queryName, kind := m.kind, freshness := m.freshness))
  {
    BlockHolds(NAME, Blocks(NameElements(m.queryName)));
    hide Blocks, Block, Blob, NonNegative, ReadNonNegative, NameElements, NameValues, ToBytes, ToText, ToResponseType;
    hide IsOctets, ResponseType.ToString, FitsWire;
    NameBytesRoundTrip(m.queryName);
    KindRoundTrip(m.kind);
    TextRoundTrip(m.kind.ToString());
    NonNegativeRoundTrip(m.freshness);
  }

  lemma ContentRoundTrip(m: Message, before: Message)
    requires Encodable(m)
    ensures DecodeElements(ContentElements(m), before)
            == Just(before.(queryName := m.queryName, kind := m.kind, freshness := m.freshness,
                            rrs := before.rrs + AllReceived(m.rrs, before.rrLabel, before.rrtype)))
  {
    FieldsRoundTrip(m, before);
    assert |Blob(m.rrs)| <= |Block(RESPONSE_CONTENT_BLOB, Blob(m.rrs))| <= |ContentValue(m)|;
    BlobRoundTrip(m.rrs, before.rrLabel, before.rrtype);
  }

  /** Decoding what was encoded recovers name, kind, freshness and every record in order, for any
      number and size of records; and the outer length encloses exactly the content. */
  lemma ResponseRoundTrip(m: Message, before: Message)
    requires Encodable(m)
    ensures ReadElement(Wire(m)) == Just((Element(CONTENT, ContentValue(m)), []))
    ensures Decode(ContentValue(m), before)
            == Just(before.(queryName := m.queryName, kind := m.kind, freshness := m.freshness,
                            rrs := before.rrs + AllReceived(m.rrs, before.rrLabel, before.rrtype)))
  {
    hide Block, Blob, NameElements, DecodeElements, ReadElement;
    assert Wire(m) + [] == Wire(m);
    BlockRoundTrip(CONTENT, ContentValue(m), []);
    var es := ContentElements(m);
    FourBlocks(es[0], es[1], es[2], es[3]);
    BlocksParse(es);
    ContentRoundTrip(m, before);
  }

  // ----- The format of a response, in numbers --------------------------------------------------

  /** A response is the content element (21) with exactly four elements: its name (7, of components
      8), the text of its kind (130), its freshness (131) and the blob (132) of the number of records
      (133) and the records (134). */
  lemma ResponseFormat(m: Message)
    requires Encodable(m)
    ensures ReadElement(Wire(m)) == Just((Element(21, ContentValue(m)), []))
    ensures ParseElements(ContentValue(m))
            == Just([Element(7, Blocks(NameElements(m.queryName))), Element(130, ToBytes(KindText(m.kind))),
                     Element(131, NonNegative(m.freshness)), Element(132, Blob(m.rrs))])
    ensures ParseElements(Blocks(NameElements(m.queryName))) == Just(NumberedAll(8, m.queryName))
    ensures ParseElements(Blob(m.rrs)) == Just([Element(133, NonNegative(|m.rrs|))] + NumberedAll(134, Bodies(m.rrs)))
  {
    ContentFormat(m);
    NameAndBlobFormat(m);
  }

  function NumberedAll(typ: nat, values: seq<Bytes>): seq<Element> {
    seq(|values|, i requires 0 <= i < |values| => Element(typ, values[i]))
  }

  function Bodies(rrs: seq<RRValue>): seq<Bytes> {
    seq(|rrs|, i requires 0 <= i < |rrs| => RRBody(rrs[i]))
  }

  lemma ContentFormat(m: Message)
    requires Encodable(m)
    ensures ReadElement(Wire(m)) == Just((Element(21, ContentValue(m)), []))
    ensures ParseElements(ContentValue(m))
            == Just([Element(7, Blocks(NameElements(m.queryName))), Element(130, ToBytes(KindText(m.kind))),
                     Element(131, NonNegative(m.freshness)), Element(132, Blob(m.rrs))])
  {
    hide Block, Blob, NameElements, ReadElement, ParseElements, NonNegative, ContentValue, ToBytes, FitsWire;
    KindTexts(m.kind);
    assert Wire(m) + [] == Wire(m);
    BlockRoundTrip(CONTENT, ContentValue(m), []);
    ContentParses(m);
    hide KindText, ResponseType.ToString;
  }

  lemma NameAndBlobFormat(m: Message)
    requires Encodable(m)
    ensures ParseElements(Blocks(NameElements(m.queryName))) == Just(NumberedAll(8, m.queryName))
    ensures ParseElements(Blob(m.rrs)) == Just([Element(133, NonNegative(|m.rrs|))] + NumberedAll(134, Bodies(m.rrs)))
  {
    BlockHolds(NAME, Blocks(NameElements(m.queryName)));
    BlockHolds(RESPONSE_CONTENT_BLOB, Blob(m.rrs));
    hide Block, ParseElements, NonNegative, RRBody, FitsWire, Blocks, Blob;
    BlocksParse(NameElements(m.queryName));
    BlobParses(m.rrs);
    assert NameElements(m.queryName) == NumberedAll(8, m.queryName);
    assert RRElementsOf(m.rrs) == NumberedAll(134, Bodies(m.rrs));
  }

  lemma KindTexts(kind: ResponseType)
    ensures kind.ToString() == KindText(kind)
  {
  }

  function KindText(kind: ResponseType): string {
    match kind
    case Resp => "NDNS-Resp"
    case Nack => "NDNS-Nack"
    case Auth => "NDNS-Auth"
    case UpdateOk => "DyNDNS-OK"
    case UpdateFail => "DyNDNS-Fail"
    case UnknownResponse => "UNKNOWN"
  }

  lemma ContentParses(m: Message)
    requires Encodable(m)
    ensures ParseElements(ContentValue(m)) == Just(ContentElements(m))
  {
    hide Block, Blob, NameElements, ParseElements, ToBytes, ResponseType.ToString, NonNegative, FitsWire;
    var es := ContentElements(m);
    FourBlocks(es[0], es[1], es[2], es[3]);
    BlocksParse(es);
  }

  /** A blob is read exactly when it begins with a number of records and as many readable records
      follow; what comes behind them is ignored. */
  predicate ReadableBlob(bs: seq<Element>) {
    |bs| >= 1 && bs[0].typ == 133 && |bs[0].value| in {1, 2, 4, 8}
    && FromBigEndian(bs[0].value) < |bs|
    && forall k | 1 <= k <= FromBigEndian(bs[0].value) :: bs[k].typ == 134 && DecodeRR(bs[k], DEFAULT_RR).Just?
  }

  predicate ReadableContent(es: seq<Element>) {
    |es| >= 4 && es[0].typ == 7 && ParseElements(es[0].value).Just? && es[1].typ == 130
    && es[2].typ == 131 && |es[2].value| in {1, 2, 4, 8}
    && es[3].typ == 132 && ParseElements(es[3].value).Just? && ReadableBlob(ParseElements(es[3].value).value)
  }

  lemma {:induction false} RecordsReadExactly(es: seq<Element>, count: nat, rrLabel: Name, rrtype: RRType)
    requires |es| >= 1
    ensures DecodeRRs(es, count, rrLabel, rrtype).Just?
            <==> count < |es| && forall k | 1 <= k <= count :: es[k].typ == 134 && DecodeRR(es[k], DEFAULT_RR).Just?
  {
    hide DecodeRR;
    if count > 0 {
      RecordsReadExactly(es, count - 1, rrLabel, rrtype);
    }
  }

  /** A content is decoded exactly when it begins with these elements. */
  lemma ContentDecodesExactly(value: Bytes, before: Message)
    ensures Decode(value, before).Just?
            <==> ParseElements(value).Just? && ReadableContent(ParseElements(value).value)
  {
    hide DecodeRR, DecodeRRs, ParseElements, FromBigEndian;
    if ParseElements(value).Just? && |ParseElements(value).value| >= 4 {
      var blob := ParseElements(ParseElements(value).value[3].value);
      if blob.Just? && |blob.value| >= 1 {
        RecordsReadExactly(blob.value, FromBigEndian(blob.value[0].value), before.rrLabel, before.rrtype);
      }
    }
  }
}
