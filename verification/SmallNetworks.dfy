/** Networks of ordinary size: their answers fit the encoder, so the resolver theorems hold of them;
    and one of them resolved from end to end. */
module SmallNetworks {
  import opened DataPackets
  import opened Enums
  import opened Grammar
  import opened IterativeQuery
  import opened Managers
  import opened NameRoundTrip
  import opened NameServer
  import opened Names
  import opened Network
  import opened Protocol
  import opened QueryNames
  import opened Resolution
  import opened ResourceRecords
  import opened ResponseCodec
  import opened Tables
  import opened Tlv

  const SMALL := 0x1_0000

  predicate SmallName(n: Name) {
    |n| <= SMALL && forall c | c in n :: |c| <= SMALL
  }

  predicate SmallRow(r: RRRow) {
    r.id <= 0xFFFF_FFFF && IsOctets(r.data) && |r.data| <= SMALL
  }

  /** No more than 65536 records, each of no more than 65536 octets and with a 32-bit id. */
  predicate SmallSite(site: Site) {
    |site.tables.rrs| <= SMALL && (forall r | r in site.tables.rrs :: SmallRow(r))
    && IsOctets(Uri(site.zone.name)) && |Uri(site.zone.name)| <= SMALL && site.freshness <= MAX_NUMBER
  }

  ghost predicate SmallNet(n: Net, q: Query, rootHint: Name) {
    (forall z | z in n.sites :: SmallSite(n.sites[z])) && (forall i: Query :: |n.version(i)| <= SMALL)
    && SmallName(q.rrLabel) && SmallName(rootHint)
  }

  // ----- Sizes ---------------------------------------------------------------------------------

  lemma BlockSize(typ: nat, value: Bytes)
    ensures |Block(typ, value)| <= |value| + 18
  {
  }

  lemma RRWireSize(v: RRValue)
    requires |v.data| <= SMALL && |Uri(v.rrset.zone.name)| <= SMALL
    ensures |RRWire(v)| <= 0x2_1000
  {
    hide Block, Uri;
    BlockSize(RR_DATA_SUB1, NonNegative(v.id));
    BlockSize(RR_ZONE, ToBytes(Uri(v.rrset.zone.name)));
    BlockSize(RR_DATA_RECORD, ToBytes(v.data));
    BlockSize(RR_UPDATE_ACTION, ToBytes(v.action.ToString()));
    BlockSize(RR_DATA, RRBody(v));
    assert |v.action.ToString()| <= 11;
  }

  lemma {:induction false} RRsSize(rrs: seq<RRValue>, k: nat)
    requires k <= |rrs| && forall v | v in rrs :: |v.data| <= SMALL && |Uri(v.rrset.zone.name)| <= SMALL
    ensures |RRsFrom(rrs, k)| <= (|rrs| - k) * 0x2_1000
    decreases |rrs| - k
  {
    hide RRWire, Uri;
    if k < |rrs| {
      RRWireSize(rrs[k]);
      RRsSize(rrs, k + 1);
    }
  }

  lemma {:induction false} NameSize(n: seq<Bytes>)
    requires forall c | c in n :: |c| <= SMALL
    ensures |Blocks(NameElements(n))| <= |n| * 0x1_1000
  {
    hide Block;
    if n != [] {
      assert NameElements(n)[1..] == NameElements(n[1..]) && NameElements(n)[0] == Element(NAME_COMPONENT, n[0]);
      BlockSize(NAME_COMPONENT, n[0]);
      NameSize(n[1..]);
    }
  }

  lemma BlobSize(rrs: seq<RRValue>)
    requires |rrs| <= SMALL && forall v | v in rrs :: |v.data| <= SMALL && |Uri(v.rrset.zone.name)| <= SMALL
    ensures |Blob(rrs)| <= 0x4_0000_0000
  {
    hide Block, Uri;
    BlockSize(RESPONSE_NUMBER_OF_RR_DATA, NonNegative(|rrs|));
    RRsSize(rrs, 0);
  }

  lemma ContentSize(m: Message)
    requires |m.rrs| <= SMALL && forall v | v in m.rrs :: |v.data| <= SMALL && |Uri(v.rrset.zone.name)| <= SMALL
    requires |m.queryName| <= 4 * SMALL && forall c | c in m.queryName :: |c| <= SMALL
    ensures |ContentValue(m)| <= MAX_NUMBER
  {
    hide Block, Blob, Uri;
    BlobSize(m.rrs);
    NameSize(m.queryName);
    BlockSize(NAME, Blocks(NameElements(m.queryName)));
    BlockSize(RESPONSE_TYPE, ToBytes(m.kind.ToString()));
    BlockSize(RESPONSE_FRESHNESS, NonNegative(m.freshness));
    BlockSize(RESPONSE_CONTENT_BLOB, Blob(m.rrs));
    assert |m.kind.ToString()| <= 11;
  }

  // ----- Small networks fit --------------------------------------------------------------------

  lemma {:induction false} FilterShortens<T>(xs: seq<T>, keep: T -> bool)
    ensures |Filter(xs, keep)| <= |xs|
  {
    if xs != [] {
      FilterShortens(xs[..|xs| - 1], keep);
    }
  }

  /** The records of a small site's reply. */
  lemma SmallReply(site: Site, i: Query)
    requires SmallSite(site)
    ensures var rrs := QueryReply(site.tables, site.zone, i).rrs;
            |rrs| <= SMALL
            && forall v | v in rrs :: FitsWire(v) && |v.data| <= SMALL && |Uri(v.rrset.zone.name)| <= SMALL
  {
    hide JoinCount, RRSetId, Uri, IsOctets;
    var rrset := QueriedSet(site.tables, site.zone, i);
    var rows := Select(site.tables.rrs, rrset.id);
    FilterShortens(site.tables.rrs, InSet(rrset.id));
    SelectMembers(site.tables.rrs, rrset.id);
    assert |rows| <= SMALL;
    hide Select;
    forall v | v in RRsOf(rows, rrset)
      ensures FitsWire(v) && |v.data| <= SMALL && |Uri(v.rrset.zone.name)| <= SMALL
    {
      var k :| 0 <= k < |rows| && RRsOf(rows, rrset)[k] == v;
      assert rows[k] in rows && SmallRow(rows[k]);
    }
  }

  /** The components of a printed name, and their number. */
  lemma PrintedComponents(i: Query, version: Component)
    ensures |Printed(i, [version])| <= |i.hint| + |i.zone| + |i.rrLabel| + 4
    ensures forall c | c in Printed(i, [version]) ::
              c in i.hint || c in i.zone || c in i.rrLabel
              || c == MARKER || c == i.queryType.ToString() || c == i.rrtype.ToString() || c == version
  {
    hide QueryType.ToString, RRType.ToString;
  }

  lemma SmallPrinted(i: Query, version: Component)
    requires SmallName(i.hint) && SmallName(i.zone) && SmallName(i.rrLabel) && |version| <= SMALL
    ensures var name := NameBytes(Printed(i, [version]));
            |name| <= 4 * SMALL && forall c | c in name :: |c| <= SMALL
  {
    assert |i.queryType.ToString()| <= 12 && |i.rrtype.ToString()| <= 12;
    hide QueryType.ToString, RRType.ToString, Printed, NameBytes;
    PrintedComponents(i, version);
    BytesOfName(Printed(i, [version]));
  }

  lemma BytesOfName(n: Name)
    requires forall c | c in n :: |c| <= SMALL
    ensures |NameBytes(n)| == |n| && forall c | c in NameBytes(n) :: |c| <= SMALL
  {
    forall c | c in NameBytes(n)
      ensures |c| <= SMALL
    {
      var k :| 0 <= k < |n| && NameBytes(n)[k] == c;
      assert n[k] in n;
    }
  }

  lemma SmallFits(n: Net, i: Query)
    requires i.zone in n.sites ==> SmallSite(n.sites[i.zone])
    requires SmallName(i.hint) && SmallName(i.zone) && SmallName(i.rrLabel) && |n.version(i)| <= SMALL
    ensures Fits(n, i)
  {
    hide ContentValue, QueryReply, Printed, NameBytes, FitsWire, SmallName, Uri;
    if i.zone in n.sites {
      var site := n.sites[i.zone];
      SmallReply(site, i);
      SmallPrinted(i, n.version(i));
      ContentSize(ReplyMessage(n, i, QueryReply(site.tables, site.zone, i)));
    }
  }

  lemma {:induction false} SplitSize(s: string, piece: string)
    requires '/' !in piece
    ensures |Split(s, piece)| <= |s| + if piece == "" then 0 else 1
    ensures forall c | c in Split(s, piece) :: |c| <= |s| + |piece|
    decreases |s|
  {
    if s != "" {
      SplitSize(s[1..], if s[0] == '/' then "" else piece + [s[0]]);
    }
  }

  /** A name in a record of the network is the text of some row. */
  lemma ViewData(t: Tables, zoneId: nat, k: RecordKey, d: string)
    requires k in View(t, zoneId) && d in View(t, zoneId)[k]
    ensures exists r | r in t.rrs :: r.data == d
  {
    hide RRSetId;
    var rows := Select(t.rrs, RRSetId(t.rrsets, zoneId, k.rrLabel, k.rrtype));
    SelectMembers(t.rrs, RRSetId(t.rrsets, zoneId, k.rrLabel, k.rrtype));
    hide Select;
    assert View(t, zoneId)[k] == Datas(rows);
    var j :| 0 <= j < |rows| && Datas(rows)[j] == d;
    assert rows[j] in rows;
  }

  lemma SmallRecord(n: Net, z: Name, k: RecordKey, d: string)
    requires z in n.sites && SmallSite(n.sites[z])
    requires k in WorldOf(n)[z] && d in WorldOf(n)[z][k]
    ensures SmallName(ParseName(d))
  {
    hide View, Uri, IsOctets, Split;
    var site := n.sites[z];
    assert WorldOf(n)[z] == View(site.tables, site.zone.id);
    ViewData(site.tables, site.zone.id, k, d);
    var r :| r in site.tables.rrs && r.data == d;
    assert SmallRow(r);
    SplitSize(d, "");
  }

  lemma SmallPart(n: Name, part: Name, rest: Name)
    requires SmallName(n) && part + rest <= n
    ensures SmallName(part) && SmallName(rest)
  {
    assert forall c | c in part :: c in part + rest;
    assert forall c | c in rest :: c in part + rest;
    assert forall c | c in n[..|part + rest|] :: c in n;
  }

  /** The names in an Interest that a resolution can send are small. */
  lemma SmallInterest(s: Strategy, n: Net, q: Query, rootHint: Name, i: Query)
    requires SmallNet(n, q, rootHint) && Askable(s, WorldOf(n), q, rootHint, i)
    ensures SmallName(i.hint) && SmallName(i.zone) && SmallName(i.rrLabel)
  {
    hide SmallName, ParseName, SmallSite;
    var w := WorldOf(n);
    if i.hint != rootHint {
      var z, k, d :| z in w && k in w[z] && d in w[z][k] && k.rrtype == FH && i.hint == ParseName(d);
      SmallRecord(n, z, k, d);
    }
    SmallPart(q.rrLabel, i.zone, []);
    if i.zone + i.rrLabel <= q.rrLabel {
      SmallPart(q.rrLabel, i.zone, i.rrLabel);
    } else {
      var k, d :| k in w[i.zone] && d in w[i.zone][k] && k.rrtype == NS && i.rrLabel == ParseName(d);
      SmallRecord(n, i.zone, k, d);
    }
  }

  /** What the resolver theorems ask of the encoder holds of every network of ordinary size. */
  lemma SmallNetFits(s: Strategy, n: Net, q: Query, rootHint: Name)
    requires SmallNet(n, q, rootHint)
    ensures AllFit(s, n, q, rootHint)
  {
    hide SmallName, SmallSite, Askable, Fits, WorldOf;
    forall i: Query | Askable(s, WorldOf(n), q, rootHint, i)
      ensures Fits(n, i)
    {
      SmallInterest(s, n, q, rootHint, i);
      SmallFits(n, i);
    }
  }
}
