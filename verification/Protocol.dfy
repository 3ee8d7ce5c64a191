/** The messages of the resolution protocol and the answers of an honest, static set of zones. */
module Protocol {
  import opened Enums
  import opened Like
  import opened Names

  datatype Option<+T> = Nothing | Just(value: T)

  /** What a resolver reads of a response: its kind and the data of its records. */
  datatype Response = Response(kind: ResponseType, rrs: seq<string>)

  /** A query, which is also what the name of an Interest carries. */
  datatype Query = Query(hint: Name, zone: Name, queryType: QueryType, rrLabel: Name, rrtype: RRType)

  datatype RecordKey = RecordKey(rrLabel: Name, rrtype: RRType)

  /** A zone's records, per label and type. */
  type ZoneView = map<RecordKey, seq<string>>

  type World = map<Name, ZoneView>

  function Records(v: ZoneView, rrLabel: Name, rrtype: RRType): seq<string> {
    if RecordKey(rrLabel, rrtype) in v then v[RecordKey(rrLabel, rrtype)] else []
  }

  /** Some record of this type is stored under an extension of the label. */
  predicate HasAuth(v: ZoneView, rrLabel: Name, rrtype: RRType) {
    exists k | k in v :: k.rrtype == rrtype && v[k] != [] && Extends(rrLabel, k.rrLabel)
  }

  function Answer(v: ZoneView, rrLabel: Name, rrtype: RRType): Response {
    var rrs := Records(v, rrLabel, rrtype);
    if rrs != [] then Response(Resp, rrs)
    else if rrtype == NS && HasAuth(v, rrLabel, NS) then Response(Auth, [])
    else Response(Nack, [])
  }

  /** The reply of the network: silence for a zone nobody serves, and for an empty label,
      which the query grammar does not match. */
  function Serve(w: World, i: Query): Option<Response> {
    if i.zone in w && i.rrLabel != [] then Just(Answer(w[i.zone], i.rrLabel, i.rrtype)) else Nothing
  }

  predicate Delegated(v: ZoneView, rrLabel: Name) {
    Records(v, rrLabel, NS) != []
  }

  /** No non-empty prefix of `r` shorter than `j` components is delegated. */
  predicate NoCutBelow(v: ZoneView, r: Name, j: nat) {
    forall i | 1 <= i < j && i <= |r| :: !Delegated(v, r[..i])
  }

  predicate IsShortestCut(v: ZoneView, r: Name, m: nat) {
    1 <= m <= |r| && Delegated(v, r[..m]) && NoCutBelow(v, r, m)
  }

  /** The length of the shortest delegated prefix of `r`, if any prefix is delegated. */
  function ShortestCut(v: ZoneView, r: Name): (m: Option<nat>)
    ensures m.Just? ==> IsShortestCut(v, r, m.value)
    ensures m.Nothing? ==> NoCutBelow(v, r, |r| + 1)
  {
    CutFrom(v, r, 1)
  }

  function CutFrom(v: ZoneView, r: Name, j: nat): (m: Option<nat>)
    requires 1 <= j && NoCutBelow(v, r, j)
    ensures m.Just? ==> IsShortestCut(v, r, m.value)
    ensures m.Nothing? ==> NoCutBelow(v, r, |r| + 1)
    decreases |r| + 1 - j
  {
    if j > |r| then Nothing
    else if Delegated(v, r[..j]) then Just(j)
    else CutFrom(v, r, j + 1)
  }

  lemma ShortestCutUnique(v: ZoneView, r: Name, m: nat)
    requires IsShortestCut(v, r, m)
    ensures ShortestCut(v, r) == Just(m)
  {
    assert ShortestCut(v, r).Just?;
  }

  /** Auth is monotone in the prefix. */
  lemma HasAuthMonotone(v: ZoneView, shorter: Name, longer: Name, rrtype: RRType)
    requires shorter != [] && shorter <= longer && HasAuth(v, longer, rrtype)
    ensures HasAuth(v, shorter, rrtype)
  {
    var k :| k in v && k.rrtype == rrtype && v[k] != [] && Extends(longer, k.rrLabel);
    ExtendsMonotone(shorter, longer, k.rrLabel);
  }

  /** Every non-empty strict prefix of a delegated label has Auth. */
  lemma HasAuthAbove(v: ZoneView, shorter: Name, longer: Name)
    requires shorter != [] && shorter < longer && Delegated(v, longer)
    ensures HasAuth(v, shorter, NS)
  {
    ExtendsOwnExtension(shorter, longer);
    assert RecordKey(longer, NS) in v && v[RecordKey(longer, NS)] != [];
  }
}
