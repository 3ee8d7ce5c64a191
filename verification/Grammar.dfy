/** The regular expressions that names of queries and updates are matched against:

      ((/.*)%F0\.)?(/.*)/?(query type)(/.*)/(record type)(.*)

    A greedy `.*` is tried longest first, so each of them ends at the last position from which
    the rest of the expression still matches; alternatives are tried in the order written. */
module Grammar {
  import opened Names
  import opened Protocol

  datatype Grammar = Grammar(queryTypes: seq<string>, rrTypes: seq<string>)

  const QUERY_NAMES := Grammar(["DNS-R", "DNS"], ["FH", "TXT", "NS", "ID-CERT"])

  const UPDATE_NAMES := Grammar(["DNS"], ["DYNDNSUPDATE"])

  const MARKER: string := "%F0."

  datatype Body = Body(zone: string, queryType: string, rrLabel: string, rrtype: string)

  datatype Captures = Captures(hint: string, body: Body)

  // ----- Matching text -------------------------------------------------------------------------

  /** The first alternative that starts the text. */
  function FirstPrefix(alternatives: seq<string>, r: string): Option<string> {
    if alternatives == [] then Nothing
    else if alternatives[0] <= r then Just(alternatives[0])
    else FirstPrefix(alternatives[1..], r)
  }

  /** `.*` followed by a slash, a record type and anything: the text before and the type. */
  function LabelTail(g: Grammar, r: string): Option<(string, string)> {
    if r == "" then Nothing
    else match LabelTail(g, r[1..])
      case Just((p, t)) => Just(([r[0]] + p, t))
      case Nothing =>
        if r[0] != '/' then Nothing
        else match FirstPrefix(g.rrTypes, r[1..])
          case Nothing => Nothing
          case Just(t) => Just(("", t))
  }

  /** The label, which starts with a slash. */
  function MatchLabel(g: Grammar, r: string): Option<(string, string)> {
    if r == "" || r[0] != '/' then Nothing
    else match LabelTail(g, r[1..])
      case Nothing => Nothing
      case Just((p, t)) => Just(("/" + p, t))
  }

  /** A query type, then label and record type. */
  function MatchQueryType(g: Grammar, alternatives: seq<string>, r: string): Option<Body> {
    if alternatives == [] then Nothing
    else if alternatives[0] <= r && MatchLabel(g, r[|alternatives[0]|..]).Just? then
      var m := MatchLabel(g, r[|alternatives[0]|..]).value;
      Just(Body("", alternatives[0], m.0, m.1))
    else MatchQueryType(g, alternatives[1..], r)
  }

  /** The optional slash, preferably taken. */
  function MatchZoneEnd(g: Grammar, r: string): Option<Body> {
    if r != "" && r[0] == '/' && MatchQueryType(g, g.queryTypes, r[1..]).Just?
    then MatchQueryType(g, g.queryTypes, r[1..])
    else MatchQueryType(g, g.queryTypes, r)
  }

  /** `.*` followed by the end of the zone and what comes after it. */
  function ZoneTail(g: Grammar, r: string): Option<Body> {
    if r == "" then Nothing
    else match ZoneTail(g, r[1..])
      case Just(b) => Just(b.(zone := [r[0]] + b.zone))
      case Nothing => MatchZoneEnd(g, r)
  }

  function MatchBody(g: Grammar, r: string): Option<Body> {
    if r == "" || r[0] != '/' then Nothing
    else match ZoneTail(g, r[1..])
      case Nothing => Nothing
      case Just(b) => Just(b.(zone := "/" + b.zone))
  }

  /** `.*` followed by the hint marker and a body. */
  function HintTail(g: Grammar, r: string): Option<(string, Body)> {
    if r == "" then Nothing
    else match HintTail(g, r[1..])
      case Just((h, b)) => Just(([r[0]] + h, b))
      case Nothing =>
        if MARKER <= r && MatchBody(g, r[|MARKER|..]).Just? then Just(("", MatchBody(g, r[|MARKER|..]).value))
        else Nothing
  }

  /** The whole expression; the hint group is skipped only if it cannot match. */
  function Match(g: Grammar, s: string): Option<Captures> {
    if s != "" && s[0] == '/' && HintTail(g, s[1..]).Just? then
      var m := HintTail(g, s[1..]).value;
      Just(Captures("/" + m.0, m.1))
    else match MatchBody(g, s)
      case Nothing => Nothing
      case Just(b) => Just(Captures("", b))
  }

  // ----- Matching component by component -------------------------------------------------------

  predicate SlashFree(alternatives: seq<string>) {
    forall a | a in alternatives :: a != "" && '/' !in a
  }

  predicate Proper(g: Grammar) {
    SlashFree(g.queryTypes) && SlashFree(g.rrTypes)
  }

  /** The last component that starts with a record type. */
  function LastTyped(g: Grammar, cs: Name): (r: Option<(nat, string)>)
    ensures r.Just? ==> r.value.0 < |cs|
  {
    if cs == [] then Nothing
    else match LastTyped(g, cs[1..])
      case Just((t, ty)) => Just((t + 1, ty))
      case Nothing =>
        match FirstPrefix(g.rrTypes, cs[0])
        case Nothing => Nothing
        case Just(ty) => Just((0, ty))
  }

  /** The number of label components in front of the record type; at least one. */
  function FindLabel(g: Grammar, cs: Name): (r: Option<(nat, string)>)
    ensures r.Just? ==> 0 < r.value.0 < |cs|
  {
    if cs == [] then Nothing
    else match LastTyped(g, cs[1..])
      case Nothing => Nothing
      case Just((t, ty)) => Just((t + 1, ty))
  }

  /** Where the shortest suffix that is an alternative begins. */
  function SuffixAt(alternatives: seq<string>, c: string): (r: Option<nat>)
    ensures r.Just? ==> r.value < |c|
  {
    if c == "" then Nothing
    else match SuffixAt(alternatives, c[1..])
      case Just(i) => Just(i + 1)
      case Nothing => if c in alternatives then Just(0) else Nothing
  }

  /** A zone's end: the component, where its query type begins, and the label behind it. */
  datatype ZoneAt = ZoneAt(at: nat, cut: nat, labels: nat, rrtype: string)

  predicate ZoneInside(z: ZoneAt, cs: Name) {
    z.at < |cs| && z.cut < |cs[z.at]| && z.at + 1 + z.labels <= |cs|
  }

  /** The last component that ends in a query type with a label and a record type after it. */
  function FindZone(g: Grammar, cs: Name): (r: Option<ZoneAt>)
    ensures r.Just? ==> ZoneInside(r.value, cs)
  {
    if cs == [] then Nothing
    else match FindZone(g, cs[1..])
      case Just(z) => Just(z.(at := z.at + 1))
      case Nothing => ZoneHere(g, cs)
  }

  function ZoneHere(g: Grammar, cs: Name): (r: Option<ZoneAt>)
    requires cs != []
    ensures r.Just? ==> ZoneInside(r.value, cs)
  {
    if SuffixAt(g.queryTypes, cs[0]).Just? && FindLabel(g, cs[1..]).Just? then
      var found := FindLabel(g, cs[1..]).value;
      Just(ZoneAt(0, SuffixAt(g.queryTypes, cs[0]).value, found.0, found.1))
    else Nothing
  }

  /** A hint's end: the component, where the marker in it begins, and the zone behind it. */
  datatype HintAt = HintAt(at: nat, cut: nat, zone: ZoneAt)

  predicate HintInside(h: HintAt, cs: Name) {
    h.at < |cs| && h.cut < |cs[h.at]| && ZoneInside(h.zone.(at := h.at + 1 + h.zone.at), cs)
  }

  /** The last component that ends in the marker with a body after it. */
  function FindHint(g: Grammar, cs: Name): (r: Option<HintAt>)
    ensures r.Just? ==> HintInside(r.value, cs)
  {
    if cs == [] then Nothing
    else match FindHint(g, cs[1..])
      case Just(h) => Just(h.(at := h.at + 1))
      case Nothing =>
        if SuffixAt([MARKER], cs[0]).Just? && FindZone(g, cs[1..]).Just?
        then Just(HintAt(0, SuffixAt([MARKER], cs[0]).value, FindZone(g, cs[1..]).value))
        else Nothing
  }

  /** The text up to character `i` of component `j`, with that component's slash. */
  function UpTo(cs: Name, j: nat, i: nat): string
    requires j < |cs| && i <= |cs[j]|
  {
    Slashed(cs[..j]) + "/" + cs[j][..i]
  }

  function LabelCapture(g: Grammar, c: string, zone: string, cs: Name): Body
    requires FindLabel(g, cs).Just?
  {
    var m := FindLabel(g, cs).value;
    Body(zone, c, Slashed(cs[..m.0]), m.1)
  }

  function BodyCapture(cs: Name, z: ZoneAt): Body
    requires ZoneInside(z, cs)
  {
    Body(UpTo(cs, z.at, z.cut), cs[z.at][z.cut..], Slashed(cs[z.at + 1..][..z.labels]), z.rrtype)
  }

  function ZoneCapture(cs: Name, z: Option<ZoneAt>): Option<Body>
    requires z.Just? ==> ZoneInside(z.value, cs)
  {
    if z.Just? then Just(BodyCapture(cs, z.value)) else Nothing
  }

  function HintCapture(cs: Name, h: Option<HintAt>): Option<(string, Body)>
    requires h.Just? ==> HintInside(h.value, cs)
  {
    if h.Just?
    then Just((UpTo(cs, h.value.at, h.value.cut), BodyCapture(cs[h.value.at + 1..], h.value.zone)))
    else Nothing
  }

  function MatchName(g: Grammar, cs: Name): Option<Captures> {
    var hint, zone := HintCapture(cs, FindHint(g, cs)), ZoneCapture(cs, FindZone(g, cs));
    if hint.Just? then Just(Captures(hint.value.0, hint.value.1))
    else if zone.Just? then Just(Captures("", zone.value))
    else Nothing
  }

  // ----- Both matchings agree ------------------------------------------------------------------

  /** A slash-free alternative starts a component's text exactly if it starts the component. */
  lemma {:induction false} FirstPrefixPiece(alternatives: seq<string>, c: string, rest: string)
    requires SlashFree(alternatives) && (rest == "" || rest[0] == '/')
    ensures FirstPrefix(alternatives, c + rest) == FirstPrefix(alternatives, c)
  {
    if alternatives != [] {
      var a := alternatives[0];
      assert a in alternatives && forall x | x in alternatives[1..] :: x in alternatives;
      PrefixOfPiece(a, c, rest);
      FirstPrefixPiece(alternatives[1..], c, rest);
    }
  }

  lemma PrefixOfPiece(a: string, c: string, rest: string)
    requires '/' !in a && (rest == "" || rest[0] == '/')
    ensures a <= c + rest <==> a <= c
  {
    if |c| < |a| <= |c + rest| {
      assert a[|c|] in a;
      assert (c + rest)[..|a|][|c|] == '/';
    } else if |a| <= |c| {
      assert (c + rest)[..|a|] == c[..|a|];
    }
  }

  lemma {:induction false} LabelTailPiece(g: Grammar, c: string, rest: string)
    requires '/' !in c
    ensures LabelTail(g, c + rest) == match LabelTail(g, rest)
                                      case Just((p, t)) => Just((c + p, t))
                                      case Nothing => Nothing
  {
    if c == "" {
      assert c + rest == rest;
      assert forall p: string :: "" + p == p;
    } else {
      assert (c + rest)[1..] == c[1..] + rest;
      assert c[0] in c && forall x | x in c[1..] :: x in c;
      LabelTailPiece(g, c[1..], rest);
      assert forall p: string :: [c[0]] + (c[1..] + p) == c + p;
    }
  }

  /** The text of the components before the one found, and the type found. */
  function TextBefore(cs: Name, found: Option<(nat, string)>): Option<(string, string)>
    requires found.Just? ==> found.value.0 <= |cs|
  {
    if found.Just? then Just((Slashed(cs[..found.value.0]), found.value.1)) else Nothing
  }

  lemma SlashedTake(cs: Name, t: nat)
    requires cs != [] && t <= |cs[1..]|
    ensures Slashed(cs[..t + 1]) == "/" + (cs[0] + Slashed(cs[1..][..t]))
  {
    assert cs[..t + 1][1..] == cs[1..][..t];
    assert cs[..t + 1][0] == cs[0];
  }

  lemma {:induction false} LabelTailName(g: Grammar, cs: Name)
    requires Proper(g)
    ensures LabelTail(g, Slashed(cs)) == TextBefore(cs, LastTyped(g, cs))
  {
    if cs != [] {
      var rest := Slashed(cs[1..]);
      LabelTailName(g, cs[1..]);
      assert Slashed(cs) == "/" + (cs[0] + rest);
      LabelTailPiece(g, cs[0], rest);
      FirstPrefixPiece(g.rrTypes, cs[0], rest);
      if LastTyped(g, cs[1..]).Just? {
        SlashedTake(cs, LastTyped(g, cs[1..]).value.0);
      }
    }
  }

  lemma MatchLabelName(g: Grammar, cs: Name)
    requires Proper(g)
    ensures MatchLabel(g, Slashed(cs)) == TextBefore(cs, FindLabel(g, cs))
  {
    if cs != [] {
      var rest := Slashed(cs[1..]);
      assert Slashed(cs) == "/" + (cs[0] + rest);
      LabelTailPiece(g, cs[0], rest);
      LabelTailName(g, cs[1..]);
      if LastTyped(g, cs[1..]).Just? {
        SlashedTake(cs, LastTyped(g, cs[1..]).value.0);
      }
    }
  }

  /** A query type is matched against a whole rest of a component, or not at all. */
  lemma {:induction false} MatchQueryTypePiece(g: Grammar, alternatives: seq<string>, c: string, cs: Name)
    requires Proper(g) && SlashFree(alternatives) && '/' !in c
    ensures MatchQueryType(g, alternatives, c + Slashed(cs))
            == if c in alternatives && FindLabel(g, cs).Just? then Just(LabelCapture(g, c, "", cs)) else Nothing
  {
    if alternatives != [] {
      var a, r := alternatives[0], c + Slashed(cs);
      assert a in alternatives && forall x | x in alternatives[1..] :: x in alternatives;
      PrefixOfPiece(a, c, Slashed(cs));
      MatchQueryTypePiece(g, alternatives[1..], c, cs);
      MatchLabelName(g, cs);
      if a <= c && a != c {
        assert r[|a|..][0] == c[|a|] && c[|a|] in c;
      } else if a == c {
        assert r[|a|..] == Slashed(cs);
      }
    }
  }

  lemma {:induction false} ZoneTailPiece(g: Grammar, c: string, cs: Name)
    requires Proper(g) && '/' !in c
    ensures ZoneTail(g, c + Slashed(cs))
            == match ZoneTail(g, Slashed(cs))
               case Just(b) => Just(b.(zone := c + b.zone))
               case Nothing =>
                 if SuffixAt(g.queryTypes, c).Just? && FindLabel(g, cs).Just?
                 then Just(LabelCapture(g, c[SuffixAt(g.queryTypes, c).value..],
                                        c[..SuffixAt(g.queryTypes, c).value], cs))
                 else Nothing
  {
    hide FindLabel, Slashed;
    if c == "" {
      assert c + Slashed(cs) == Slashed(cs);
      assert forall z: string :: "" + z == z;
    } else {
      assert (c + Slashed(cs))[1..] == c[1..] + Slashed(cs);
      assert c[0] in c && forall x | x in c[1..] :: x in c;
      ZoneTailPiece(g, c[1..], cs);
      MatchQueryTypePiece(g, g.queryTypes, c, cs);
      assert forall z: string :: [c[0]] + (c[1..] + z) == c + z;
      if SuffixAt(g.queryTypes, c[1..]).Just? {
        var i := SuffixAt(g.queryTypes, c[1..]).value;
        assert c[1..][i..] == c[i + 1..] && [c[0]] + c[1..][..i] == c[..i + 1];
      }
    }
  }

  lemma {:induction false} ZoneTailName(g: Grammar, cs: Name)
    requires Proper(g)
    ensures ZoneTail(g, Slashed(cs)) == ZoneCapture(cs, FindZone(g, cs))
    ensures MatchBody(g, Slashed(cs)) == ZoneTail(g, Slashed(cs))
  {
    if cs != [] {
      ZoneTailName(g, cs[1..]);
      ZoneTailPiece(g, cs[0], cs[1..]);
      var rest := cs[0] + Slashed(cs[1..]);
      assert Slashed(cs) == "/" + rest;
      FindZoneCons(g, cs);
      hide FindZone, BodyCapture;
      assert ("/" + rest)[1..] == rest;
      if ZoneTail(g, rest).Nothing? {
        NoZoneEnd(g, cs[0], cs[1..]);
      }
    }
  }

  function ZoneFirst(g: Grammar, c: string, cs: Name): Option<Body> {
    match ZoneCapture(cs, FindZone(g, cs))
    case Just(b) => Just(b.(zone := c + b.zone))
    case Nothing =>
      if SuffixAt(g.queryTypes, c).Just? && FindLabel(g, cs).Just?
      then var i := SuffixAt(g.queryTypes, c).value; Just(LabelCapture(g, c[i..], c[..i], cs))
      else Nothing
  }

  function BodyWithSlash(b: Option<Body>): Option<Body> {
    match b
    case Just(x) => Just(x.(zone := "/" + x.zone))
    case Nothing => Nothing
  }

  lemma FindZoneCons(g: Grammar, cs: Name)
    requires cs != []
    ensures ZoneCapture(cs, FindZone(g, cs)) == BodyWithSlash(ZoneFirst(g, cs[0], cs[1..]))
  {
    hide FindLabel, SuffixAt, Slashed, UpTo;
    if FindZone(g, cs[1..]).Just? {
      var z := FindZone(g, cs[1..]).value;
      UpToCons(cs, z.at, z.cut);
    } else if FindZone(g, cs).Just? {
      UpToFirst(cs, FindZone(g, cs).value.cut);
    }
  }

  /** The optional slash before a query type is never needed: the zone takes it. */
  lemma NoZoneEnd(g: Grammar, c: Component, cs: Name)
    requires Proper(g) && ZoneTail(g, c + Slashed(cs)).Nothing?
    ensures MatchZoneEnd(g, "/" + (c + Slashed(cs))).Nothing?
  {
    var r := c + Slashed(cs);
    SlashStartsNoType(g, g.queryTypes, r);
    assert ("/" + r)[1..] == r;
    assert MatchZoneEnd(g, r).Nothing?;
  }

  lemma UpToFirst(cs: Name, i: nat)
    requires cs != [] && i <= |cs[0]|
    ensures UpTo(cs, 0, i) == "/" + cs[0][..i]
  {
  }

  lemma UpToCons(cs: Name, j: nat, i: nat)
    requires cs != [] && j < |cs[1..]| && i <= |cs[1..][j]|
    ensures UpTo(cs, j + 1, i) == "/" + (cs[0] + UpTo(cs[1..], j, i))
    ensures cs[j + 1 + 1..] == cs[1..][j + 1..]
  {
    assert cs[..j + 1][1..] == cs[1..][..j];
    assert Slashed(cs[..j + 1]) == "/" + cs[0] + Slashed(cs[1..][..j]);
  }

  lemma {:induction false} SlashStartsNoType(g: Grammar, alternatives: seq<string>, r: string)
    requires SlashFree(alternatives)
    ensures MatchQueryType(g, alternatives, "/" + r) == Nothing
  {
    if alternatives != [] {
      var a := alternatives[0];
      assert a in alternatives && forall x | x in alternatives[1..] :: x in alternatives;
      SlashStartsNoType(g, alternatives[1..], r);
      assert a[0] in a && ("/" + r)[0] == '/';
    }
  }

  lemma {:induction false} HintTailPiece(g: Grammar, c: string, cs: Name)
    requires Proper(g) && '/' !in c
    ensures HintTail(g, c + Slashed(cs))
            == match HintTail(g, Slashed(cs))
               case Just((h, b)) => Just((c + h, b))
               case Nothing =>
                 if SuffixAt([MARKER], c).Just? && FindZone(g, cs).Just?
                 then Just((c[..SuffixAt([MARKER], c).value], BodyCapture(cs, FindZone(g, cs).value)))
                 else Nothing
  {
    if c == "" {
      assert c + Slashed(cs) == Slashed(cs);
      assert forall z: string :: "" + z == z;
    } else {
      var r := c + Slashed(cs);
      assert r[1..] == c[1..] + Slashed(cs);
      assert c[0] in c && forall x | x in c[1..] :: x in c;
      HintTailPiece(g, c[1..], cs);
      assert forall z: string :: [c[0]] + (c[1..] + z) == c + z;
      if SuffixAt([MARKER], c[1..]).Just? {
        var i := SuffixAt([MARKER], c[1..]).value;
        assert [c[0]] + c[1..][..i] == c[..i + 1];
      }
      MarkerPiece(g, c, cs);
    }
  }

  /** The marker with a body after it must end its component. */
  lemma MarkerPiece(g: Grammar, c: string, cs: Name)
    requires Proper(g) && '/' !in c
    ensures var r := c + Slashed(cs);
            (MARKER <= r && MatchBody(g, r[|MARKER|..]).Just?) <==> c == MARKER && FindZone(g, cs).Just?
    ensures c == MARKER && FindZone(g, cs).Just?
            ==> MatchBody(g, (c + Slashed(cs))[|MARKER|..]) == Just(BodyCapture(cs, FindZone(g, cs).value))
  {
    var r := c + Slashed(cs);
    PrefixOfPiece(MARKER, c, Slashed(cs));
    ZoneTailName(g, cs);
    if MARKER <= c && MARKER != c {
      assert r[|MARKER|..][0] == c[|MARKER|] && c[|MARKER|] in c;
    } else if MARKER == c {
      assert r[|MARKER|..] == Slashed(cs);
    }
  }

  function WithSlash(r: Option<(string, Body)>): Option<(string, Body)> {
    match r
    case Just((h, b)) => Just(("/" + h, b))
    case Nothing => Nothing
  }

  function HintFirst(g: Grammar, c: string, cs: Name): Option<(string, Body)> {
    match HintCapture(cs, FindHint(g, cs))
    case Just((h, b)) => Just((c + h, b))
    case Nothing =>
      if SuffixAt([MARKER], c).Just? && FindZone(g, cs).Just?
      then Just((c[..SuffixAt([MARKER], c).value], BodyCapture(cs, FindZone(g, cs).value))) else Nothing
  }

  lemma HintCaptureCons(g: Grammar, cs: Name)
    requires cs != []
    ensures HintCapture(cs, FindHint(g, cs)) == WithSlash(HintFirst(g, cs[0], cs[1..]))
  {
    hide FindZone, BodyCapture, SuffixAt, Slashed, UpTo;
    if FindHint(g, cs[1..]).Just? {
      var h := FindHint(g, cs[1..]).value;
      UpToCons(cs, h.at, h.cut);
    } else if FindHint(g, cs).Just? {
      UpToFirst(cs, FindHint(g, cs).value.cut);
    }
  }

  lemma HintTailSlash(g: Grammar, r: string)
    ensures HintTail(g, "/" + r) == WithSlash(HintTail(g, r))
  {
    assert ("/" + r)[1..] == r && ("/" + r)[0] == '/';
  }

  lemma {:induction false} HintTailName(g: Grammar, cs: Name)
    requires Proper(g)
    ensures HintTail(g, Slashed(cs)) == HintCapture(cs, FindHint(g, cs))
    ensures cs != [] ==> HintTail(g, Slashed(cs)) == WithSlash(HintTail(g, Slashed(cs)[1..]))
  {
    if cs != [] {
      var rest := cs[0] + Slashed(cs[1..]);
      HintTailName(g, cs[1..]);
      assert Slashed(cs) == "/" + rest;
      HintTailPiece(g, cs[0], cs[1..]);
      HintTailSlash(g, rest);
      HintCaptureCons(g, cs);
      assert ("/" + rest)[1..] == rest;
    }
  }

  /** Matching the text of a name is matching its components. */
  lemma MatchIsMatchName(g: Grammar, cs: Name)
    requires Proper(g) && cs != []
    ensures Match(g, Uri(cs)) == MatchName(g, cs)
  {
    HintTailName(g, cs);
    ZoneTailName(g, cs);
  }
}
