/** When reading a printed name recovers what was printed, exactly. */
module NameRoundTrip {
  import opened Enums
  import opened Grammar
  import opened Names
  import opened Protocol
  import opened QueryNames

  // ----- Which names can be read back ----------------------------------------------------------

  predicate EndsIn(alternatives: seq<string>, c: string) {
    exists i | 0 <= i < |c| :: c[i..] in alternatives
  }

  /** What the grammar can express: its query types and record types. */
  predicate Speaks(g: Grammar, q: Query) {
    (g == QUERY_NAMES && q.queryType in {Dns, DnsR} && q.rrtype in {FH, TXT, NS, IdCert})
    || (g == UPDATE_NAMES && q.queryType == Dns && q.rrtype == DyndnsUpdate)
  }

  /** Components after the record type do not start with a record type. */
  predicate Untyped(g: Grammar, suffix: Name) {
    forall c | c in suffix :: FirstPrefix(g.rrTypes, c).Nothing?
  }

  /** No zone component ends in the marker, and no label component but the last ends in a query
      type. */
  predicate Readable(g: Grammar, q: Query) {
    (forall c | c in q.zone :: !EndsIn([MARKER], c))
    && forall i | 0 <= i < |q.rrLabel| - 1 :: !EndsIn(g.queryTypes, q.rrLabel[i])
  }

  lemma {:induction false} SuffixAtExactly(alternatives: seq<string>, c: string)
    ensures SuffixAt(alternatives, c).Just? <==> EndsIn(alternatives, c)
    ensures SuffixAt(alternatives, c).Just? ==> c[SuffixAt(alternatives, c).value..] in alternatives
  {
    if c != "" {
      SuffixAtExactly(alternatives, c[1..]);
      assert c[0..] == c;
      if i :| 0 <= i < |c[1..]| && c[1..][i..] in alternatives {
        assert c[1..][i..] == c[i + 1..];
      }
      if i :| 0 < i < |c| && c[i..] in alternatives {
        assert c[i..] == c[1..][i - 1..];
      }
      if SuffixAt(alternatives, c[1..]).Just? {
        assert c[1..][SuffixAt(alternatives, c[1..]).value..] == c[SuffixAt(alternatives, c[1..]).value + 1..];
      }
    }
  }

  /** What the proofs use of the query type and record type of a printed name. */
  predicate Typed(g: Grammar, qt: string, t: string) {
    Proper(g) && qt in g.queryTypes && SuffixAt(g.queryTypes, qt) == Just(0)
    && SuffixAt([MARKER], qt) == Nothing && !(MARKER <= qt) && IsComponent(qt) && IsComponent(t)
    && FirstPrefix(g.rrTypes, t) == Just(t) && SuffixAt(g.queryTypes, MARKER) == Nothing
    && SuffixAt([MARKER], MARKER) == Just(0)
  }

  lemma MarkerSuffixes()
    ensures SuffixAt([MARKER], "%F0.") == Just(0)
    ensures SuffixAt(QUERY_NAMES.queryTypes, "%F0.") == Nothing == SuffixAt(UPDATE_NAMES.queryTypes, "%F0.")
  {
    assert "%F0."[1..] == "F0." && "F0."[1..] == "0." && "0."[1..] == "." && "."[1..] == "";
    NoSuffix([MARKER], ".");
    NoSuffix([MARKER], "0.");
    NoSuffix([MARKER], "F0.");
    NoSuffixes(".", "0.", "F0.", "%F0.", QUERY_NAMES.queryTypes);
    NoSuffixes(".", "0.", "F0.", "%F0.", UPDATE_NAMES.queryTypes);
  }

  lemma NoSuffix(alternatives: seq<string>, c: string)
    requires c != "" && c !in alternatives && SuffixAt(alternatives, c[1..]) == Nothing
    ensures SuffixAt(alternatives, c) == Nothing
  {
  }

  lemma NoSuffixes(a: string, b: string, c: string, d: string, alternatives: seq<string>)
    requires a != "" && a[1..] == "" && b != "" && b[1..] == a && c != "" && c[1..] == b && d != "" && d[1..] == c
    requires a !in alternatives && b !in alternatives && c !in alternatives && d !in alternatives
    ensures SuffixAt(alternatives, d) == Nothing
  {
    hide SuffixAt;
    assert SuffixAt(alternatives, "") == Nothing by { EmptyHasNoSuffix(alternatives); }
    NoSuffix(alternatives, a);
    NoSuffix(alternatives, b);
    NoSuffix(alternatives, c);
    NoSuffix(alternatives, d);
  }

  lemma EmptyHasNoSuffix(alternatives: seq<string>)
    ensures SuffixAt(alternatives, "") == Nothing
  {
  }

  lemma TypeSuffixes()
    ensures SuffixAt(QUERY_NAMES.queryTypes, "DNS-R") == Just(0)
    ensures SuffixAt(QUERY_NAMES.queryTypes, "DNS") == Just(0) == SuffixAt(UPDATE_NAMES.queryTypes, "DNS")
    ensures SuffixAt([MARKER], "DNS-R") == Nothing == SuffixAt([MARKER], "DNS")
  {
    assert "DNS"[1..] == "NS" && "NS"[1..] == "S" && "S"[1..] == "";
    assert "DNS-R"[1..] == "NS-R" && "NS-R"[1..] == "S-R" && "S-R"[1..] == "-R" && "-R"[1..] == "R" && "R"[1..] == "";
    NoSuffix([MARKER], "S");
    NoSuffix([MARKER], "NS");
    NoSuffixes("R", "-R", "S-R", "NS-R", [MARKER]);
    NoSuffixes("R", "-R", "S-R", "NS-R", QUERY_NAMES.queryTypes);
    NoSuffix(QUERY_NAMES.queryTypes, "S");
    NoSuffix(QUERY_NAMES.queryTypes, "NS");
    NoSuffix(UPDATE_NAMES.queryTypes, "S");
    NoSuffix(UPDATE_NAMES.queryTypes, "NS");
  }

  lemma RecordTypes(t: string)
    ensures t in QUERY_NAMES.rrTypes ==> FirstPrefix(QUERY_NAMES.rrTypes, t) == Just(t)
    ensures t == "DYNDNSUPDATE" ==> FirstPrefix(UPDATE_NAMES.rrTypes, t) == Just(t)
  {
    var r := ["FH", "TXT", "NS", "ID-CERT"];
    assert r[1..] == ["TXT", "NS", "ID-CERT"] && r[1..][1..] == ["NS", "ID-CERT"] && r[1..][1..][1..] == ["ID-CERT"];
    assert "FH"[0] == 'F' && "TXT"[0] == 'T' && "NS"[0] == 'N' && "ID-CERT"[0] == 'I';
    if t in r {
      assert t == "FH" || t == "TXT" || t == "NS" || t == "ID-CERT";
    }
  }

  lemma GrammarsAreProper()
    ensures Proper(QUERY_NAMES) && Proper(UPDATE_NAMES)
  {
  }

  /** The text of query type and record type as alternatives of the grammar. */
  lemma TypeTexts(g: Grammar, q: Query)
    requires Speaks(g, q)
    ensures q.queryType.ToString() in g.queryTypes && q.rrtype.ToString() in g.rrTypes
    ensures g == UPDATE_NAMES ==> q.queryType.ToString() == "DNS" && q.rrtype.ToString() == "DYNDNSUPDATE"
    ensures g == QUERY_NAMES ==> q.queryType.ToString() == "DNS" || q.queryType.ToString() == "DNS-R"
    ensures !(MARKER <= q.queryType.ToString())
    ensures ToQueryType(q.queryType.ToString()) == q.queryType && ToRRType(q.rrtype.ToString()) == q.rrtype
  {
    assert "DNS"[0] == 'D' && "DNS-R"[0] == 'D' && MARKER[0] == '%';
  }

  lemma SpeaksTyped(g: Grammar, q: Query)
    requires Speaks(g, q)
    ensures Typed(g, q.queryType.ToString(), q.rrtype.ToString())
    ensures ToQueryType(q.queryType.ToString()) == q.queryType && ToRRType(q.rrtype.ToString()) == q.rrtype
  {
    hide SuffixAt, FirstPrefix, QueryType.ToString, RRType.ToString, ToQueryType, ToRRType;
    MarkerSuffixes();
    TypeSuffixes();
    TypeTexts(g, q);
    RecordTypes(q.rrtype.ToString());
    GrammarsAreProper();
  }

  // ----- Where the pieces of a printed name are found ------------------------------------------

  lemma {:induction false} LastTypedNone(g: Grammar, suffix: Name)
    requires Untyped(g, suffix)
    ensures LastTyped(g, suffix) == Nothing
  {
    if suffix != [] {
      LastTypedNone(g, suffix[1..]);
      assert suffix[0] in suffix;
    }
  }

  lemma {:induction false} LastTypedAt(g: Grammar, a: Name, t: Component, suffix: Name)
    requires FirstPrefix(g.rrTypes, t) == Just(t) && Untyped(g, suffix)
    ensures LastTyped(g, a + [t] + suffix) == Just((|a|, t))
  {
    if a == [] {
      LastTypedNone(g, suffix);
      assert ([] + [t] + suffix)[1..] == suffix;
    } else {
      assert (a + [t] + suffix)[1..] == a[1..] + [t] + suffix;
      LastTypedAt(g, a[1..], t, suffix);
    }
  }

  lemma FindLabelAt(g: Grammar, a: Name, t: Component, suffix: Name)
    requires FirstPrefix(g.rrTypes, t) == Just(t) && Untyped(g, suffix)
    ensures FindLabel(g, a + [t] + suffix) == if a == [] then Nothing else Just((|a|, t))
  {
    if a == [] {
      assert ([] + [t] + suffix)[1..] == suffix;
      LastTypedNone(g, suffix);
    } else {
      assert (a + [t] + suffix)[1..] == a[1..] + [t] + suffix;
      LastTypedAt(g, a[1..], t, suffix);
    }
  }

  lemma {:induction false} FindZoneAppend(g: Grammar, a: Name, b: Name)
    requires FindZone(g, b).Just?
    ensures FindZone(g, a + b) == Just(FindZone(g, b).value.(at := |a| + FindZone(g, b).value.at))
  {
    hide ZoneHere;
    if a == [] {
      assert a + b == b;
    } else {
      assert (a + b)[1..] == a[1..] + b;
      FindZoneAppend(g, a[1..], b);
    }
  }

  lemma {:induction false} FindHintAppend(g: Grammar, a: Name, b: Name)
    requires FindHint(g, b).Just?
    ensures FindHint(g, a + b) == Just(FindHint(g, b).value.(at := |a| + FindHint(g, b).value.at))
  {
    hide FindZone, SuffixAt;
    if a == [] {
      assert a + b == b;
    } else {
      assert (a + b)[1..] == a[1..] + b;
      FindHintAppend(g, a[1..], b);
    }
  }

  lemma {:induction false} FindZoneUntyped(g: Grammar, suffix: Name)
    requires Untyped(g, suffix)
    ensures FindZone(g, suffix) == Nothing
  {
    if suffix != [] {
      FindZoneUntyped(g, suffix[1..]);
      if suffix[1..] != [] {
        LastTypedNone(g, suffix[1..][1..]);
      }
    }
  }

  /** Behind the query type, another body begins exactly in a label component other than the last
      that ends in a query type. */
  lemma {:induction false} FindZoneInTail(g: Grammar, l: Name, t: Component, suffix: Name)
    requires FirstPrefix(g.rrTypes, t) == Just(t) && Untyped(g, suffix)
    ensures FindZone(g, l + [t] + suffix).Just? <==> exists i | 0 <= i < |l| - 1 :: EndsIn(g.queryTypes, l[i])
  {
    var tail := l + [t] + suffix;
    if l == [] {
      assert tail[1..] == suffix;
      FindZoneUntyped(g, suffix);
      if suffix != [] {
        LastTypedNone(g, suffix[1..]);
      }
    } else {
      assert tail[1..] == l[1..] + [t] + suffix;
      FindZoneInTail(g, l[1..], t, suffix);
      FindLabelAt(g, l[1..], t, suffix);
      SuffixAtExactly(g.queryTypes, l[0]);
      LabelRest(g, l);
    }
  }

  lemma LabelRest(g: Grammar, l: Name)
    requires l != []
    ensures (exists i | 0 <= i < |l| - 1 :: EndsIn(g.queryTypes, l[i]))
            <==> (|l| > 1 && EndsIn(g.queryTypes, l[0]))
                 || exists i | 0 <= i < |l[1..]| - 1 :: EndsIn(g.queryTypes, l[1..][i])
  {
    hide EndsIn;
    if i :| 0 < i < |l| - 1 && EndsIn(g.queryTypes, l[i]) {
      assert l[1..][i - 1] == l[i];
    }
    if i :| 0 <= i < |l[1..]| - 1 && EndsIn(g.queryTypes, l[1..][i]) {
      assert l[i + 1] == l[1..][i];
    }
  }

  /** No hint is found where no component ends in the marker before a body. */
  lemma {:induction false} FindHintNone(g: Grammar, cs: Name)
    requires forall k | 0 <= k < |cs| :: !EndsIn([MARKER], cs[k]) || FindZone(g, cs[k + 1..]).Nothing?
    ensures FindHint(g, cs) == Nothing
  {
    if cs != [] {
      forall k | 0 <= k < |cs[1..]|
        ensures !EndsIn([MARKER], cs[1..][k]) || FindZone(g, cs[1..][k + 1..]).Nothing?
      {
        assert cs[1..][k] == cs[k + 1] && cs[1..][k + 1..] == cs[k + 1 + 1..];
      }
      FindHintNone(g, cs[1..]);
      SuffixAtExactly([MARKER], cs[0]);
      assert cs[0 + 1..] == cs[1..];
    }
  }

  lemma {:induction false} FindHintExists(g: Grammar, cs: Name, k: nat)
    requires k < |cs| && EndsIn([MARKER], cs[k]) && FindZone(g, cs[k + 1..]).Just?
    ensures FindHint(g, cs).Just? && FindHint(g, cs).value.at >= k
  {
    hide FindZone, SuffixAt, EndsIn;
    var b := cs[k..];
    assert b[1..] == cs[k + 1..] && b[0] == cs[k] && cs == cs[..k] + b;
    SuffixAtExactly([MARKER], cs[k]);
    assert FindHint(g, b).Just?;
    FindHintAppend(g, cs[..k], b);
  }

  lemma ParseUpTo(cs: Name, j: nat, i: nat)
    requires j < |cs| && i <= |cs[j]|
    ensures '/' !in cs[j][..i]
    ensures ParseName(UpTo(cs, j, i)) == cs[..j] + Flush(cs[j][..i])
  {
    var p := cs[j][..i];
    assert forall c | c in p :: c in cs[j];
    var rest := "/" + p;
    SplitSlashed(cs[..j], rest);
    assert Slashed(cs[..j]) + rest == UpTo(cs, j, i);
    assert rest[1..] == p + "";
    SplitPiece(p, "", "");
    assert "" + p == p;
    assert Split(rest, "") == [] + Split(p, "");
  }

  // ----- Reading a printed name back -----------------------------------------------------------

  /** The components behind the query type. */
  function TailOf(q: Query, suffix: Name): Name {
    q.rrLabel + [q.rrtype.ToString()] + suffix
  }

  /** The components from the authority zone on. */
  function FromZone(q: Query, suffix: Name): Name {
    q.zone + [q.queryType.ToString()] + TailOf(q, suffix)
  }

  lemma PrintedParts(q: Query, suffix: Name)
    ensures Printed(q, suffix) == HintPart(q.hint) + FromZone(q, suffix)
  {
  }

  predicate Wellformed(g: Grammar, q: Query, suffix: Name) {
    Speaks(g, q) && q.rrLabel != [] && Untyped(g, suffix)
  }

  /** Where the true zone ends. */
  function TrueZone(q: Query): ZoneAt {
    ZoneAt(|q.zone|, 0, |q.rrLabel|, q.rrtype.ToString())
  }

  /** The zone ends at the query type, unless a label component ends in one. */
  lemma ZoneFound(g: Grammar, q: Query, suffix: Name)
    requires Wellformed(g, q, suffix)
    ensures FindZone(g, FromZone(q, suffix))
            == if FindZone(g, TailOf(q, suffix)).Just?
               then var z := FindZone(g, TailOf(q, suffix)).value; Just(z.(at := |q.zone| + 1 + z.at))
               else Just(TrueZone(q))
  {
    hide FindZone, FindLabel, FirstPrefix, SuffixAt, Untyped, Speaks;
    var qt, tail := q.queryType.ToString(), TailOf(q, suffix);
    SpeaksTyped(g, q);
    FindLabelAt(g, q.rrLabel, q.rrtype.ToString(), suffix);
    ZoneAtHead(g, qt, tail, q.rrLabel, q.rrtype.ToString());
    var b := [qt] + tail;
    assert FromZone(q, suffix) == q.zone + b;
    FindZoneAppend(g, q.zone, b);
  }

  lemma ZoneAtHead(g: Grammar, qt: Component, tail: Name, l: Name, t: string)
    requires SuffixAt(g.queryTypes, qt) == Just(0) && FindLabel(g, tail) == Just((|l|, t))
    ensures FindZone(g, [qt] + tail) == if FindZone(g, tail).Just?
                                        then Just(FindZone(g, tail).value.(at := 1 + FindZone(g, tail).value.at))
                                        else Just(ZoneAt(0, 0, |l|, t))
  {
    hide FindLabel, SuffixAt;
    assert ([qt] + tail)[1..] == tail && ([qt] + tail)[0] == qt;
  }

  /** The hint is found at the true marker, unless a later component ends in one. */
  lemma HintFound(g: Grammar, q: Query, suffix: Name)
    requires Wellformed(g, q, suffix)
    ensures var cs, rest := Printed(q, suffix), FromZone(q, suffix);
            FindZone(g, rest).Just?
            && FindHint(g, cs)
               == if FindHint(g, rest).Just?
                  then Just(FindHint(g, rest).value.(at := |HintPart(q.hint)| + FindHint(g, rest).value.at))
                  else if q.hint == [] then Nothing
                  else Just(HintAt(|q.hint|, 0, FindZone(g, rest).value))
  {
    hide FindZone, FindHint, Printed, FromZone, TailOf, Wellformed;
    var rest := FromZone(q, suffix);
    PrintedParts(q, suffix);
    ZoneFound(g, q, suffix);
    if FindHint(g, rest).Nothing? {
      MarkerAtHead(g, rest);
    }
    if FindHint(g, rest).Just? {
      FindHintAppend(g, HintPart(q.hint), rest);
    } else if q.hint != [] {
      assert HintPart(q.hint) + rest == q.hint + ([MARKER] + rest);
      FindHintAppend(g, q.hint, [MARKER] + rest);
    } else {
      assert HintPart(q.hint) + rest == rest;
    }
  }

  lemma MarkerAtHead(g: Grammar, rest: Name)
    requires FindZone(g, rest).Just? && FindHint(g, rest).Nothing?
    ensures FindHint(g, [MARKER] + rest) == Just(HintAt(0, 0, FindZone(g, rest).value))
  {
    MarkerSuffixes();
    hide FindZone, SuffixAt;
    assert ([MARKER] + rest)[1..] == rest && ([MARKER] + rest)[0] == MARKER;
  }

  /** In a readable name nothing behind the true positions is mistaken for them. */
  lemma ReadableFinds(g: Grammar, q: Query, suffix: Name)
    requires Wellformed(g, q, suffix) && Readable(g, q)
    ensures FindZone(g, TailOf(q, suffix)) == Nothing
    ensures FindHint(g, FromZone(q, suffix)) == Nothing
  {
    var rest := FromZone(q, suffix);
    SpeaksTyped(g, q);
    FindZoneInTail(g, q.rrLabel, q.rrtype.ToString(), suffix);
    hide FindZone, FindHint, FirstPrefix, Typed, SuffixAt;
    forall k | 0 <= k < |rest|
      ensures !EndsIn([MARKER], rest[k]) || FindZone(g, rest[k + 1..]).Nothing?
    {
      ReadableAt(g, q, suffix, k);
    }
    FindHintNone(g, rest);
  }

  lemma ReadableAt(g: Grammar, q: Query, suffix: Name, k: nat)
    requires Wellformed(g, q, suffix) && FindZone(g, TailOf(q, suffix)) == Nothing
    requires k < |FromZone(q, suffix)|
    requires k < |q.zone| ==> !EndsIn([MARKER], q.zone[k])
    ensures !EndsIn([MARKER], FromZone(q, suffix)[k]) || FindZone(g, FromZone(q, suffix)[k + 1..]).Nothing?
  {
    var tail, rest := TailOf(q, suffix), FromZone(q, suffix);
    hide FindZone, SuffixAt, FirstPrefix, EndsIn, Untyped, Speaks;
    SpeaksTyped(g, q);
    if k == |q.zone| {
      SuffixAtExactly([MARKER], rest[k]);
    } else if k > |q.zone| {
      var n := k - |q.zone|;
      assert rest[k + 1..] == tail[n..] && tail == tail[..n] + tail[n..];
      if FindZone(g, tail[n..]).Just? {
        FindZoneAppend(g, tail[..n], tail[n..]);
      }
    }
  }

  /** What is captured when the zone is found where it truly ends. */
  lemma BodyRead(q: Query, suffix: Name)
    ensures ZoneInside(TrueZone(q), FromZone(q, suffix))
    ensures BodyCapture(FromZone(q, suffix), TrueZone(q))
            == Body(Slashed(q.zone) + "/", q.queryType.ToString(), Slashed(q.rrLabel), q.rrtype.ToString())
  {
    var rest := FromZone(q, suffix);
    hide Slashed;
    assert rest[..|q.zone|] == q.zone && rest[|q.zone|] == q.queryType.ToString();
    assert rest[|q.zone| + 1..] == TailOf(q, suffix);
    assert TailOf(q, suffix)[..|q.rrLabel|] == q.rrLabel;
    assert rest[|q.zone|][0..] == rest[|q.zone|] && rest[|q.zone|][..0] == "";
    assert Slashed(q.zone) + "/" + "" == Slashed(q.zone) + "/";
  }

  lemma HintText(q: Query, suffix: Name)
    requires q.hint != []
    ensures |q.hint| < |Printed(q, suffix)|
    ensures UpTo(Printed(q, suffix), |q.hint|, 0) == Slashed(q.hint) + "/"
    ensures Printed(q, suffix)[|q.hint| + 1..] == FromZone(q, suffix)
  {
    PrintedParts(q, suffix);
    hide Slashed, FromZone;
    var cs := Printed(q, suffix);
    assert cs == q.hint + [MARKER] + FromZone(q, suffix);
    assert cs[..|q.hint|] == q.hint;
    assert Slashed(q.hint) + "/" + "" == Slashed(q.hint) + "/";
  }

  /** A readable name gives back every field. */
  lemma ReadsBack(g: Grammar, q: Query, suffix: Name)
    requires Wellformed(g, q, suffix) && Readable(g, q)
    ensures var m := MatchName(g, Printed(q, suffix)); m.Just? && Understood(m.value, FRESH) == q
    ensures MatchName(g, Printed(q, suffix))
            == Just(Captures(if q.hint == [] then "" else Slashed(q.hint) + "/",
                             Body(Slashed(q.zone) + "/", q.queryType.ToString(), Slashed(q.rrLabel),
                                  q.rrtype.ToString())))
  {
    ReadableFinds(g, q, suffix);
    ZoneFound(g, q, suffix);
    HintFound(g, q, suffix);
    BodyRead(q, suffix);
    PrintedParts(q, suffix);
    SpeaksTyped(g, q);
    ParseUri(q.zone);
    ParseUri(q.rrLabel);
    ParseUri(q.hint);
    hide FindZone, FindHint, BodyCapture, FirstPrefix, Readable, FromZone, Slashed, SuffixAt, Printed, ParseName;
    if q.hint != [] {
      HintText(q, suffix);
      assert Slashed(q.hint) + "/" != "";
    } else {
      assert HintPart([]) + FromZone(q, suffix) == FromZone(q, suffix);
    }
  }

  /** Reading into an object that already has a hint: only a printed hint replaces it. */
  lemma ReadsInto(g: Grammar, q: Query, suffix: Name, before: Query)
    requires Wellformed(g, q, suffix) && Readable(g, q)
    ensures var m := Match(g, Uri(Printed(q, suffix)));
            m.Just? && Understood(m.value, before) == q.(hint := if q.hint == [] then before.hint else q.hint)
  {
    SpeaksTyped(g, q);
    MatchIsMatchName(g, Printed(q, suffix));
    hide Match, MatchName, Printed, Wellformed, Readable, Slashed, ParseName, ToQueryType, ToRRType, Typed, Proper;
    ReadsBack(g, q, suffix);
    assert q.hint != [] ==> Slashed(q.hint) + "/" != "";
  }

  // ----- Names that cannot be read back --------------------------------------------------------

  /** A longer zone, or a longer hint, than was printed. */
  lemma ParsedLength(cs: Name, j: nat, i: nat)
    requires j < |cs| && i <= |cs[j]|
    ensures |ParseName(UpTo(cs, j, i))| >= j
    ensures i > 0 ==> |ParseName(UpTo(cs, j, i))| == j + 1
    ensures i == 0 ==> ParseName(UpTo(cs, j, i)) == cs[..j]
  {
    ParseUpTo(cs, j, i);
  }

  /** Where a hint is found behind the true marker, the hint or the zone comes out wrong. */
  lemma HintMisread(g: Grammar, q: Query, suffix: Name)
    requires Wellformed(g, q, suffix) && FindHint(g, FromZone(q, suffix)).Just?
    ensures var m := MatchName(g, Printed(q, suffix)); m.Just? && Understood(m.value, FRESH) != q
  {
    var cs := Printed(q, suffix);
    assert |HintPart(q.hint)| == if q.hint == [] then 0 else |q.hint| + 1;
    hide FindZone, FindHint, Printed, FromZone, Wellformed, BodyCapture, UpTo, ParseName, MatchName, HintPart;
    hide Understood;
    HintFound(g, q, suffix);
    HintRead(g, cs);
    var h := FindHint(g, cs).value;
    ParsedLength(cs, h.at, h.cut);
    if h.at == 0 == h.cut {
      MisreadRoot(g, q, suffix);
    }
  }

  /** Hint and zone that are read where a hint is found. */
  lemma HintRead(g: Grammar, cs: Name)
    requires FindHint(g, cs).Just?
    ensures var h := FindHint(g, cs).value;
            MatchName(g, cs).Just?
            && Understood(MatchName(g, cs).value, FRESH).hint == ParseName(UpTo(cs, h.at, h.cut))
            && Understood(MatchName(g, cs).value, FRESH).zone == ParseName(BodyCapture(cs[h.at + 1..], h.zone).zone)
  {
    hide FindHint, FindZone, MatchName, BodyCapture, UpTo, ParseName;
    HintMatched(g, cs);
    RootText(cs, FindHint(g, cs).value.at, FindHint(g, cs).value.cut);
  }

  /** The one case in which the hint comes out right: without a hint, a first zone component that
      is the marker is taken for one, and then the zone comes out wrong. */
  lemma MisreadRoot(g: Grammar, q: Query, suffix: Name)
    requires Wellformed(g, q, suffix) && q.hint == []
    requires FindHint(g, Printed(q, suffix)).Just?
    requires FindHint(g, Printed(q, suffix)).value.at == 0 == FindHint(g, Printed(q, suffix)).value.cut
    ensures var h := FindHint(g, Printed(q, suffix)).value;
            ParseName(BodyCapture(Printed(q, suffix)[1..], h.zone).zone) != q.zone
  {
    var cs := Printed(q, suffix);
    var h := FindHint(g, cs).value;
    var rest := cs[1..];
    assert q.zone == [] ==> cs[0] == q.queryType.ToString();
    FirstIsMarker(g, cs);
    SpeaksTyped(g, q);
    assert cs == FromZone(q, suffix) by {
      PrintedParts(q, suffix);
      assert HintPart([]) + FromZone(q, suffix) == FromZone(q, suffix);
    }
    hide FindZone, FindHint, Printed, SuffixAt, FirstPrefix, Untyped;
    ParseUpTo(rest, h.zone.at, h.zone.cut);
    var read := ParseName(UpTo(rest, h.zone.at, h.zone.cut));
    var qt := q.queryType.ToString();
    assert q.zone[0] == cs[0] == MARKER && rest[0] == cs[1];
    assert |q.zone| == 1 ==> cs[1] == qt;
    if |q.zone| > 1 && cs[1] == MARKER {
      SecondMarker(g, q, suffix);
    }
    assert cs[1] != MARKER;
    assert h.zone.at > 0 ==> read[0] == cs[1];
    assert h.zone.at == 0 ==> read == Flush(cs[1][..h.zone.cut]);
  }

  lemma FirstIsMarker(g: Grammar, cs: Name)
    requires FindHint(g, cs).Just? && FindHint(g, cs).value.at == 0 == FindHint(g, cs).value.cut
    ensures cs[0] == MARKER && FindZone(g, cs[1..]) == Just(FindHint(g, cs).value.zone)
    ensures FindHint(g, cs[1..]).Nothing?
  {
    hide FindZone;
    SuffixAtExactly([MARKER], cs[0]);
    assert cs[0][0..] == cs[0];
  }

  /** A second zone component equal to the marker would have been taken instead of the first. */
  lemma SecondMarker(g: Grammar, q: Query, suffix: Name)
    requires Wellformed(g, q, suffix) && |q.zone| > 1
    requires FromZone(q, suffix)[1] == MARKER
    ensures FindHint(g, FromZone(q, suffix)[1..]).Just?
  {
    var cs := FromZone(q, suffix);
    var shorter := q.(zone := q.zone[1..]);
    assert cs[1..] == FromZone(shorter, suffix);
    assert MARKER[0..] == MARKER && EndsIn([MARKER], MARKER);
    var fewer := q.(zone := q.zone[2..]);
    assert cs[1..][0 + 1..] == FromZone(fewer, suffix);
    ZoneFound(g, fewer, suffix);
    FindHintExists(g, cs[1..], 0);
  }

  /** Where another zone is found behind the query type, the zone comes out too long. */
  lemma ZoneMisread(g: Grammar, q: Query, suffix: Name)
    requires Wellformed(g, q, suffix) && FindHint(g, FromZone(q, suffix)).Nothing?
    requires FindZone(g, TailOf(q, suffix)).Just?
    ensures var m := MatchName(g, Printed(q, suffix)); m.Just? && Understood(m.value, FRESH) != q
  {
    var cs, rest := Printed(q, suffix), FromZone(q, suffix);
    ZoneFound(g, q, suffix);
    HintFound(g, q, suffix);
    PrintedParts(q, suffix);
    var z := FindZone(g, rest).value;
    ParsedLength(rest, z.at, z.cut);
    hide FindZone, FindHint, Printed, FromZone, TailOf, Wellformed, ParseName;
    if q.hint != [] {
      HintText(q, suffix);
    } else {
      assert HintPart([]) + rest == rest;
    }
    var m := MatchName(g, cs);
    assert m.Just? && m.value.body == BodyCapture(rest, z);
    assert |Understood(m.value, FRESH).zone| > |q.zone|;
  }

  /** A zone component that ends in the marker is found as a hint. */
  lemma MarkedZone(g: Grammar, q: Query, suffix: Name, k: nat)
    requires Wellformed(g, q, suffix) && k < |q.zone| && EndsIn([MARKER], q.zone[k])
    ensures FindHint(g, FromZone(q, suffix)).Just?
  {
    var rest := FromZone(q, suffix);
    var fewer := q.(zone := q.zone[k + 1..]);
    hide FindZone, FindHint, EndsIn, Untyped, Speaks;
    assert rest[k] == q.zone[k] && rest[k + 1..] == FromZone(fewer, suffix);
    ZoneFound(g, fewer, suffix);
    FindHintExists(g, rest, k);
  }

  /** With a zone component that ends in the marker, the match succeeds and gives back something
      else. */
  lemma MisreadHint(g: Grammar, q: Query, suffix: Name, k: nat)
    requires Wellformed(g, q, suffix) && k < |q.zone| && EndsIn([MARKER], q.zone[k])
    ensures var m := MatchName(g, Printed(q, suffix)); m.Just? && Understood(m.value, FRESH) != q
  {
    hide MatchName, Printed, FromZone, Understood, EndsIn, FindHint;
    MarkedZone(g, q, suffix, k);
    HintMisread(g, q, suffix);
  }

  /** With a label component before the last that ends in a query type, likewise. */
  lemma MisreadZone(g: Grammar, q: Query, suffix: Name, k: nat)
    requires Wellformed(g, q, suffix) && k < |q.rrLabel| - 1 && EndsIn(g.queryTypes, q.rrLabel[k])
    ensures var m := MatchName(g, Printed(q, suffix)); m.Just? && Understood(m.value, FRESH) != q
  {
    SpeaksTyped(g, q);
    FindZoneInTail(g, q.rrLabel, q.rrtype.ToString(), suffix);
    hide FindZone, FindHint, Printed, FromZone, FirstPrefix, MatchName, Understood, EndsIn;
    if FindHint(g, FromZone(q, suffix)).Just? {
      HintMisread(g, q, suffix);
    } else {
      ZoneMisread(g, q, suffix);
    }
  }

  /** Name grammar round trip, exactly: what is printed for a query with a non-empty label (with
      any untyped suffix behind it) is always matched, and reading it into a fresh object gives
      back hint, zone, query type, label and record type if and only if no zone component ends in
      the marker and no label component but the last ends in a query type. */
  lemma RoundTripExactly(g: Grammar, q: Query, suffix: Name)
    requires Wellformed(g, q, suffix)
    ensures var m := Match(g, Uri(Printed(q, suffix)));
            m.Just? && (Understood(m.value, FRESH) == q <==> Readable(g, q))
  {
    SpeaksTyped(g, q);
    MatchIsMatchName(g, Printed(q, suffix));
    hide Printed, Match, MatchName, Understood, EndsIn;
    if Readable(g, q) {
      ReadsBack(g, q, suffix);
    } else if c :| c in q.zone && EndsIn([MARKER], c) {
      var k :| 0 <= k < |q.zone| && q.zone[k] == c;
      MisreadHint(g, q, suffix, k);
    } else {
      var k :| 0 <= k < |q.rrLabel| - 1 && EndsIn(g.queryTypes, q.rrLabel[k]);
      MisreadZone(g, q, suffix, k);
    }
  }

  // ----- Names without a label -----------------------------------------------------------------

  lemma {:induction false} HintNeedsZone(g: Grammar, cs: Name)
    requires FindHint(g, cs).Just?
    ensures FindZone(g, cs).Just?
  {
    hide SuffixAt, ZoneHere;
    if FindHint(g, cs[1..]).Just? {
      HintNeedsZone(g, cs[1..]);
    }
  }

  /** A name without a label is matched by nothing, so that a server keeps silent, exactly when no
      component in front of the query type itself ends in a query type. */
  lemma EmptyLabelExactly(g: Grammar, q: Query, suffix: Name)
    requires Speaks(g, q) && q.rrLabel == [] && Untyped(g, suffix)
    ensures Match(g, Uri(Printed(q, suffix))) == Nothing
            <==> forall c | c in HintPart(q.hint) + q.zone :: !EndsIn(g.queryTypes, c)
  {
    hide FindZone, FindHint, FirstPrefix, SuffixAt, Match, MatchName, EndsIn, Untyped, Speaks;
    var a, cs := HintPart(q.hint) + q.zone, Printed(q, suffix);
    var l := a + [q.queryType.ToString()];
    SpeaksTyped(g, q);
    MatchIsMatchName(g, cs);
    MatchNameNothing(g, cs);
    assert cs == l + [q.rrtype.ToString()] + suffix;
    FindZoneInTail(g, l, q.rrtype.ToString(), suffix);
    assert forall i | 0 <= i < |l| - 1 :: l[i] == a[i];
  }

  lemma MatchNameNothing(g: Grammar, cs: Name)
    ensures MatchName(g, cs) == Nothing <==> FindZone(g, cs) == Nothing
  {
    hide FindZone, FindHint, BodyCapture, UpTo;
    if FindHint(g, cs).Just? {
      HintNeedsZone(g, cs);
    }
  }

  // ----- Which names are matched at all --------------------------------------------------------

  predicate StartsIn(alternatives: seq<string>, c: string) {
    exists a | a in alternatives :: a <= c
  }

  /** A component ends in a query type, and one behind the next starts with a record type. */
  predicate Matchable(g: Grammar, cs: Name) {
    exists i, j | 0 <= i && i + 1 < j < |cs| :: EndsIn(g.queryTypes, cs[i]) && StartsIn(g.rrTypes, cs[j])
  }

  lemma {:induction false} FirstPrefixExactly(alternatives: seq<string>, c: string)
    ensures FirstPrefix(alternatives, c).Just? <==> StartsIn(alternatives, c)
  {
    if alternatives != [] {
      FirstPrefixExactly(alternatives[1..], c);
      assert alternatives[0] in alternatives;
      if StartsIn(alternatives, c) {
        var a :| a in alternatives && a <= c;
        assert a == alternatives[0] || a in alternatives[1..];
      }
      if StartsIn(alternatives[1..], c) {
        var a :| a in alternatives[1..] && a <= c;
        assert a in alternatives;
      }
    }
  }

  lemma {:induction false} LastTypedExactly(g: Grammar, cs: Name)
    ensures LastTyped(g, cs).Just? <==> exists j | 0 <= j < |cs| :: StartsIn(g.rrTypes, cs[j])
  {
    hide StartsIn, FirstPrefix;
    if cs != [] {
      LastTypedExactly(g, cs[1..]);
      FirstPrefixExactly(g.rrTypes, cs[0]);
      assert forall j | 1 <= j < |cs| :: cs[j] == cs[1..][j - 1];
    }
  }

  lemma ZoneHereExactly(g: Grammar, cs: Name)
    requires cs != []
    ensures ZoneHere(g, cs).Just?
            <==> EndsIn(g.queryTypes, cs[0]) && exists j | 1 < j < |cs| :: StartsIn(g.rrTypes, cs[j])
  {
    hide StartsIn, LastTyped, EndsIn, SuffixAt;
    SuffixAtExactly(g.queryTypes, cs[0]);
    if cs[1..] != [] {
      LastTypedExactly(g, cs[2..]);
      assert cs[1..][1..] == cs[2..];
      assert forall j | 2 <= j < |cs| :: cs[j] == cs[2..][j - 2];
    }
  }

  lemma {:induction false} FindZoneExactly(g: Grammar, cs: Name)
    ensures FindZone(g, cs).Just? <==> Matchable(g, cs)
  {
    hide StartsIn, EndsIn, ZoneHere;
    if cs != [] {
      FindZoneExactly(g, cs[1..]);
      ZoneHereExactly(g, cs);
      assert forall i | 1 <= i < |cs| :: cs[i] == cs[1..][i - 1];
      var rest := cs[1..];
      if i, j :| 0 <= i && i + 1 < j < |rest| && EndsIn(g.queryTypes, rest[i]) && StartsIn(g.rrTypes, rest[j]) {
        assert EndsIn(g.queryTypes, cs[i + 1]) && StartsIn(g.rrTypes, cs[j + 1]);
      }
    }
  }

  /** A name is matched exactly when one of its components ends in a query type and a later one,
      with at least a component between them, starts with a record type. */
  lemma MatchedExactly(g: Grammar, cs: Name)
    requires Proper(g) && cs != []
    ensures Match(g, Uri(cs)).Just? <==> Matchable(g, cs)
  {
    hide Matchable, Match, MatchName, FindZone;
    MatchIsMatchName(g, cs);
    MatchNameNothing(g, cs);
    FindZoneExactly(g, cs);
  }

  // ----- The embedded update -------------------------------------------------------------------

  /** The last component that ends in the marker. */
  function LastMarked(z: Name): (r: Option<nat>)
    ensures r.Just? ==> r.value < |z| && EndsIn([MARKER], z[r.value])
  {
    if z == [] then Nothing
    else match LastMarked(z[1..])
      case Just(k) => Just(k + 1)
      case Nothing => if EndsIn([MARKER], z[0]) then Just(0) else Nothing
  }

  /** Where the last marked zone component is taken for the end of the hint. */
  function MarkedHint(q: Query, k: nat): HintAt
    requires k < |q.zone| && SuffixAt([MARKER], q.zone[k]).Just?
  {
    HintAt(k, SuffixAt([MARKER], q.zone[k]).value, TrueZone(q.(zone := q.zone[k + 1..])))
  }

  lemma {:induction false} FindHintInZone(g: Grammar, q: Query, suffix: Name)
    requires Wellformed(g, q, suffix) && FindZone(g, TailOf(q, suffix)) == Nothing
    ensures LastMarked(q.zone).Just? ==> SuffixAt([MARKER], q.zone[LastMarked(q.zone).value]).Just?
    ensures FindHint(g, FromZone(q, suffix))
            == if LastMarked(q.zone).Just? then Just(MarkedHint(q, LastMarked(q.zone).value)) else Nothing
    decreases |q.zone|
  {
    hide FindZone, EndsIn, SuffixAt, Untyped;
    if q.zone == [] {
      forall k | 0 <= k < |FromZone(q, suffix)|
        ensures !EndsIn([MARKER], FromZone(q, suffix)[k]) || FindZone(g, FromZone(q, suffix)[k + 1..]).Nothing?
      {
        ReadableAt(g, q, suffix, k);
      }
      FindHintNone(g, FromZone(q, suffix));
    } else {
      var fewer := q.(zone := q.zone[1..]);
      assert FromZone(q, suffix)[1..] == FromZone(fewer, suffix);
      assert TailOf(fewer, suffix) == TailOf(q, suffix);
      FindHintInZone(g, fewer, suffix);
      SuffixAtExactly([MARKER], q.zone[0]);
      ZoneFound(g, fewer, suffix);
      if LastMarked(fewer.zone).Just? {
        var k := LastMarked(fewer.zone).value;
        assert fewer.zone[k] == q.zone[k + 1] && fewer.zone[k + 1..] == q.zone[k + 2..];
      }
    }
  }

  lemma MarkedCut(c: string)
    requires EndsIn([MARKER], c)
    ensures SuffixAt([MARKER], c).Just? && (SuffixAt([MARKER], c).value == 0 <==> c == MARKER)
  {
    SuffixAtExactly([MARKER], c);
    assert c[0..] == c;
  }

  /** The index computed from captures that end where these positions say. */
  lemma IndexOf(cs: Name, h: HintAt)
    requires HintInside(h, cs) && h.zone.cut == 0
    ensures UpdateIndex(Captures(UpTo(cs, h.at, h.cut), BodyCapture(cs[h.at + 1..], h.zone)))
            == h.at + 1 + h.zone.at + 1 + if h.cut > 0 then 1 else 0
  {
    var rest := cs[h.at + 1..];
    ParseUpTo(cs, h.at, h.cut);
    ParseUpTo(rest, h.zone.at, 0);
    RootText(cs, h.at, h.cut);
    RootText(rest, h.zone.at, 0);
  }

  lemma RootText(cs: Name, j: nat, i: nat)
    requires j < |cs| && i <= |cs[j]|
    ensures UpTo(cs, j, i) != ""
    ensures UpTo(cs, j, i) == "/" <==> j == 0 && i == 0
  {
    if j > 0 {
      assert |Slashed(cs[..j])| > 0;
    }
  }

  /** Whether the last zone component that ends in the marker, if there is one, is more than it. */
  predicate HasStem(zone: Name) {
    LastMarked(zone).Just? && zone[LastMarked(zone).value] != MARKER
  }

  /** Update extraction, exactly: the computed index is the position at which the encoded update
      was appended, unless the last zone component that ends in the marker is more than the
      marker; then it is one too large. */
  lemma UpdateIndexExactly(q: Query, suffix: Name)
    requires Wellformed(UPDATE_NAMES, q, suffix) && |q.rrLabel| == 1
    ensures var m, k := Match(UPDATE_NAMES, Uri(Printed(q, suffix))), |HintPart(q.hint)| + |q.zone| + 1;
            m.Just? && k < |Printed(q, suffix)| && Printed(q, suffix)[k] == q.rrLabel[0]
            && UpdateIndex(m.value) == k + if HasStem(q.zone) then 1 else 0
  {
    var g, cs, rest := UPDATE_NAMES, Printed(q, suffix), FromZone(q, suffix);
    SpeaksTyped(g, q);
    MatchIsMatchName(g, cs);
    FindZoneInTail(g, q.rrLabel, q.rrtype.ToString(), suffix);
    FindHintInZone(g, q, suffix);
    PrintedParts(q, suffix);
    if LastMarked(q.zone).Just? {
      MarkedCut(q.zone[LastMarked(q.zone).value]);
      MarkedIndex(g, q, suffix);
    } else {
      UnmarkedIndex(g, q, suffix);
    }
  }

  lemma MarkedIndex(g: Grammar, q: Query, suffix: Name)
    requires Wellformed(g, q, suffix) && LastMarked(q.zone).Just?
    requires var k := LastMarked(q.zone).value;
             SuffixAt([MARKER], q.zone[k]).Just? && FindHint(g, FromZone(q, suffix)) == Just(MarkedHint(q, k))
    ensures var m := MatchName(g, Printed(q, suffix));
            m.Just? && UpdateIndex(m.value)
                       == |HintPart(q.hint)| + |q.zone| + 1
                          + if SuffixAt([MARKER], q.zone[LastMarked(q.zone).value]).value > 0 then 1 else 0
  {
    hide FindHint, FindZone, BodyCapture, UpTo, Printed, FromZone, Wellformed, LastMarked, UpdateIndex, SuffixAt;
    hide MatchName;
    var cs := Printed(q, suffix);
    HintFound(g, q, suffix);
    IndexOf(cs, FindHint(g, cs).value);
    HintMatched(g, cs);
  }

  lemma HintMatched(g: Grammar, cs: Name)
    requires FindHint(g, cs).Just?
    ensures var h := FindHint(g, cs).value;
            MatchName(g, cs) == Just(Captures(UpTo(cs, h.at, h.cut), BodyCapture(cs[h.at + 1..], h.zone)))
  {
    hide FindHint, FindZone, BodyCapture, UpTo;
  }

  lemma UnmarkedIndex(g: Grammar, q: Query, suffix: Name)
    requires Wellformed(g, q, suffix) && LastMarked(q.zone).Nothing? && |q.rrLabel| == 1
    ensures var m := MatchName(g, Printed(q, suffix));
            m.Just? && UpdateIndex(m.value) == |HintPart(q.hint)| + |q.zone| + 1
  {
    NoneMarked(q.zone);
    ReadsBack(g, q, suffix);
    ParseUri(q.hint);
    ParseUri(q.zone);
    if q.hint != [] {
      assert |Slashed(q.hint)| > 1;
    }
    if q.zone != [] {
      assert |Slashed(q.zone)| > 1;
    }
  }

  lemma {:induction false} NoneMarked(z: Name)
    requires LastMarked(z).Nothing?
    ensures forall c | c in z :: !EndsIn([MARKER], c)
  {
    if z != [] {
      NoneMarked(z[1..]);
      assert z == [z[0]] + z[1..];
    }
  }

  // ----- What is read instead ------------------------------------------------------------------

  /** A component without the marker that ends it. */
  function Stem(c: Component): string
    requires EndsIn([MARKER], c)
  {
    c[..|c| - |MARKER|]
  }

  lemma StemCut(c: Component)
    requires EndsIn([MARKER], c)
    ensures SuffixAt([MARKER], c).Just? && c[..SuffixAt([MARKER], c).value] == Stem(c) && '/' !in Stem(c)
  {
    SuffixAtExactly([MARKER], c);
  }

  /** The query that is read where zone component `k` is the last that ends in the marker: the hint
      swallows the zone up to there. */
  function Swallowed(q: Query, k: nat): Query
    requires k < |q.zone| && EndsIn([MARKER], q.zone[k])
  {
    StemCut(q.zone[k]);
    q.(hint := HintPart(q.hint) + q.zone[..k] + Flush(Stem(q.zone[k])), zone := q.zone[k + 1..])
  }

  /** Zone component `k` in a printed name. */
  lemma ZoneComponentAt(q: Query, suffix: Name, k: nat)
    requires k < |q.zone|
    ensures var cs, at := Printed(q, suffix), |HintPart(q.hint)| + k;
            at < |cs| && cs[at] == q.zone[k] && cs[..at] == HintPart(q.hint) + q.zone[..k]
            && cs[at + 1..] == FromZone(q.(zone := q.zone[k + 1..]), suffix)
  {
    PrintedParts(q, suffix);
    hide HintPart, Printed;
    var rest := FromZone(q, suffix);
    assert rest[k] == q.zone[k] && rest[..k] == q.zone[..k];
    assert rest[k + 1..] == FromZone(q.(zone := q.zone[k + 1..]), suffix);
  }

  lemma MarkedCaptures(g: Grammar, q: Query, suffix: Name, k: nat) returns (text: string)
    requires Wellformed(g, q, suffix) && k < |q.zone| && SuffixAt([MARKER], q.zone[k]).Just?
    requires FindHint(g, FromZone(q, suffix)) == Just(MarkedHint(q, k))
    ensures MatchName(g, Printed(q, suffix))
            == Just(Captures(text, BodyCapture(FromZone(q.(zone := q.zone[k + 1..]), suffix),
                                               TrueZone(q.(zone := q.zone[k + 1..])))))
    ensures var i := SuffixAt([MARKER], q.zone[k]).value;
            '/' !in q.zone[k][..i]
            && text != "" && ParseName(text) == HintPart(q.hint) + q.zone[..k] + Flush(q.zone[k][..i])
  {
    hide FindHint, FindZone, MatchName, Slashed, ParseName, BodyCapture, UpTo, Wellformed, Printed, FromZone, HintPart;
    var cs, at, i := Printed(q, suffix), |HintPart(q.hint)| + k, SuffixAt([MARKER], q.zone[k]).value;
    HintFound(g, q, suffix);
    HintMatched(g, cs);
    ZoneComponentAt(q, suffix, k);
    ParseUpTo(cs, at, i);
    RootText(cs, at, i);
    text := UpTo(cs, at, i);
  }

  /** What reading gives where no label component ends in a query type and a zone component ends in
      the marker. */
  lemma MarkedReads(g: Grammar, q: Query, suffix: Name)
    requires Wellformed(g, q, suffix) && LastMarked(q.zone).Just?
    requires forall i | 0 <= i < |q.rrLabel| - 1 :: !EndsIn(g.queryTypes, q.rrLabel[i])
    ensures var m := Match(g, Uri(Printed(q, suffix)));
            m.Just? && Understood(m.value, FRESH) == Swallowed(q, LastMarked(q.zone).value)
  {
    var k := LastMarked(q.zone).value;
    SpeaksTyped(g, q);
    MatchIsMatchName(g, Printed(q, suffix));
    FindZoneInTail(g, q.rrLabel, q.rrtype.ToString(), suffix);
    FindHintInZone(g, q, suffix);
    StemCut(q.zone[k]);
    hide FindHint, FindZone, FirstPrefix, SuffixAt, EndsIn, MatchName, Match, Slashed, ParseName, BodyCapture;
    hide LastMarked, Printed, FromZone, Wellformed, Uri, HintPart, Flush, Proper, Typed, ToQueryType, ToRRType;
    hide Understood;
    var text := MarkedCaptures(g, q, suffix, k);
    var fewer := q.(zone := q.zone[k + 1..]);
    BodyRead(fewer, suffix);
    UnderstoodAs(fewer, text);
  }

  /** Reading the captures of a query behind some other hint. */
  lemma UnderstoodAs(q: Query, text: string)
    requires text != "" && q.rrLabel != []
    requires ToQueryType(q.queryType.ToString()) == q.queryType && ToRRType(q.rrtype.ToString()) == q.rrtype
    ensures Understood(Captures(text, Body(Slashed(q.zone) + "/", q.queryType.ToString(), Slashed(q.rrLabel),
                                           q.rrtype.ToString())), FRESH)
            == q.(hint := ParseName(text))
  {
    hide Slashed, ParseName, ToQueryType, ToRRType;
    ParseUri(q.zone);
    ParseLabel(q.rrLabel);
  }

  lemma ParseLabel(n: Name)
    requires n != []
    ensures ParseName(Slashed(n)) == n
  {
    ParseUri(n);
  }

  lemma EndsInMarker(stem: string)
    ensures EndsIn([MARKER], stem + MARKER)
  {
    assert (stem + MARKER)[|stem|..] == MARKER;
  }

  lemma OneMarked(stem: string, c: Component)
    requires c == stem + MARKER
    ensures LastMarked([c]) == Just(0) && EndsIn([MARKER], c) && Stem(c) == stem
  {
    EndsInMarker(stem);
    assert [c][1..] == [];
  }

  /** A concrete failure: a query in the zone `/www%F0.` is read as one in the root zone that
      carries the hint `/www`. */
  lemma ZoneReadAsHint()
    ensures var q := Query([], ["www%F0."], Dns, ["a"], TXT);
            var m := Match(QUERY_NAMES, Uri(Printed(q, [])));
            m.Just? && Understood(m.value, FRESH) == Query(["www"], [], Dns, ["a"], TXT)
  {
    var q := Query([], ["www%F0."], Dns, ["a"], TXT);
    hide EndsIn, LastMarked, Match, Understood, FirstPrefix;
    assert "www%F0." == "www" + MARKER;
    OneMarked("www", "www%F0.");
    MarkedReads(QUERY_NAMES, q, []);
    assert Swallowed(q, 0) == Query(["www"], [], Dns, ["a"], TXT);
  }

  /** A concrete failure: for an update in the same zone the index points behind the update, at the
      record type. */
  lemma IndexBehindUpdate(wire: Component)
    ensures var name := Printed(Query([], ["www%F0."], Dns, [wire], DyndnsUpdate), []);
            var m := Match(UPDATE_NAMES, Uri(name));
            m.Just? && UpdateIndex(m.value) == 3 && name[2] == wire && name[3] == "DYNDNSUPDATE"
  {
    hide EndsIn, LastMarked, Match, UpdateIndex, FirstPrefix;
    assert "www%F0." == "www" + MARKER;
    OneMarked("www", "www%F0.");
    UpdateIndexExactly(Query([], ["www%F0."], Dns, [wire], DyndnsUpdate), []);
  }
}
