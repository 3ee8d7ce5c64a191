/** The SQL `LIKE` operator of SQLite, and the label-prefix test built on it. */
module Like {
  import opened Names

  /** ASCII case folding, as `LIKE` applies it. */
  function Fold(c: char): char {
    if 'A' <= c <= 'Z' then c - 'A' + 'a' else c
  }

  function FoldText(s: string): string {
    seq(|s|, i requires 0 <= i < |s| => Fold(s[i]))
  }

  /** `%` stands for any text, `_` for one character, letters match in either case. */
  predicate Like(pattern: string, s: string)
    decreases |pattern| + |s|
  {
    if pattern == "" then s == ""
    else if pattern[0] == '%' then
      Like(pattern[1..], s) || (s != "" && Like(pattern, s[1..]))
    else
      s != "" && (pattern[0] == '_' || Fold(pattern[0]) == Fold(s[0])) && Like(pattern[1..], s[1..])
  }

  /** The test `rrsets.label LIKE '<queried>/%'`. */
  predicate Extends(queried: Name, stored: Name) {
    Like(Uri(queried) + "/%", Uri(stored))
  }

  predicate LiteralText(s: string) {
    '%' !in s && '_' !in s
  }

  predicate LowerText(s: string) {
    forall c | c in s :: !('A' <= c <= 'Z')
  }

  predicate Literal(n: Name) {
    forall c | c in n :: LiteralText(c)
  }

  predicate Lower(n: Name) {
    forall c | c in n :: LowerText(c)
  }

  /** A concatenated pattern matches exactly the concatenations of matching texts. */
  lemma {:induction false} LikeSplit(a: string, b: string, s: string) returns (k: nat)
    requires Like(a + b, s)
    ensures k <= |s| && Like(a, s[..k]) && Like(b, s[k..])
    decreases |a| + |s|
  {
    if a == "" {
      assert a + b == b;
      k := 0;
      assert s[0..] == s;
    } else {
      assert (a + b)[1..] == a[1..] + b;
      if a[0] == '%' {
        if Like(a[1..] + b, s) {
          k := LikeSplit(a[1..], b, s);
        } else {
          k := LikeSplit(a, b, s[1..]);
          assert s[..k + 1][1..] == s[1..][..k] && s[k + 1..] == s[1..][k..];
          k := k + 1;
        }
      } else {
        k := LikeSplit(a[1..], b, s[1..]);
        assert s[..k + 1][1..] == s[1..][..k] && s[k + 1..] == s[1..][k..];
        k := k + 1;
      }
    }
  }

  lemma {:induction false} LikeJoin(a: string, b: string, s: string, t: string)
    requires Like(a, s) && Like(b, t)
    ensures Like(a + b, s + t)
    decreases |a| + |s|
  {
    if a == "" {
      assert a + b == b && s + t == t;
    } else {
      assert (a + b)[1..] == a[1..] + b;
      if a[0] == '%' && Like(a[1..], s) {
        LikeJoin(a[1..], b, s, t);
      } else if a[0] == '%' {
        LikeJoin(a, b, s[1..], t);
        assert (s + t)[1..] == s[1..] + t;
      } else {
        LikeJoin(a[1..], b, s[1..], t);
        assert (s + t)[1..] == s[1..] + t;
      }
    }
  }

  lemma {:induction false} LikeSelf(p: string)
    ensures Like(p, p)
  {
    if p != "" {
      LikeSelf(p[1..]);
      if p[0] == '%' {
        assert Like(p, p[1..]);
      }
    }
  }

  lemma {:induction false} LikeAny(s: string)
    ensures Like("%", s)
  {
    if s != "" {
      LikeAny(s[1..]);
    } else {
      assert "%"[1..] == "";
    }
  }

  /** A pattern without wildcards matches exactly the texts equal to it up to case. */
  lemma {:induction false} LikeLiteral(p: string, s: string)
    requires LiteralText(p)
    ensures Like(p, s) <==> FoldText(p) == FoldText(s)
  {
    if p == "" || s == "" {
      assert |FoldText(p)| == |p| && |FoldText(s)| == |s|;
    } else {
      assert p[0] in p;
      LikeLiteral(p[1..], s[1..]);
      assert FoldText(p[1..]) == FoldText(p)[1..] && FoldText(s[1..]) == FoldText(s)[1..];
      assert FoldText(p) == [Fold(p[0])] + FoldText(p)[1..];
      assert FoldText(s) == [Fold(s[0])] + FoldText(s)[1..];
    }
  }

  /** Cutting a pattern short and ending it with `%` only widens it. */
  lemma LikeWidened(a: string, b: string, s: string)
    requires Like(a + b, s)
    ensures Like(a + "%", s)
  {
    var k := LikeSplit(a, b, s);
    LikeAny(s[k..]);
    LikeJoin(a, "%", s[..k], s[k..]);
    assert s == s[..k] + s[k..];
  }

  lemma LikeOwnExtension(a: string, t: string)
    ensures Like(a + "%", a + t)
  {
    LikeSelf(a);
    LikeAny(t);
    LikeJoin(a, "%", a, t);
  }

  /** A name extended by further components prints as the shorter text, a slash, and more. */
  lemma SlashedExtension(shorter: Name, longer: Name) returns (more: string)
    requires shorter < longer
    ensures Slashed(longer) == Slashed(shorter) + "/" + more
  {
    var rest := longer[|shorter|..];
    assert longer == shorter + rest;
    SlashedAppend(shorter, rest);
    more := rest[0] + Slashed(rest[1..]);
    assert Slashed(rest) == "/" + more;
    assert Slashed(shorter) + "/" + more == Slashed(shorter) + ("/" + more);
  }

  /** Auth is monotone: a shorter prefix of the queried label also passes the test. */
  lemma ExtendsMonotone(shorter: Name, longer: Name, stored: Name)
    requires shorter != [] && shorter <= longer && Extends(longer, stored)
    ensures Extends(shorter, stored)
  {
    if shorter == longer {
      return;
    }
    var more := SlashedExtension(shorter, longer);
    var head := Uri(shorter) + "/";
    assert Uri(longer) + "/%" == head + (more + "/%");
    LikeWidened(head, more + "/%", Uri(stored));
    assert Uri(shorter) + "/%" == head + "%";
  }

  /** Whatever characters occur in it, a label passes the test against its own extensions. */
  lemma ExtendsOwnExtension(queried: Name, stored: Name)
    requires queried != [] && queried < stored
    ensures Extends(queried, stored)
  {
    var more := SlashedExtension(queried, stored);
    LikeOwnExtension(Uri(queried) + "/", more);
    assert Uri(queried) + "/%" == Uri(queried) + "/" + "%";
  }

  /** The component-wise relation the test computes when the label holds no wildcard. */
  predicate ExtendsFolded(queried: Name, stored: Name) {
    |queried| < |stored|
    && forall i | 0 <= i < |queried| :: FoldText(queried[i]) == FoldText(stored[i])
  }

  lemma FoldTextAppend(a: string, b: string)
    ensures FoldText(a + b) == FoldText(a) + FoldText(b)
  {
  }

  lemma {:induction false} LiteralSlashed(n: Name)
    requires Literal(n)
    ensures LiteralText(Slashed(n))
  {
    if n != [] {
      assert LiteralText(n[0]);
      LiteralSlashed(n[1..]);
    }
  }

  /** Folding keeps slashes, so equal folded text splits at the same component boundary. */
  lemma FirstPieceLength(p: string, ptail: string, s: string, stail: string)
    requires '/' !in p && '/' !in s
    requires ptail != "" && ptail[0] == '/'
    requires stail == "" || stail[0] == '/'
    requires FoldText(p + ptail) <= FoldText(s + stail)
    ensures |p| == |s| && FoldText(p) == FoldText(s) && FoldText(ptail) <= FoldText(stail)
  {
    var fp, fs := FoldText(p + ptail), FoldText(s + stail);
    assert forall i | 0 <= i < |fp| :: fp[i] == fs[i];
    assert forall i | 0 <= i < |p| :: p[i] in p && fp[i] != '/';
    assert forall i | 0 <= i < |s| :: s[i] in s && fs[i] != '/';
    assert fp[|p|] == '/' && (|s| < |fs| ==> fs[|s|] == '/');
    assert |p| == |s|;
    FoldTextAppend(p, ptail);
    FoldTextAppend(s, stail);
    assert FoldText(p) == fp[..|p|] && FoldText(s) == fs[..|s|];
    assert FoldText(ptail) == fp[|p|..] && FoldText(stail) == fs[|s|..];
  }

  /** Comparing the first components reduces prefix testing to the remaining ones. */
  lemma FoldedStep(p: string, ptail: string, s: string, stail: string)
    requires '/' !in p && '/' !in s
    requires ptail != "" && ptail[0] == '/'
    requires stail == "" || stail[0] == '/'
    ensures FoldText("/" + p + ptail) <= FoldText("/" + s + stail)
            <==> FoldText(p) == FoldText(s) && FoldText(ptail) <= FoldText(stail)
  {
    assert "/" + p + ptail == "/" + (p + ptail) && "/" + s + stail == "/" + (s + stail);
    var fp, fs := FoldText(p + ptail), FoldText(s + stail);
    assert FoldText("/" + p + ptail) == ['/'] + fp && FoldText("/" + s + stail) == ['/'] + fs;
    assert (['/'] + fp)[1..] == fp && (['/'] + fs)[1..] == fs;
    assert ['/'] + fp <= ['/'] + fs <==> fp <= fs;
    FoldTextAppend(p, ptail);
    FoldTextAppend(s, stail);
    if fp <= fs {
      FirstPieceLength(p, ptail, s, stail);
    }
  }

  lemma {:induction false} FoldedPrefix(queried: Name, stored: Name)
    ensures FoldText(Slashed(queried) + "/") <= FoldText(Slashed(stored)) <==> ExtendsFolded(queried, stored)
  {
    var pattern := Slashed(queried) + "/";
    if stored == [] {
      assert FoldText(Slashed(stored)) == "" && |FoldText(pattern)| > 0;
    } else if queried == [] {
      assert FoldText(pattern) == "/" && FoldText(Slashed(stored))[0] == '/';
    } else {
      var p, s := Slashed(queried[1..]) + "/", Slashed(stored[1..]);
      assert pattern == "/" + queried[0] + p;
      FoldedStep(queried[0], p, stored[0], s);
      FoldedPrefix(queried[1..], stored[1..]);
      ExtendsFoldedStep(queried, stored);
    }
  }

  lemma ExtendsFoldedStep(queried: Name, stored: Name)
    requires queried != [] && stored != []
    ensures ExtendsFolded(queried, stored)
            <==> FoldText(queried[0]) == FoldText(stored[0]) && ExtendsFolded(queried[1..], stored[1..])
  {
    if FoldText(queried[0]) == FoldText(stored[0]) && ExtendsFolded(queried[1..], stored[1..]) {
      forall i | 0 < i < |queried|
        ensures FoldText(queried[i]) == FoldText(stored[i])
      {
        assert queried[1..][i - 1] == queried[i] && stored[1..][i - 1] == stored[i];
      }
    }
  }

  lemma LikeFoldedPrefix(p: string, s: string)
    requires LiteralText(p)
    ensures Like(p + "%", s) <==> FoldText(p) <= FoldText(s)
  {
    if Like(p + "%", s) {
      var k := LikeSplit(p, "%", s);
      LikeLiteral(p, s[..k]);
      FoldTextAppend(s[..k], s[k..]);
      assert s == s[..k] + s[k..];
    }
    if FoldText(p) <= FoldText(s) {
      var k := |FoldText(p)|;
      FoldTextAppend(s[..k], s[k..]);
      assert s == s[..k] + s[k..];
      assert FoldText(p) == FoldText(s)[..k] == FoldText(s[..k]);
      LikeLiteral(p, s[..k]);
      LikeAny(s[k..]);
      LikeJoin(p, "%", s[..k], s[k..]);
    }
  }

  /** With no wildcard in the queried label, the test is "stored strictly extends queried,
      component by component, up to letter case". */
  lemma ExtendsExactly(queried: Name, stored: Name)
    requires queried != [] && Literal(queried)
    ensures Extends(queried, stored) <==> ExtendsFolded(queried, stored)
  {
    LiteralSlashed(queried);
    assert LiteralText(Uri(queried) + "/");
    LikeFoldedPrefix(Uri(queried) + "/", Uri(stored));
    assert Uri(queried) + "/%" == Uri(queried) + "/" + "%";
    if stored == [] {
      assert |Uri(stored)| == 1;
    } else {
      FoldedPrefix(queried, stored);
    }
  }

  lemma FoldLower(s: string)
    requires LowerText(s)
    ensures FoldText(s) == s
  {
    assert forall i | 0 <= i < |s| :: s[i] in s;
  }

  /** For wildcard-free text in one letter case the test is exactly "strict extension". */
  lemma ExtendsIsStrictPrefix(queried: Name, stored: Name)
    requires queried != [] && Literal(queried) && Lower(queried) && Lower(stored)
    ensures Extends(queried, stored) <==> queried < stored
  {
    ExtendsExactly(queried, stored);
    forall i | 0 <= i < |queried| && i < |stored|
      ensures FoldText(queried[i]) == FoldText(stored[i]) <==> queried[i] == stored[i]
    {
      assert queried[i] in queried && stored[i] in stored;
      FoldLower(queried[i]);
      FoldLower(stored[i]);
    }
    if ExtendsFolded(queried, stored) {
      assert queried == stored[..|queried|];
    }
  }

  // ----- When the test is a prefix test --------------------------------------------------------

  predicate Letter(c: char) {
    'a' <= c <= 'z' || 'A' <= c <= 'Z'
  }

  /** A character the test reads as more than itself. */
  predicate Loose(c: char) {
    c == '%' || c == '_' || Letter(c)
  }

  /** No component holds a wildcard or a letter. */
  predicate Strict(n: Name) {
    forall i, k | 0 <= i < |n| && 0 <= k < |n[i]| :: !Loose(n[i][k])
  }

  /** Another character that a loose one matches. */
  function Twin(c: char): (d: char)
    requires Loose(c)
    ensures d != c && d != '/'
  {
    if 'a' <= c <= 'z' then c - 'a' + 'A' else if 'A' <= c <= 'Z' then c - 'A' + 'a' else 'x'
  }

  lemma TwinMatches(c: char)
    requires Loose(c)
    ensures Like([c], [Twin(c)])
  {
    assert [c][1..] == "" && [Twin(c)][1..] == "";
    if c == '%' {
      LikeAny([Twin(c)]);
    }
  }

  /** Text matches itself with one loose character replaced, and anything behind it. */
  lemma TwinText(a: string, c: char, b: string, more: string)
    requires Loose(c)
    ensures Like(a + [c] + b + "%", a + [Twin(c)] + b + more)
  {
    hide Like;
    LikeSelf(a);
    TwinMatches(c);
    LikeJoin(a, [c], a, [Twin(c)]);
    LikeSelf(b);
    LikeJoin(a + [c], b, a + [Twin(c)], b);
    LikeAny(more);
    LikeJoin(a + [c] + b, "%", a + [Twin(c)] + b, more);
  }

  /** The label with one character replaced, and a component below it. */
  function Confused(n: Name, i: nat, k: nat): (r: Name)
    requires i < |n| && k < |n[i]| && Loose(n[i][k])
    ensures !(n < r)
  {
    var c := n[i][..k] + [Twin(n[i][k])] + n[i][k + 1..];
    assert IsComponent(c) by {
      assert forall x | x in c :: x in n[i] || x == Twin(n[i][k]);
    }
    assert c[k] != n[i][k];
    n[..i] + [c] + n[i + 1..] + ["x"]
  }

  lemma SlashedAround(n: Name, i: nat, c: Component)
    requires i < |n|
    ensures Slashed(n[..i] + [c] + n[i + 1..]) == Slashed(n[..i]) + "/" + c + Slashed(n[i + 1..])
  {
    SlashedAppend(n[..i], [c] + n[i + 1..]);
    assert n[..i] + [c] + n[i + 1..] == n[..i] + ([c] + n[i + 1..]);
    assert ([c] + n[i + 1..])[1..] == n[i + 1..];
  }

  lemma Regroup(x: string, front: string, c: char, back: string, y: string, tail: string)
    ensures x + "/" + (front + [c] + back) + y + "/" + tail == (x + "/" + front) + [c] + (back + y + "/") + tail
  {
  }

  /** Both names as text, split at the character. */
  lemma ConfusedText(n: Name, i: nat, k: nat) returns (a: string, b: string)
    requires i < |n| && k < |n[i]| && Loose(n[i][k])
    ensures Uri(n) + "/%" == a + [n[i][k]] + b + "%"
    ensures Uri(Confused(n, i, k)) == a + [Twin(n[i][k])] + b + "x"
  {
    var c, d := n[i][k], Confused(n, i, k)[i];
    var x, y, front, back := Slashed(n[..i]), Slashed(n[i + 1..]), n[i][..k], n[i][k + 1..];
    SlashedAround(n, i, n[i]);
    SlashedAround(n, i, d);
    SlashedAppend(n[..i] + [d] + n[i + 1..], ["x"]);
    SlashedOne("x");
    Regroup(x, front, c, back, y, "%");
    Regroup(x, front, Twin(c), back, y, "x");
    hide Slashed;
    a, b := x + "/" + front, back + y + "/";
    assert n == n[..i] + [n[i]] + n[i + 1..] && n[i] == front + [c] + back;
    assert Uri(n) + "/%" == Uri(n) + "/" + "%";
    assert Uri(Confused(n, i, k)) == x + "/" + d + y + "/" + "x";
  }

  lemma ConfusedExtends(n: Name, i: nat, k: nat)
    requires i < |n| && k < |n[i]| && Loose(n[i][k])
    ensures Extends(n, Confused(n, i, k))
  {
    hide Like, Uri;
    var a, b := ConfusedText(n, i, k);
    TwinText(a, n[i][k], b, "x");
  }

  lemma SlashedOne(c: Component)
    ensures Slashed([c]) == "/" + c
  {
    assert [c][1..] == [];
  }

  /** Text without letters is equal to what it equals up to letter case. */
  lemma FoldStrict(s: string, t: string)
    requires forall k | 0 <= k < |s| :: !Letter(s[k])
    ensures FoldText(s) == FoldText(t) <==> s == t
  {
    if FoldText(s) == FoldText(t) {
      assert |s| == |FoldText(s)| == |t|;
      forall k | 0 <= k < |s|
        ensures s[k] == t[k]
      {
        assert FoldText(s)[k] == FoldText(t)[k];
      }
    }
  }

  lemma StrictIsPrefix(queried: Name, stored: Name)
    requires queried != [] && Strict(queried)
    ensures Extends(queried, stored) <==> queried < stored
  {
    hide Extends;
    forall c | c in queried
      ensures LiteralText(c)
    {
      var i :| 0 <= i < |queried| && queried[i] == c;
      assert forall k | 0 <= k < |c| :: !Loose(queried[i][k]);
    }
    ExtendsExactly(queried, stored);
    forall i | 0 <= i < |queried| && i < |stored|
      ensures FoldText(queried[i]) == FoldText(stored[i]) <==> queried[i] == stored[i]
    {
      FoldStrict(queried[i], stored[i]);
    }
    if ExtendsFolded(queried, stored) {
      assert queried == stored[..|queried|];
    }
  }

  ghost predicate IsPrefixTest(queried: Name) {
    forall stored: Name :: Extends(queried, stored) <==> queried < stored
  }

  /** The test for a label is a strict-prefix test, over all stored labels, if and only if the label
      holds neither a wildcard (`%`, which every percent-escape carries, or `_`) nor a letter. */
  lemma PrefixTestExactly(queried: Name)
    requires queried != []
    ensures IsPrefixTest(queried) <==> Strict(queried)
  {
    hide Extends;
    if Strict(queried) {
      forall stored: Name
        ensures Extends(queried, stored) <==> queried < stored
      {
        StrictIsPrefix(queried, stored);
      }
    } else {
      var i, k :| 0 <= i < |queried| && 0 <= k < |queried[i]| && Loose(queried[i][k]);
      ConfusedExtends(queried, i, k);
    }
  }

  lemma LooserAt(a: string, c: char, b: string)
    requires Loose(c) && IsComponent(a + [c] + b)
    ensures IsComponent(a + [Twin(c)] + b)
    ensures Extends([a + [c] + b], [a + [Twin(c)] + b, "x"]) && !([a + [c] + b] < [a + [Twin(c)] + b, "x"])
  {
    hide Extends;
    var n: Name := [a + [c] + b];
    var r := Confused(n, 0, |a|);
    ConfusedExtends(n, 0, |a|);
    assert n[0][..|a|] == a && n[0][|a| + 1..] == b;
    assert r == [a + [Twin(c)] + b, "x"];
  }

  /** The three ways of being looser: either wildcard matches other characters, and letter case is
      ignored. */
  lemma ExtendsIsLooser()
    ensures Extends(["%41"], ["x41", "x"]) && !(["%41"] < ["x41", "x"])
    ensures Extends(["a_c"], ["axc", "x"]) && !(["a_c"] < ["axc", "x"])
    ensures Extends(["www"], ["Www", "x"]) && !(["www"] < ["Www", "x"])
  {
    hide Extends;
    LooserAt("", '%', "41");
    LooserAt("a", '_', "c");
    LooserAt("", 'w', "ww");
    assert "" + ['%'] + "41" == "%41" && "" + ['x'] + "41" == "x41";
    assert "a" + ['_'] + "c" == "a_c" && "a" + ['x'] + "c" == "axc";
    assert "" + ['w'] + "ww" == "www" && "" + ['W'] + "ww" == "Www";
  }
}
