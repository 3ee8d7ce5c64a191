/** Hierarchical names and their URI text.

    A component is represented by its canonical (percent-escaped) URI text, so it is
    non-empty and holds no slash. */
module Names {
  predicate IsComponent(s: string) {
    s != "" && '/' !in s
  }

  type Component = s: string | IsComponent(s) witness "a"
  type Name = seq<Component>

  /** The first `count` components, or the whole name when it is shorter. */
  function GetPrefix(n: Name, count: nat): Name {
    GetSubName(n, 0, count)
  }

  /** Up to `count` components from position `start`; both ends are clamped to the name. */
  function GetSubName(n: Name, start: nat, count: nat): Name {
    if start >= |n| then []
    else if start + count <= |n| then n[start..start + count]
    else n[start..]
  }

  /** Every component preceded by a slash; the root name prints as the empty string. */
  function Slashed(n: Name): string {
    if n == [] then "" else "/" + n[0] + Slashed(n[1..])
  }

  function Uri(n: Name): string {
    if n == [] then "/" else Slashed(n)
  }

  /** Splits URI text at its slashes; empty pieces are dropped. */
  function ParseName(s: string): Name {
    Split(s, "")
  }

  function Split(s: string, piece: string): Name
    requires '/' !in piece
  {
    if s == "" then Flush(piece)
    else if s[0] == '/' then Flush(piece) + Split(s[1..], "")
    else Split(s[1..], piece + [s[0]])
  }

  function Flush(piece: string): Name
    requires '/' !in piece
  {
    if piece == "" then [] else [piece]
  }

  lemma {:induction false} SlashedAppend(a: Name, b: Name)
    ensures Slashed(a + b) == Slashed(a) + Slashed(b)
  {
    if a == [] {
      assert a + b == b;
    } else {
      assert (a + b)[1..] == a[1..] + b;
      SlashedAppend(a[1..], b);
    }
  }

  /** Characters other than a slash only extend the piece being read. */
  lemma {:induction false} SplitPiece(c: string, rest: string, piece: string)
    requires '/' !in piece && '/' !in c
    ensures '/' !in piece + c
    ensures Split(c + rest, piece) == Split(rest, piece + c)
  {
    if c == "" {
      assert c + rest == rest && piece + c == piece;
    } else {
      assert (c + rest)[1..] == c[1..] + rest;
      assert piece + c == piece + [c[0]] + c[1..];
      SplitPiece(c[1..], rest, piece + [c[0]]);
    }
  }

  /** Reading one component and what follows it. */
  lemma SplitComponent(c: Component, tail: string)
    requires tail == "" || tail[0] == '/'
    ensures Split("/" + c + tail, "") == [c] + Split(tail, "")
  {
    var text := "/" + c + tail;
    assert text[1..] == c + tail;
    SplitPiece(c, tail, "");
    assert "" + c == c;
    if tail != "" {
      assert Split(tail, c) == Flush(c) + Split(tail[1..], "");
      assert Split(tail, "") == Flush("") + Split(tail[1..], "");
    }
  }

  /** Reading a printed name followed by more text yields its components first. */
  lemma {:induction false} SplitSlashed(n: Name, rest: string)
    requires rest == "" || rest[0] == '/'
    ensures Split(Slashed(n) + rest, "") == n + Split(rest, "")
  {
    hide Split;
    if n == [] {
      assert Slashed(n) + rest == rest;
    } else {
      SplitFirst(n, rest);
      SplitSlashed(n[1..], rest);
      assert n == [n[0]] + n[1..];
    }
  }

  lemma SplitFirst(n: Name, rest: string)
    requires n != [] && (rest == "" || rest[0] == '/')
    ensures Split(Slashed(n) + rest, "") == [n[0]] + Split(Slashed(n[1..]) + rest, "")
  {
    hide Split;
    var tail := Slashed(n[1..]) + rest;
    SplitComponent(n[0], tail);
    assert Slashed(n) + rest == "/" + n[0] + tail;
  }

  /** Parsing is the inverse of printing, with or without a trailing slash. */
  lemma ParseUri(n: Name)
    ensures ParseName(Uri(n)) == n
    ensures ParseName(Slashed(n) + "/") == n
  {
    SplitSlashed(n, "");
    SplitSlashed(n, "/");
    assert Slashed(n) + "" == Slashed(n);
  }

  lemma ParseOne(c: Component)
    ensures ParseName("/" + c) == [c]
  {
    ParseUri([c]);
    assert [c][1..] == [] && Slashed([]) == "" && Slashed([c]) == "/" + c + "" == "/" + c;
  }

  /** Distinct names print differently, so comparing label columns as text compares names. */
  lemma UriInjective(a: Name, b: Name)
    requires Uri(a) == Uri(b)
    ensures a == b
  {
    ParseUri(a);
    ParseUri(b);
  }
}
