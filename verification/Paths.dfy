/** Slash-separated paths (fs.go, `splitPath`). Only "" and "." are dropped: ".." is an ordinary component. */
module Paths {
  import opened Bytes
  import opened Identifiers

  /** `strings.Split(p, "/")`. */
  function Split(p: Text): (s: seq<Text>)
    ensures |s| > 0
    decreases |p|
  {
    var i := IndexOf(p, SLASH);
    if i < 0 then [p] else [p[..i]] + Split(p[i + 1..])
  }

  predicate Dropped(c: Text) { c == [] || c == [DOT] }

  function Kept(parts: seq<Text>): seq<Text> {
    if parts == [] then []
    else Kept(parts[..|parts| - 1]) + if Dropped(parts[|parts| - 1]) then [] else [parts[|parts| - 1]]
  }

  function SplitPath(p: Text): seq<Text> { Kept(Split(p)) }

  method SplitComponents(p: Text) returns (out: seq<Text>)
    ensures out == SplitPath(p)
  {
    out := [];
    var parts := Split(p);
    for i := 0 to |parts|
      invariant out == Kept(parts[..i])
    {
      assert parts[..i + 1][..i] == parts[..i];
      if Dropped(parts[i]) { continue; }
      out := out + [parts[i]];
    }
    assert parts[..|parts|] == parts;
  }

  predicate AllGiven(parts: seq<Text>) { forall c <- parts :: c != [] }

  /** A usable component: not dropped, and without a slash. */
  predicate Component(c: Text) { !Dropped(c) && SLASH !in c }

  lemma {:induction false} SplitNoSlash(p: Text)
    ensures forall c <- Split(p) :: SLASH !in c
    decreases |p|
  {
    var i := IndexOf(p, SLASH);
    if i >= 0 { SplitNoSlash(p[i + 1..]); }
  }

  lemma {:induction false} KeptFrom(parts: seq<Text>)
    ensures forall c <- Kept(parts) :: c in parts && !Dropped(c)
  {
    if parts != [] { KeptFrom(parts[..|parts| - 1]); }
  }

  /** Every component of a split path is usable. */
  lemma SplitComponentsUsable(p: Text)
    ensures forall c <- SplitPath(p) :: Component(c)
  {
    SplitNoSlash(p);
    KeptFrom(Split(p));
  }

  /** The absolute path made of these components. */
  function JoinPath(parts: seq<Text>): Text {
    if parts == [] then [] else [SLASH] + parts[0] + JoinPath(parts[1..])
  }

  lemma SplitAt(c: Text, tail: Text)
    requires SLASH !in c
    ensures Split(c + [SLASH] + tail) == [c] + Split(tail)
  {
    var p := c + [SLASH] + tail;
    IndexOfIs(p, SLASH, |c|);
    assert p[..|c|] == c && p[|c| + 1..] == tail;
  }

  lemma {:induction false} SplitJoined(c: Text, rest: seq<Text>)
    requires SLASH !in c && forall r <- rest :: SLASH !in r
    ensures Split(c + JoinPath(rest)) == [c] + rest
    decreases |rest|
  {
    var p := c + JoinPath(rest);
    if rest == [] {
      assert p == c;
    } else {
      var tail := rest[0] + JoinPath(rest[1..]);
      assert SLASH !in rest[0];
      SplitJoined(rest[0], rest[1..]);
      SplitAt(c, tail);
      Assoc(c, [SLASH], tail);
      assert [SLASH] + tail == JoinPath(rest) by { Assoc([SLASH], rest[0], JoinPath(rest[1..])); }
      assert rest == [rest[0]] + rest[1..];
    }
  }

  lemma {:induction false} KeptAll(parts: seq<Text>)
    requires forall c <- parts :: !Dropped(c)
    ensures Kept(parts) == parts
  {
    if parts != [] {
      var n := |parts| - 1;
      KeptAll(parts[..n]);
      assert parts[n] in parts;
      assert parts == parts[..n] + [parts[n]];
    }
  }

  lemma {:induction false} KeptEmptyFirst(parts: seq<Text>)
    ensures Kept([[]] + parts) == Kept(parts)
  {
    if parts == [] {
      assert ([[]] + parts)[..0] == [];
    } else {
      var n := |parts| - 1;
      KeptEmptyFirst(parts[..n]);
      assert ([[]] + parts)[..n + 1] == [[]] + parts[..n];
    }
  }

  /** Splitting undoes joining. */
  lemma SplitUndoesJoin(parts: seq<Text>)
    requires forall c <- parts :: Component(c)
    ensures SplitPath(JoinPath(parts)) == parts
  {
    SplitJoined([], parts);
    assert [] + JoinPath(parts) == JoinPath(parts);
    KeptEmptyFirst(parts);
    KeptAll(parts);
  }

  // ----- What splitting means on any path -----

  lemma {:induction false} KeptAppend(x: seq<Text>, y: seq<Text>)
    ensures Kept(x + y) == Kept(x) + Kept(y)
    decreases |y|
  {
    if y == [] {
      assert x + y == x;
    } else {
      var n := |y| - 1;
      KeptAppend(x, y[..n]);
      assert (x + y)[..|x + y| - 1] == x + y[..n];
      Assoc(Kept(x), Kept(y[..n]), if Dropped(y[n]) then [] else [y[n]]);
    }
  }

  lemma {:induction false} SplitBoth(a: Text, b: Text)
    ensures Split(a + [SLASH] + b) == Split(a) + Split(b)
    decreases |a|
  {
    var i := IndexOf(a, SLASH);
    if i < 0 {
      SplitAt(a, b);
    } else {
      var c, rest := a[..i], a[i + 1..];
      SplitBoth(rest, b);
      assert a + [SLASH] + b == c + [SLASH] + (rest + [SLASH] + b);
      SplitAt(c, rest + [SLASH] + b);
      Assoc([c], Split(rest), Split(b));
    }
  }

  /** Every path: cut at a slash, its parts split one by one; what holds no slash is one component, unless it is empty
      or ".". So slashes in front, at the end or in a row change nothing, and ".." is a component. */
  lemma SplitPathMeans(a: Text, b: Text)
    ensures SplitPath(a + [0x2F] + b) == SplitPath(a) + SplitPath(b)
    ensures 0x2F !in a ==> SplitPath(a) == if a == [] || a == [0x2E] then [] else [a]
  {
    SplitBoth(a, b);
    KeptAppend(Split(a), Split(b));
    if 0x2F !in a { assert Split(a) == [a] && [a][..0] == []; }
  }
}
