/** Rock Ridge attributes: names, modes and symbolic links reassembled from entries (rockridge.go). */
module RockRidge {
  import opened Bytes
  import opened Identifiers
  import opened Paths
  import opened Susp

  // ----- The state machine -----

  /** The attributes so far, with the link target and the component being accumulated. */
  datatype Attributes = Attributes(name: Str, hasName: bool, mode: u16, hasMode: bool, link: Link, isSymlink: bool)
  datatype Link = Link(target: Str, comp: Str)

  const NO_LINK: Link := Link([], [])
  const NO_ATTRIBUTES: Attributes := Attributes([], false, 0, false, NO_LINK, false)

  /** A component record of an SL entry. */
  datatype SlComponent = SlComponent(flags: byte, content: Str)
  {
    predicate Continues() { flags % 2 == 1 }
    predicate IsCurrent() { flags / 2 % 2 == 1 }
    predicate IsParent() { flags / 4 % 2 == 1 }
    predicate IsRoot() { flags / 8 % 2 == 1 }
  }

  predicate HasComponent(d: Str, c: nat) {
    c + 2 <= |d| && c + 2 + d[c + 1] <= |d|
  }

  function ComponentAt(d: Str, c: nat): SlComponent
    requires HasComponent(d, c)
  {
    SlComponent(d[c], d[c + 2..c + 2 + d[c + 1]])
  }

  function Components(d: Str, c: nat): seq<SlComponent>
    decreases |d| - c
  {
    if HasComponent(d, c) then [ComponentAt(d, c)] + Components(d, c + 2 + d[c + 1]) else []
  }

  /** Ends a component, unless it continues in the next record. */
  function Flush(target: Str, comp: Str, continues: bool): Link {
    if continues then Link(target, comp)
    else Link((if target != [] && target[|target| - 1] != SLASH then target + [SLASH] else target) + comp, [])
  }

  function TakeComponent(l: Link, c: SlComponent): Link {
    if c.IsCurrent() then Flush(l.target, l.comp + [DOT], c.Continues())
    else if c.IsParent() then Flush(l.target, l.comp + [DOT, DOT], c.Continues())
    else if c.IsRoot() then
      if l == NO_LINK then Link([SLASH], []) else Flush(l.target, l.comp, c.Continues())
    else Flush(l.target, l.comp + c.content, c.Continues())
  }

  function TakeComponents(l: Link, cs: seq<SlComponent>): Link
    decreases |cs|
  {
    if cs == [] then l else TakeComponents(TakeComponent(l, cs[0]), cs[1..])
  }

  /** What one entry does. */
  function Take(a: Attributes, e: SuspEntry): Attributes {
    if e.IsNM() then a.(name := a.name + e.data[1..], hasName := true)
    else if e.IsPX() then a.(mode := Le32(e.data) % 0x1_0000, hasMode := true)
    else if e.IsSL() then a.(isSymlink := true, link := TakeComponents(a.link, Components(e.data[1..], 0)))
    else a
  }

  function TakeAll(a: Attributes, es: seq<SuspEntry>): Attributes
    decreases |es|
  {
    if es == [] then a else TakeAll(Take(a, es[0]), es[1..])
  }

  /** What a System Use Area says. */
  function Parse(sua: Str): Attributes { TakeAll(NO_ATTRIBUTES, Entries(sua, 0)) }

  /** `parseRockRidge`: the loop over entries. */
  method ParseRockRidge(sua: Str) returns (a: Attributes)
    ensures a == Parse(sua)
  {
    a := NO_ATTRIBUTES;
    var o := 0;
    while o + 4 <= |sua|
      invariant TakeAll(a, Entries(sua, o)) == Parse(sua)
      decreases |sua| - o
    {
      var len: int := sua[o + 2];
      if len < 4 || o + len > |sua| { break; }
      EntriesTail(sua, o, o + len);
      a := TakeEntry(a, EntryAt(sua, o));
      o := o + len;
    }
  }

  /** The body of that loop. */
  method TakeEntry(a: Attributes, e: SuspEntry) returns (a': Attributes)
    ensures a' == Take(a, e)
  {
    a' := a;
    if e.IsNM() {
      a' := a'.(name := a'.name + e.data[1..], hasName := true);
    } else if e.IsPX() {
      a' := a'.(mode := Le32(e.data) % 0x1_0000, hasMode := true);
    } else if e.IsSL() {
      var link := WalkComponents(a.link, e.data[1..]);
      a' := a'.(isSymlink := true, link := link);
    }
  }

  lemma ComponentsTail(d: Str, c: nat, next: nat)
    requires HasComponent(d, c) && next == c + 2 + d[c + 1]
    ensures Components(d, c) != [] && Components(d, c)[0] == ComponentAt(d, c)
            && Components(d, c)[1..] == Components(d, next)
  {
  }

  lemma NextComponent(l: Link, d: Str, c: nat, next: nat)
    requires HasComponent(d, c) && next == c + 2 + d[c + 1]
    ensures TakeComponents(l, Components(d, c))
         == TakeComponents(TakeComponent(l, ComponentAt(d, c)), Components(d, next))
  {
    ComponentsTail(d, c, next);
  }

  /** The loop over the component records of one SL entry. */
  method WalkComponents(from: Link, comps: Str) returns (l: Link)
    ensures l == TakeComponents(from, Components(comps, 0))
  {
    var target, comp := from.target, from.comp;
    var ci := 0;
    ghost var all := TakeComponents(from, Components(comps, 0));
    while ci + 2 <= |comps|
      invariant TakeComponents(Link(target, comp), Components(comps, ci)) == all
      decreases |comps| - ci
    {
      var len: int := comps[ci + 1];
      if ci + 2 + len > |comps| { break; }
      var c, next := ComponentAt(comps, ci), ci + 2 + len;
      NextComponent(Link(target, comp), comps, ci, next);
      target, comp := WalkComponent(target, comp, c);
      ci := next;
    }
    assert Components(comps, ci) == [];
    l := Link(target, comp);
  }

  /** The body of that loop. */
  method WalkComponent(target: Str, comp: Str, c: SlComponent) returns (target': Str, comp': Str)
    ensures Link(target', comp') == TakeComponent(Link(target, comp), c)
  {
    target', comp' := target, comp;
    if c.IsCurrent() {
      comp' := comp' + [DOT];
    } else if c.IsParent() {
      comp' := comp' + [DOT, DOT];
    } else if c.IsRoot() {
      if |target'| == 0 && |comp'| == 0 {
        target' := target' + [SLASH];
        return;
      }
    } else {
      comp' := comp' + c.content;
    }
    if !c.Continues() {
      if |target'| > 0 && target'[|target'| - 1] != SLASH { target' := target' + [SLASH]; }
      target', comp' := target' + comp', [];
    }
  }

  // ----- Folding -----

  /** Entries of consecutive areas act one after the other. */
  lemma {:induction false} TakeAllAppend(a: Attributes, xs: seq<SuspEntry>, ys: seq<SuspEntry>)
    ensures TakeAll(a, xs + ys) == TakeAll(TakeAll(a, xs), ys)
    decreases |xs|
  {
    if xs == [] {
      assert xs + ys == ys;
    } else {
      assert (xs + ys)[0] == xs[0] && (xs + ys)[1..] == xs[1..] + ys;
      TakeAllAppend(Take(a, xs[0]), xs[1..], ys);
    }
  }

  lemma {:induction false} TakeComponentsAppend(l: Link, xs: seq<SlComponent>, ys: seq<SlComponent>)
    ensures TakeComponents(l, xs + ys) == TakeComponents(TakeComponents(l, xs), ys)
    decreases |xs|
  {
    if xs == [] {
      assert xs + ys == ys;
    } else {
      assert (xs + ys)[0] == xs[0] && (xs + ys)[1..] == xs[1..] + ys;
      TakeComponentsAppend(TakeComponent(l, xs[0]), xs[1..], ys);
    }
  }

  // ----- Names -----

  /** NM: a flag byte and a piece of the name. */
  predicate HoldsName(e: SuspEntry) { e.sig0 == 0x4E && e.sig1 == 0x4D && |e.data| >= 1 }

  /** The payloads of all NM entries, in order. */
  function NamePieces(es: seq<SuspEntry>): seq<Str> {
    if es == [] then [] else (if HoldsName(es[0]) then [es[0].data[1..]] else []) + NamePieces(es[1..])
  }

  function Flat(pieces: seq<Str>): Str {
    if pieces == [] then [] else pieces[0] + Flat(pieces[1..])
  }

  lemma {:induction false} NameFrom(a: Attributes, es: seq<SuspEntry>)
    ensures TakeAll(a, es).name == a.name + Flat(NamePieces(es))
    ensures TakeAll(a, es).hasName == (a.hasName || NamePieces(es) != [])
    decreases |es|
  {
    if es != [] {
      var rest := NamePieces(es[1..]);
      NameFrom(Take(a, es[0]), es[1..]);
      if HoldsName(es[0]) {
        assert ([es[0].data[1..]] + rest)[1..] == rest;
        Assoc(a.name, es[0].data[1..], Flat(rest));
      } else {
        assert [] + rest == rest;
      }
    }
  }

  /** However a name is split over NM entries, and whatever other entries stand between them, it is read back whole. */
  lemma NameSurvivesSplitting(es: seq<SuspEntry>, name: Str)
    requires (forall e <- es :: |e.data| <= 251) && NamePieces(es) != [] && Flat(NamePieces(es)) == name
    ensures var a := Parse(EncodeEntries(es)); a.hasName && a.name == name
  {
    EntriesOfEncoded(es);
    NameFrom(NO_ATTRIBUTES, es);
  }

  // ----- Link targets -----

  function EncodeComponent(c: SlComponent): Str
    requires |c.content| <= 255
  {
    [c.flags, |c.content|] + c.content
  }

  function EncodeComponents(cs: seq<SlComponent>): Str
    requires forall c <- cs :: |c.content| <= 255
    decreases |cs|
  {
    if cs == [] then [] else EncodeComponent(cs[0]) + EncodeComponents(cs[1..])
  }

  lemma ComponentsStep(d: Str, c: nat, next: nat)
    requires HasComponent(d, c) && next == c + 2 + d[c + 1]
    ensures Components(d, c) == [ComponentAt(d, c)] + Components(d, next)
  {
  }

  lemma SameComponent(a: Str, d: Str, c: nat)
    requires c <= |d|
    ensures HasComponent(a + d, |a| + c) == HasComponent(d, c)
    ensures HasComponent(d, c) ==> ComponentAt(a + d, |a| + c) == ComponentAt(d, c) && (a + d)[|a| + c + 1] == d[c + 1]
  {
    if HasComponent(d, c) {
      var n: int := d[c + 1];
      assert (a + d)[|a| + c + 2..|a| + c + 2 + n] == d[c + 2..c + 2 + n];
    }
  }

  lemma {:induction false} ComponentsShift(a: Str, d: Str, c: nat)
    requires c <= |d|
    ensures Components(a + d, |a| + c) == Components(d, c)
    decreases |d| - c
  {
    SameComponent(a, d, c);
    if HasComponent(d, c) {
      var next := c + 2 + d[c + 1];
      ComponentsStep(d, c, next);
      ComponentsStep(a + d, |a| + c, |a| + next);
      ComponentsShift(a, d, next);
    }
  }

  lemma ComponentInFront(c: SlComponent, rest: Str)
    requires |c.content| <= 255
    ensures var d := EncodeComponent(c) + rest;
              HasComponent(d, 0) && ComponentAt(d, 0) == c && 2 + (d[1] as int) == |EncodeComponent(c)|
  {
  }

  lemma {:induction false} ComponentsOfEncoded(cs: seq<SlComponent>)
    requires forall c <- cs :: |c.content| <= 255
    ensures Components(EncodeComponents(cs), 0) == cs
    decreases |cs|
  {
    if cs != [] {
      var front, rest := EncodeComponent(cs[0]), EncodeComponents(cs[1..]);
      ComponentInFront(cs[0], rest);
      ComponentsOfEncoded(cs[1..]);
      ComponentsShift(front, rest, 0);
      ComponentsStep(front + rest, 0, |front|);
      assert cs == [cs[0]] + cs[1..];
    }
  }

  /** The component records of all SL entries, in order. */
  function LinkRecords(es: seq<SuspEntry>): seq<SlComponent>
    decreases |es|
  {
    if es == [] then [] else (if es[0].IsSL() then Components(es[0].data[1..], 0) else []) + LinkRecords(es[1..])
  }

  predicate AnySL(es: seq<SuspEntry>)
    decreases |es|
  {
    es != [] && (es[0].IsSL() || AnySL(es[1..]))
  }

  lemma {:induction false} LinkFrom(a: Attributes, es: seq<SuspEntry>)
    ensures TakeAll(a, es).link == TakeComponents(a.link, LinkRecords(es))
    ensures TakeAll(a, es).isSymlink == (a.isSymlink || AnySL(es))
    decreases |es|
  {
    if es != [] {
      var rest := LinkRecords(es[1..]);
      LinkFrom(Take(a, es[0]), es[1..]);
      if es[0].IsSL() {
        TakeComponentsAppend(a.link, Components(es[0].data[1..], 0), rest);
      } else {
        assert [] + rest == rest;
      }
    }
  }

  /** An element of a link target. */
  datatype Element = Current | Parent | Named(s: Str)
  {
    function Chars(): Str { match this case Current => [0x2E] case Parent => [0x2E, 0x2E] case Named(s) => s }
    predicate Usable() { Chars() != [] && 0x2F !in Chars() }
  }

  /** The flags of a component record: 1 it continues in the next, 2 ".", 4 "..", 8 the root. */
  predicate Plain(c: SlComponent) { c.flags / 2 % 8 == 0 }

  /** `cs` records the text `s`: chunks that continue, and a last one that does not. */
  predicate IsText(s: Str, cs: seq<SlComponent>)
    decreases |cs|
  {
    && cs != [] && Plain(cs[0]) && cs[0].content <= s && (cs[0].flags % 2 == 1 <==> |cs| > 1)
    && if |cs| == 1 then cs[0].content == s else IsText(s[|cs[0].content|..], cs[1..])
  }

  /** `cs` records the element `e`. */
  predicate Spells(e: Element, cs: seq<SlComponent>) {
    match e
    case Current => |cs| == 1 && cs[0].flags / 2 % 2 == 1 && cs[0].flags % 2 == 0
    case Parent => |cs| == 1 && cs[0].flags / 2 % 4 == 2 && cs[0].flags % 2 == 0
    case Named(s) => IsText(s, cs)
  }

  predicate RecordsRoot(c: SlComponent) { c.flags / 2 % 8 == 4 }

  function FlatRuns(runs: seq<seq<SlComponent>>): seq<SlComponent> {
    if runs == [] then [] else FlatRuns(runs[..|runs| - 1]) + runs[|runs| - 1]
  }

  lemma {:induction false} TextTaken(target: Str, comp: Str, s: Str, cs: seq<SlComponent>)
    requires IsText(s, cs)
    ensures TakeComponents(Link(target, comp), cs) == Flush(target, comp + s, false)
    decreases |cs|
  {
    var c := cs[0].content;
    assert s == c + s[|c|..];
    if |cs| > 1 {
      TextTaken(target, comp + c, s[|c|..], cs[1..]);
      Assoc(comp, c, s[|c|..]);
    } else {
      assert cs[1..] == [];
    }
  }

  lemma RunTaken(target: Str, e: Element, cs: seq<SlComponent>)
    requires Spells(e, cs)
    ensures TakeComponents(Link(target, []), cs) == Flush(target, e.Chars(), false)
  {
    assert [] + e.Chars() == e.Chars();
    if e.Named? { TextTaken(target, [], e.s, cs); } else { assert cs[1..] == []; }
  }

  function CharsOf(elems: seq<Element>): (parts: seq<Text>)
    ensures |parts| == |elems|
  {
    seq(|elems|, i requires 0 <= i < |elems| => elems[i].Chars())
  }

  /** The target: the elements joined by slashes, with one in front if it is absolute. */
  function Target(root: bool, elems: seq<Element>): Text {
    if elems == [] then if root then [SLASH] else []
    else if root then JoinPath(CharsOf(elems))
    else JoinPath(CharsOf(elems))[1..]
  }

  lemma {:induction false} JoinOneMore(parts: seq<Text>, x: Text)
    ensures JoinPath(parts + [x]) == JoinPath(parts) + ([SLASH] + x)
    decreases |parts|
  {
    if parts == [] {
      assert [x][1..] == [] && parts + [x] == [x];
      assert JoinPath([x]) == [SLASH] + x + [] == [] + ([SLASH] + x);
    } else {
      assert (parts + [x])[1..] == parts[1..] + [x];
      JoinOneMore(parts[1..], x);
      Assoc([SLASH] + parts[0], JoinPath(parts[1..]), [SLASH] + x);
    }
  }

  lemma TargetOneMore(root: bool, elems: seq<Element>, e: Element)
    ensures var t := Target(root, elems);
            Target(root, elems + [e]) == (if elems == [] then t else t + [0x2F]) + e.Chars()
    ensures Target(root, []) == if root then [0x2F] else []
  {
    var parts := CharsOf(elems);
    assert CharsOf(elems + [e]) == parts + [e.Chars()];
    JoinOneMore(parts, e.Chars());
    if elems != [] { assert |JoinPath(parts)| > 0; }
  }

  lemma TargetEnd(root: bool, elems: seq<Element>)
    requires elems != [] && elems[|elems| - 1].Usable()
    ensures var t := Target(root, elems); t != [] && t[|t| - 1] != SLASH
  {
    var n := |elems| - 1;
    assert elems == elems[..n] + [elems[n]];
    TargetOneMore(root, elems[..n], elems[n]);
  }

  function LinkStart(root: bool): Link { Link(if root then [SLASH] else [], []) }

  /** The target is complete: no component is pending. */
  predicate Built(l: Link, target: Text) { l.target == target && l.comp == [] }

  /** The records of one more element add it to the target. */
  lemma OneMoreTaken(root: bool, elems: seq<Element>, e: Element, before: seq<SlComponent>, run: seq<SlComponent>)
    requires Spells(e, run) && (elems != [] ==> elems[|elems| - 1].Usable())
    requires Built(TakeComponents(LinkStart(root), before), Target(root, elems))
    ensures Built(TakeComponents(LinkStart(root), before + run), Target(root, elems + [e]))
  {
    TakeComponentsAppend(LinkStart(root), before, run);
    RunTaken(TakeComponents(LinkStart(root), before).target, e, run);
    TargetOneMore(root, elems, e);
    if elems != [] { TargetEnd(root, elems); }
  }

  /** Each element of a target is spelt by its records. */
  predicate AllSpelt(elems: seq<Element>, runs: seq<seq<SlComponent>>) {
    |runs| == |elems| && forall i | 0 <= i < |elems| :: elems[i].Usable() && Spells(elems[i], runs[i])
  }

  /** The records of a target's elements rebuild the target. */
  lemma {:induction false} ElementsTaken(root: bool, elems: seq<Element>, runs: seq<seq<SlComponent>>)
    requires AllSpelt(elems, runs)
    ensures Built(TakeComponents(LinkStart(root), FlatRuns(runs)), Target(root, elems))
    decreases |elems|
  {
    if elems != [] {
      var n := |elems| - 1;
      ElementsTaken(root, elems[..n], runs[..n]);
      OneMoreTaken(root, elems[..n], elems[n], FlatRuns(runs[..n]), runs[n]);
      assert elems == elems[..n] + [elems[n]];
    }
  }

  /** SL: a flag byte and component records. */
  predicate HoldsLink(e: SuspEntry) { e.sig0 == 0x53 && e.sig1 == 0x4C && |e.data| >= 1 }

  /** The SL entries among `es` are, in order, a flag byte and the encoding of the next chunk of component records. */
  predicate Chunked(es: seq<SuspEntry>, chunks: seq<seq<SlComponent>>)
    decreases |es|
  {
    if es == [] then chunks == []
    else if !HoldsLink(es[0]) then Chunked(es[1..], chunks)
    else
      && chunks != [] && (forall c <- chunks[0] :: |c.content| <= 255)
      && es[0].data[1..] == EncodeComponents(chunks[0]) && Chunked(es[1..], chunks[1..])
  }

  function Joined(chunks: seq<seq<SlComponent>>): seq<SlComponent>
    decreases |chunks|
  {
    if chunks == [] then [] else chunks[0] + Joined(chunks[1..])
  }

  /** The reader finds exactly the component records that were encoded, wherever one entry ends and the next begins. */
  lemma {:induction false} EncodedRecordsFound(es: seq<SuspEntry>, chunks: seq<seq<SlComponent>>)
    requires Chunked(es, chunks)
    ensures LinkRecords(es) == Joined(chunks) && (AnySL(es) <==> chunks != [])
    decreases |es|
  {
    if es != [] {
      if HoldsLink(es[0]) {
        ComponentsOfEncoded(chunks[0]);
        EncodedRecordsFound(es[1..], chunks[1..]);
      } else {
        EncodedRecordsFound(es[1..], chunks);
        assert [] + LinkRecords(es[1..]) == LinkRecords(es[1..]);
      }
    }
  }

  /** A link target is written as a root record if it is absolute, then the records of its elements; these are cut
      anywhere into chunks, each encoded in an SL entry of its own. However they are cut, and whatever other entries
      stand between, the same target is read back. */
  lemma TargetSurvivesSplitting(es: seq<SuspEntry>, root: bool, rootRecord: SlComponent, elems: seq<Element>,
                                runs: seq<seq<SlComponent>>, chunks: seq<seq<SlComponent>>)
    requires (forall e <- es :: |e.data| <= 251) && Chunked(es, chunks)
    requires AllSpelt(elems, runs)
    requires RecordsRoot(rootRecord) && Joined(chunks) == (if root then [rootRecord] else []) + FlatRuns(runs)
    ensures var a := Parse(EncodeEntries(es)); a.link.target == Target(root, elems) && (a.isSymlink <==> chunks != [])
  {
    EntriesOfEncoded(es);
    TargetTaken(es, root, rootRecord, elems, runs, chunks);
  }

  lemma TargetTaken(es: seq<SuspEntry>, root: bool, rootRecord: SlComponent, elems: seq<Element>,
                    runs: seq<seq<SlComponent>>, chunks: seq<seq<SlComponent>>)
    requires Chunked(es, chunks) && AllSpelt(elems, runs)
    requires RecordsRoot(rootRecord) && Joined(chunks) == (if root then [rootRecord] else []) + FlatRuns(runs)
    ensures var a := TakeAll(NO_ATTRIBUTES, es);
            a.link.target == Target(root, elems) && (a.isSymlink <==> chunks != [])
  {
    LinkFrom(NO_ATTRIBUTES, es);
    EncodedRecordsFound(es, chunks);
    RootTaken(root, rootRecord);
    TakeComponentsAppend(NO_LINK, if root then [rootRecord] else [], FlatRuns(runs));
    ElementsTaken(root, elems, runs);
  }

  lemma RootTaken(root: bool, c: SlComponent)
    requires RecordsRoot(c)
    ensures TakeComponents(NO_LINK, if root then [c] else []) == LinkStart(root)
  {
    if root {
      RootBits(c);
      assert [c][1..] == [] && TakeComponent(NO_LINK, c) == Link([SLASH], []);
    }
  }

  lemma RootBits(c: SlComponent)
    requires RecordsRoot(c)
    ensures !c.IsCurrent() && !c.IsParent() && c.IsRoot()
  {
  }

  /** A root record that does not come first only ends the component before it. */
  lemma MisplacedRoot(l: Link, c: SlComponent)
    requires RecordsRoot(c) && c.flags % 2 == 0 && (l.target != [] || l.comp != [])
    ensures TakeComponent(l, c)
         == Link((if l.target == [] || l.target[|l.target| - 1] == 0x2F then l.target else l.target + [0x2F]) + l.comp,
                 [])
  {
    RootBits(c);
  }

  /** PX gives the mode: the low 16 bits of its first number. */
  lemma ModeMeans(a: Attributes, mode: u32, more: Str, version: byte)
    ensures var b := Take(a, SuspEntry(0x50, 0x58, version, LE32(mode) + more));
            b == a.(mode := mode % 0x1_0000, hasMode := true)
  {
    ByteOrders32(mode, more);
  }

  /** Following a target means walking its elements, except the current-directory ones. */
  lemma TargetComponents(root: bool, elems: seq<Element>)
    requires forall i | 0 <= i < |elems| :: elems[i].Usable()
    ensures SplitPath(Target(root, elems)) == Kept(CharsOf(elems))
  {
    var parts := CharsOf(elems);
    if elems == [] {
      NothingToWalk();
    } else {
      assert forall p <- parts :: SLASH !in p;
      if root {
        SplitJoined([], parts);
        assert [] + JoinPath(parts) == JoinPath(parts);
        KeptEmptyFirst(parts);
      } else {
        assert JoinPath(parts)[1..] == parts[0] + JoinPath(parts[1..]);
        SplitJoined(parts[0], parts[1..]);
        assert [parts[0]] + parts[1..] == parts;
      }
    }
  }

  lemma NothingToWalk()
    ensures SplitPath([SLASH]) == SplitPath([]) == []
  {
    var e: Text := [];
    assert Split(e) == [e];
    IndexOfIs([SLASH], SLASH, 0);
    assert Split([SLASH]) == [e] + [e];
    assert Kept([e]) == [] by { assert [e][..0] == []; }
    assert Kept([e, e]) == [] by { assert [e, e][..1] == [e]; }
    assert [e] + [e] == [e, e];
  }
}
