/** Path resolution over any directory graph, cyclic or not (fs.go, `resolveFrom`). */
module Resolving {
  import opened Bytes
  import opened Identifiers
  import opened DirRecords
  import opened Paths

  /** What resolution sees of an image: the root, the entries of a directory, each entry's name and, for a symbolic
      link, its target; and the case-insensitive comparison of names. */
  datatype View = View(root: DirRecord, list: DirRecord -> Result<seq<DirRecord>>, name: DirRecord -> Text,
                       link: DirRecord -> Option<Text>, fold: (Text, Text) -> bool)

  const MAX_HOPS: nat := 40

  // ----- One component -----

  predicate Matches(v: View, e: DirRecord, name: Text, exact: bool) {
    !e.IsSpecial() && if exact then v.name(e) == name else v.fold(v.name(e), name)
  }

  function FirstMatch(v: View, es: seq<DirRecord>, name: Text, exact: bool, i: nat): Option<DirRecord>
    decreases |es| - i
  {
    if i >= |es| then None
    else if Matches(v, es[i], name, exact) then Some(es[i])
    else FirstMatch(v, es, name, exact, i + 1)
  }

  /** The first exact match, else the first case-insensitive one. */
  function Find(v: View, es: seq<DirRecord>, name: Text): Option<DirRecord> {
    var c := FirstMatch(v, es, name, true, 0);
    if c.Some? then c else FirstMatch(v, es, name, false, 0)
  }

  function Enter(v: View, cur: DirRecord, name: Text): Result<DirRecord> {
    if !cur.IsDir() then Err(NotDirectory)
    else match v.list(cur)
      case Err(e) => Err(e)
      case Ok(es) => match Find(v, es, name)
        case None => Err(NotFound)
        case Some(c) => Ok(c)
  }

  /** Entry c, reached as component i, is a link that is to be followed. */
  predicate Follows(v: View, c: DirRecord, parts: seq<Text>, i: nat, follow: bool) {
    v.link(c).Some? && (i + 1 != |parts| || follow)
  }

  /** Relative targets resolve in the directory that contains the link. */
  function BaseOf(v: View, cur: DirRecord, target: Text): DirRecord {
    if target != [] && target[0] == SLASH then v.root else cur
  }

  // ----- resolveFrom -----

  /** Walks `parts[i..]` from `cur`; terminates on every graph by (hops left, components left). */
  function Resolve(v: View, cur: DirRecord, parts: seq<Text>, i: nat, follow: bool, hops: nat): Result<DirRecord>
    decreases MAX_HOPS + 1 - hops, |parts| - i
  {
    if hops > MAX_HOPS then Err(TooManyLinks)
    else if i >= |parts| then Ok(cur)
    else match Enter(v, cur, parts[i])
      case Err(e) => Err(e)
      case Ok(c) =>
        if Follows(v, c, parts, i, follow) then
          var t := v.link(c).value;
          match Resolve(v, BaseOf(v, cur, t), SplitPath(t), 0, true, hops + 1)
          case Err(e) => Err(e)
          case Ok(c') => Resolve(v, c', parts, i + 1, follow, hops)
        else Resolve(v, c, parts, i + 1, follow, hops)
  }

  /** Where component i leads from `cur`: to its entry, or through the link that this is. */
  function NextOf(v: View, cur: DirRecord, parts: seq<Text>, i: nat, follow: bool, hops: nat): Result<DirRecord>
    requires i < |parts| && hops <= MAX_HOPS
  {
    match Enter(v, cur, parts[i])
    case Err(e) => Err(e)
    case Ok(c) =>
      if Follows(v, c, parts, i, follow)
      then Resolve(v, BaseOf(v, cur, v.link(c).value), SplitPath(v.link(c).value), 0, true, hops + 1)
      else Ok(c)
  }

  lemma NextFails(v: View, cur: DirRecord, parts: seq<Text>, i: nat, follow: bool, hops: nat)
    requires i < |parts| && hops <= MAX_HOPS && Enter(v, cur, parts[i]).Err?
    ensures NextOf(v, cur, parts, i, follow, hops) == Enter(v, cur, parts[i])
  {
  }

  lemma NextIsEntry(v: View, cur: DirRecord, parts: seq<Text>, i: nat, follow: bool, hops: nat, c: DirRecord)
    requires i < |parts| && hops <= MAX_HOPS && Enter(v, cur, parts[i]) == Ok(c) && !Follows(v, c, parts, i, follow)
    ensures NextOf(v, cur, parts, i, follow, hops) == Ok(c)
  {
  }

  lemma NextIsTarget(v: View, cur: DirRecord, parts: seq<Text>, i: nat, follow: bool, hops: nat, c: DirRecord,
                     base: DirRecord, target: Text, r: Result<DirRecord>)
    requires i < |parts| && hops <= MAX_HOPS && Enter(v, cur, parts[i]) == Ok(c) && Follows(v, c, parts, i, follow)
    requires v.link(c) == Some(target) && base == BaseOf(v, cur, target)
    requires r == Resolve(v, base, SplitPath(target), 0, true, hops + 1)
    ensures NextOf(v, cur, parts, i, follow, hops) == r
  {
  }

  lemma ResolveNext(v: View, cur: DirRecord, parts: seq<Text>, i: nat, follow: bool, hops: nat)
    requires i < |parts| && hops <= MAX_HOPS
    ensures Resolve(v, cur, parts, i, follow, hops)
         == AndThen(NextOf(v, cur, parts, i, follow, hops), v, parts, i + 1, follow, hops)
  {
  }

  // ----- What it means, without a budget -----

  /** A derivation of a resolution: nothing left, one plain component, or one link resolved on the way. */
  datatype Derivation = Here | Plain(rest: Derivation) | Via(inner: Derivation, target: DirRecord, rest: Derivation)

  /** `d` derives that walking `parts[i..]` from `cur` ends at `res`. */
  predicate Derives(v: View, d: Derivation, cur: DirRecord, parts: seq<Text>, i: nat, follow: bool, res: DirRecord)
    decreases d
  {
    if d.Here? then i >= |parts| && res == cur
    else
      && i < |parts| && Enter(v, cur, parts[i]).Ok?
      && var c := Enter(v, cur, parts[i]).value;
         match d
         case Plain(rest) => !Follows(v, c, parts, i, follow) && Derives(v, rest, c, parts, i + 1, follow, res)
         case Via(inner, target, rest) =>
           && Follows(v, c, parts, i, follow)
           && Derives(v, inner, if v.link(c).value != [] && v.link(c).value[0] == 0x2F then v.root else cur,
                      SplitPath(v.link(c).value), 0, true, target)
           && Derives(v, rest, target, parts, i + 1, follow, res)
  }

  /** How deep links nest in a derivation. */
  function Depth(d: Derivation): nat {
    match d
    case Here => 0
    case Plain(rest) => Depth(rest)
    case Via(inner, _, rest) => Max(1 + Depth(inner), Depth(rest))
  }

  lemma LinkDerives(v: View, cur: DirRecord, parts: seq<Text>, i: nat, follow: bool, c: DirRecord, t: Text,
                    inner: Derivation, target: DirRecord, rest: Derivation, res: DirRecord)
    requires i < |parts| && Enter(v, cur, parts[i]) == Ok(c) && Follows(v, c, parts, i, follow) && v.link(c) == Some(t)
    requires Derives(v, inner, BaseOf(v, cur, t), SplitPath(t), 0, true, target)
    requires Derives(v, rest, target, parts, i + 1, follow, res)
    ensures Derives(v, Via(inner, target, rest), cur, parts, i, follow, res)
  {
  }

  lemma PlainDerives(v: View, cur: DirRecord, parts: seq<Text>, i: nat, follow: bool, c: DirRecord, rest: Derivation,
                     res: DirRecord)
    requires i < |parts| && Enter(v, cur, parts[i]) == Ok(c) && !Follows(v, c, parts, i, follow)
    requires Derives(v, rest, c, parts, i + 1, follow, res)
    ensures Derives(v, Plain(rest), cur, parts, i, follow, res)
  {
  }

  lemma {:induction false} SuccessDerives(v: View, cur: DirRecord, parts: seq<Text>, i: nat, follow: bool, hops: nat)
    returns (d: Derivation)
    requires Resolve(v, cur, parts, i, follow, hops).Ok?
    ensures Derives(v, d, cur, parts, i, follow, Resolve(v, cur, parts, i, follow, hops).value)
            && hops + Depth(d) <= MAX_HOPS
    decreases MAX_HOPS + 1 - hops, |parts| - i
  {
    if i >= |parts| { return Here; }
    var c, res := Enter(v, cur, parts[i]).value, Resolve(v, cur, parts, i, follow, hops).value;
    if Follows(v, c, parts, i, follow) {
      var t := v.link(c).value;
      var c' := Resolve(v, BaseOf(v, cur, t), SplitPath(t), 0, true, hops + 1).value;
      LinkStep(v, cur, parts, i, follow, hops, c, c');
      var inner := SuccessDerives(v, BaseOf(v, cur, t), SplitPath(t), 0, true, hops + 1);
      var rest := SuccessDerives(v, c', parts, i + 1, follow, hops);
      LinkDerives(v, cur, parts, i, follow, c, t, inner, c', rest, res);
      d := Via(inner, c', rest);
    } else {
      PlainStep(v, cur, parts, i, follow, hops, c);
      var rest := SuccessDerives(v, c, parts, i + 1, follow, hops);
      PlainDerives(v, cur, parts, i, follow, c, rest, res);
      d := Plain(rest);
    }
  }

  lemma PlainStep(v: View, cur: DirRecord, parts: seq<Text>, i: nat, follow: bool, hops: nat, c: DirRecord)
    requires hops <= MAX_HOPS && i < |parts| && Enter(v, cur, parts[i]) == Ok(c) && !Follows(v, c, parts, i, follow)
    ensures Resolve(v, cur, parts, i, follow, hops) == Resolve(v, c, parts, i + 1, follow, hops)
  {
  }

  lemma LinkStep(v: View, cur: DirRecord, parts: seq<Text>, i: nat, follow: bool, hops: nat, c: DirRecord,
                 target: DirRecord)
    requires hops <= MAX_HOPS && i < |parts| && Enter(v, cur, parts[i]) == Ok(c) && Follows(v, c, parts, i, follow)
    requires Resolve(v, BaseOf(v, cur, v.link(c).value), SplitPath(v.link(c).value), 0, true, hops + 1) == Ok(target)
    ensures Resolve(v, cur, parts, i, follow, hops) == Resolve(v, target, parts, i + 1, follow, hops)
  {
  }

  lemma DerivedPlain(v: View, rest: Derivation, cur: DirRecord, parts: seq<Text>, i: nat, follow: bool, res: DirRecord)
    returns (c: DirRecord)
    requires Derives(v, Plain(rest), cur, parts, i, follow, res)
    ensures i < |parts| && Enter(v, cur, parts[i]) == Ok(c) && !Follows(v, c, parts, i, follow)
    ensures Derives(v, rest, c, parts, i + 1, follow, res)
  {
    c := Enter(v, cur, parts[i]).value;
  }

  lemma DerivedVia(v: View, inner: Derivation, target: DirRecord, rest: Derivation, cur: DirRecord, parts: seq<Text>,
                   i: nat, follow: bool, res: DirRecord)
    returns (c: DirRecord, t: Text)
    requires Derives(v, Via(inner, target, rest), cur, parts, i, follow, res)
    ensures i < |parts| && Enter(v, cur, parts[i]) == Ok(c) && Follows(v, c, parts, i, follow) && v.link(c) == Some(t)
    ensures Derives(v, inner, BaseOf(v, cur, t), SplitPath(t), 0, true, target)
    ensures Derives(v, rest, target, parts, i + 1, follow, res)
  {
    c := Enter(v, cur, parts[i]).value;
    t := v.link(c).value;
  }

  lemma {:induction false} ViaSucceeds(v: View, inner: Derivation, target: DirRecord, rest: Derivation, cur: DirRecord,
                                       parts: seq<Text>, i: nat, follow: bool, hops: nat, res: DirRecord)
    requires Derives(v, Via(inner, target, rest), cur, parts, i, follow, res)
    requires hops + 1 + Depth(inner) <= MAX_HOPS && hops + Depth(rest) <= MAX_HOPS
    ensures Resolve(v, cur, parts, i, follow, hops) == Ok(res)
    decreases Via(inner, target, rest), 0
  {
    var c, t := DerivedVia(v, inner, target, rest, cur, parts, i, follow, res);
    DerivationSucceeds(v, inner, BaseOf(v, cur, t), SplitPath(t), 0, true, hops + 1, target);
    DerivationSucceeds(v, rest, target, parts, i + 1, follow, hops, res);
    LinkStep(v, cur, parts, i, follow, hops, c, target);
  }

  lemma {:induction false} PlainSucceeds(v: View, rest: Derivation, cur: DirRecord, parts: seq<Text>, i: nat,
                                         follow: bool, hops: nat, res: DirRecord)
    requires Derives(v, Plain(rest), cur, parts, i, follow, res) && hops + Depth(rest) <= MAX_HOPS
    ensures Resolve(v, cur, parts, i, follow, hops) == Ok(res)
    decreases Plain(rest), 0
  {
    var c := DerivedPlain(v, rest, cur, parts, i, follow, res);
    DerivationSucceeds(v, rest, c, parts, i + 1, follow, hops, res);
    PlainStep(v, cur, parts, i, follow, hops, c);
  }

  lemma {:induction false} DerivationSucceeds(v: View, d: Derivation, cur: DirRecord, parts: seq<Text>, i: nat,
                                              follow: bool, hops: nat, res: DirRecord)
    requires Derives(v, d, cur, parts, i, follow, res) && hops + Depth(d) <= MAX_HOPS
    ensures Resolve(v, cur, parts, i, follow, hops) == Ok(res)
    decreases d, 1
  {
    match d
    case Here =>
    case Plain(rest) => PlainSucceeds(v, rest, cur, parts, i, follow, hops, res);
    case Via(inner, target, rest) => ViaSucceeds(v, inner, target, rest, cur, parts, i, follow, hops, res);
  }

  /** Resolution succeeds exactly when there is a derivation whose links nest no deeper than the hops left. */
  lemma ResolvesExactly(v: View, cur: DirRecord, parts: seq<Text>, follow: bool, hops: nat, res: DirRecord)
    ensures Resolve(v, cur, parts, 0, follow, hops) == Ok(res)
       <==> exists d :: Derives(v, d, cur, parts, 0, follow, res) && hops + Depth(d) <= 40
  {
    if Resolve(v, cur, parts, 0, follow, hops) == Ok(res) {
      var d := SuccessDerives(v, cur, parts, 0, follow, hops);
    }
    forall d | Derives(v, d, cur, parts, 0, follow, res) && hops + Depth(d) <= MAX_HOPS
      ensures Resolve(v, cur, parts, 0, follow, hops) == Ok(res)
    {
      DerivationSucceeds(v, d, cur, parts, 0, follow, hops, res);
    }
  }

  /** There is at most one derivation, so the result does not depend on the budget. */
  lemma {:induction false} DerivationUnique(v: View, d: Derivation, d': Derivation, cur: DirRecord, parts: seq<Text>,
                                            i: nat, follow: bool,
                                            res: DirRecord, res': DirRecord)
    requires Derives(v, d, cur, parts, i, follow, res) && Derives(v, d', cur, parts, i, follow, res')
    ensures d == d' && res == res'
    decreases d
  {
    if !d.Here? {
      var c := Enter(v, cur, parts[i]).value;
      if d.Plain? {
        DerivationUnique(v, d.rest, d'.rest, c, parts, i + 1, follow, res, res');
      } else {
        var t := v.link(c).value;
        DerivationUnique(v, d.inner, d'.inner, BaseOf(v, cur, t), SplitPath(t), 0, true, d.target, d'.target);
        DerivationUnique(v, d.rest, d'.rest, d.target, parts, i + 1, follow, res, res');
      }
    }
  }

  /** Success with some budget is success, with the same result, with any larger one. */
  lemma FewerHopsUsed(v: View, cur: DirRecord, parts: seq<Text>, follow: bool, hops: nat, hops': nat)
    requires hops' <= hops && Resolve(v, cur, parts, 0, follow, hops).Ok?
    ensures Resolve(v, cur, parts, 0, follow, hops') == Resolve(v, cur, parts, 0, follow, hops)
  {
    var d := SuccessDerives(v, cur, parts, 0, follow, hops);
    DerivationSucceeds(v, d, cur, parts, 0, follow, hops', Resolve(v, cur, parts, 0, follow, hops).value);
  }

  /** A link that leads to itself is reported, with any budget. */
  lemma {:induction false} SelfLinkFails(v: View, cur: DirRecord, name: Text, hops: nat)
    requires Enter(v, cur, name).Ok?
    requires var l := v.link(Enter(v, cur, name).value);
              l.Some? && SplitPath(l.value) == [name] && (cur == v.root || l.value == [] || l.value[0] != 0x2F)
    ensures Resolve(v, cur, [name], 0, true, hops) == Err(TooManyLinks)
    decreases MAX_HOPS + 1 - hops
  {
    if hops <= MAX_HOPS { SelfLinkFails(v, cur, name, hops + 1); }
  }

  // ----- Composition -----

  /** Only the components ahead matter, and whether one of them is the last. */
  lemma {:induction false} ResolveShift(v: View, cur: DirRecord, a: seq<Text>, b: seq<Text>, j: nat, follow: bool,
                                        hops: nat)
    requires j <= |b|
    ensures Resolve(v, cur, a + b, |a| + j, follow, hops) == Resolve(v, cur, b, j, follow, hops)
    decreases |b| - j
  {
    if hops <= MAX_HOPS && j < |b| {
      assert (a + b)[|a| + j] == b[j];
      var r := Enter(v, cur, b[j]);
      if r.Ok? {
        var c := r.value;
        if Follows(v, c, b, j, follow) {
          var t := v.link(c).value;
          var r' := Resolve(v, BaseOf(v, cur, t), SplitPath(t), 0, true, hops + 1);
          if r'.Ok? { ResolveShift(v, r'.value, a, b, j + 1, follow, hops); }
        } else {
          ResolveShift(v, c, a, b, j + 1, follow, hops);
        }
      }
    }
  }

  function AndThen(r: Result<DirRecord>, v: View, parts: seq<Text>, i: nat, follow: bool,
                   hops: nat): Result<DirRecord> {
    if r.Err? then r else Resolve(v, r.value, parts, i, follow, hops)
  }

  lemma {:induction false} ResolveSplit(v: View, cur: DirRecord, a: seq<Text>, b: seq<Text>, i: nat, follow: bool,
                                        hops: nat)
    requires b != [] && i <= |a|
    ensures Resolve(v, cur, a + b, i, follow, hops)
         == AndThen(Resolve(v, cur, a, i, true, hops), v, a + b, |a|, follow, hops)
    decreases |a| - i
  {
    if hops <= MAX_HOPS && i < |a| {
      assert (a + b)[i] == a[i];
      var r := Enter(v, cur, a[i]);
      if r.Ok? {
        var c := r.value;
        if Follows(v, c, a, i, true) {
          var t := v.link(c).value;
          var r' := Resolve(v, BaseOf(v, cur, t), SplitPath(t), 0, true, hops + 1);
          if r'.Ok? { ResolveSplit(v, r'.value, a, b, i + 1, follow, hops); }
        } else {
          ResolveSplit(v, c, a, b, i + 1, follow, hops);
        }
      }
    }
  }

  /** Resolving a path and then a further one from where it led is resolving the two together. */
  lemma ResolveComposes(v: View, start: DirRecord, a: seq<Text>, b: seq<Text>, follow: bool, hops: nat)
    requires b != []
    ensures Resolve(v, start, a + b, 0, follow, hops)
         == AndThen(Resolve(v, start, a, 0, true, hops), v, b, 0, follow, hops)
  {
    ResolveSplit(v, start, a, b, 0, follow, hops);
    var r := Resolve(v, start, a, 0, true, hops);
    if r.Ok? { ResolveShift(v, r.value, a, b, 0, follow, hops); }
  }

  // ----- Where a link leads -----

  lemma {:induction false} HopsMatterNot(v: View, cur: DirRecord, parts: seq<Text>, hops: nat)
    requires hops < MAX_HOPS && Resolve(v, cur, parts, 0, true, hops + 1).Ok?
    ensures Resolve(v, cur, parts, 0, true, hops) == Resolve(v, cur, parts, 0, true, hops + 1)
  {
    FewerHopsUsed(v, cur, parts, true, hops + 1, hops);
  }

  lemma LastStep(v: View, start: DirRecord, a: seq<Text>, name: Text, d: DirRecord, c: DirRecord, follow: bool,
                 hops: nat)
    requires hops <= MAX_HOPS && Resolve(v, start, a, 0, true, hops) == Ok(d) && Enter(v, d, name) == Ok(c)
    ensures Resolve(v, start, a + [name], 0, follow, hops) == NextOf(v, d, [name], 0, follow, hops)
  {
    ResolveComposes(v, start, a, [name], follow, hops);
    ResolveNext(v, d, [name], 0, follow, hops);
    var r := NextOf(v, d, [name], 0, follow, hops);
    if r.Ok? { assert Resolve(v, r.value, [name], 1, follow, hops) == r; }
  }

  /** A link whose target does not begin with a slash leads where that target leads from the directory that contains
      the link; one whose target does, from the root. It takes one hop; a final link not to be followed stays. */
  lemma LinkLeads(v: View, start: DirRecord, a: seq<Text>, name: Text, d: DirRecord, c: DirRecord, t: Text, hops: nat)
    requires hops <= MAX_HOPS && Resolve(v, start, a, 0, true, hops) == Ok(d)
    requires Enter(v, d, name) == Ok(c) && v.link(c) == Some(t)
    ensures Resolve(v, start, a + [name], 0, true, hops)
         == Resolve(v, if t != [] && t[0] == 0x2F then v.root else d, SplitPath(t), 0, true, hops + 1)
    ensures Resolve(v, start, a + [name], 0, false, hops) == Ok(c)
  {
    LastStep(v, start, a, name, d, c, true, hops);
    LastStep(v, start, a, name, d, c, false, hops);
  }

  /** So a path that ends in a relative link leads, if it leads anywhere, where the path with the target in place of the
      link leads. */
  lemma RelativeLink(v: View, start: DirRecord, a: seq<Text>, name: Text, d: DirRecord, c: DirRecord, t: Text,
                     hops: nat)
    requires Resolve(v, start, a, 0, true, hops) == Ok(d) && Enter(v, d, name) == Ok(c) && v.link(c) == Some(t)
    requires t == [] || t[0] != 0x2F
    requires Resolve(v, start, a + [name], 0, true, hops).Ok?
    ensures Resolve(v, start, a + [name], 0, true, hops) == Resolve(v, start, a + SplitPath(t), 0, true, hops)
  {
    LinkLeads(v, start, a, name, d, c, t, hops);
    HopsMatterNot(v, d, SplitPath(t), hops);
    if SplitPath(t) == [] {
      assert a + [] == a;
    } else {
      ResolveComposes(v, start, a, SplitPath(t), true, hops);
    }
  }

  /** And a path that ends in an absolute link leads, if anywhere, where the target leads from the root. */
  lemma AbsoluteLink(v: View, start: DirRecord, a: seq<Text>, name: Text, d: DirRecord, c: DirRecord, t: Text,
                     hops: nat)
    requires Resolve(v, start, a, 0, true, hops) == Ok(d) && Enter(v, d, name) == Ok(c) && v.link(c) == Some(t)
    requires t != [] && t[0] == 0x2F
    requires Resolve(v, start, a + [name], 0, true, hops).Ok?
    ensures Resolve(v, start, a + [name], 0, true, hops) == Resolve(v, v.root, SplitPath(t), 0, true, hops)
  {
    LinkLeads(v, start, a, name, d, c, t, hops);
    HopsMatterNot(v, v.root, SplitPath(t), hops);
  }

  // ----- Which entry a name finds -----

  /** Entry k is an ordinary one whose name passes the comparison. */
  predicate NameFits(v: View, e: DirRecord, name: Text, exact: bool) {
    && e.rawName != [0] && e.rawName != [1]
    && if exact then v.name(e) == name else v.fold(v.name(e), name)
  }

  lemma {:induction false} FirstMatchMeans(v: View, es: seq<DirRecord>, name: Text, exact: bool, i: nat)
    requires i <= |es|
    ensures var c := FirstMatch(v, es, name, exact, i);
            if c.None? then forall k | i <= k < |es| :: !NameFits(v, es[k], name, exact)
            else exists k | i <= k < |es| :: c.value == es[k] && NameFits(v, es[k], name, exact)
                                             && forall j | i <= j < k :: !NameFits(v, es[j], name, exact)
    decreases |es| - i
  {
    if i < |es| {
      if NameFits(v, es[i], name, exact) {
        assert FirstMatch(v, es, name, exact, i) == Some(es[i]);
      } else {
        FirstMatchMeans(v, es, name, exact, i + 1);
      }
    }
  }

  lemma {:induction false} FirstMatchAt(v: View, es: seq<DirRecord>, name: Text, i: nat, k: nat)
    requires i <= k < |es| && Matches(v, es[k], name, true)
    requires forall j | i <= j < k :: !Matches(v, es[j], name, true)
    ensures FirstMatch(v, es, name, true, i) == Some(es[k])
    decreases k - i
  {
    if i < k { FirstMatchAt(v, es, name, i + 1, k); }
  }

  /** A name finds the first ordinary entry of exactly that name; failing that, the first whose name compares equal
      without regard to case; failing that, nothing. */
  lemma FindMeans(v: View, es: seq<DirRecord>, name: Text)
    ensures var c := Find(v, es, name);
            if exists k | 0 <= k < |es| :: NameFits(v, es[k], name, true) then FirstIs(v, es, name, true, c)
            else if exists k | 0 <= k < |es| :: NameFits(v, es[k], name, false) then FirstIs(v, es, name, false, c)
            else c == None
  {
    FirstMatchMeans(v, es, name, true, 0);
    FirstMatchMeans(v, es, name, false, 0);
  }

  predicate FirstIs(v: View, es: seq<DirRecord>, name: Text, exact: bool, c: Option<DirRecord>) {
    exists k | 0 <= k < |es| :: c == Some(es[k]) && NameFits(v, es[k], name, exact)
                                && forall j | 0 <= j < k :: !NameFits(v, es[j], name, exact)
  }

  // ----- Where resolution can lead -----

  /** `e` is an ordinary entry of the directory `d`. */
  predicate IsEntryOf(v: View, d: DirRecord, e: DirRecord) {
    d.IsDir() && v.list(d).Ok? && e in v.list(d).value && !e.IsSpecial()
  }

  /** A walk down from `start` or the root, entry by entry. */
  ghost predicate IsWalk(v: View, start: DirRecord, walk: seq<DirRecord>) {
    && walk != [] && (walk[0] == start || walk[0] == v.root)
    && forall k | 0 <= k < |walk| - 1 :: IsEntryOf(v, walk[k], walk[k + 1])
  }

  lemma {:induction false} FirstMatchIs(v: View, es: seq<DirRecord>, name: Text, exact: bool, i: nat)
    ensures var c := FirstMatch(v, es, name, exact, i); c.Some? ==> c.value in es && Matches(v, c.value, name, exact)
    decreases |es| - i
  {
    if i < |es| { FirstMatchIs(v, es, name, exact, i + 1); }
  }

  lemma EnterIsEntry(v: View, cur: DirRecord, name: Text)
    requires Enter(v, cur, name).Ok?
    ensures IsEntryOf(v, cur, Enter(v, cur, name).value)
  {
    var es := v.list(cur).value;
    FirstMatchIs(v, es, name, true, 0);
    FirstMatchIs(v, es, name, false, 0);
  }

  /** A walk that started at the root or at an inner node of another walk is a walk from where that one started. */
  lemma Rebase(v: View, start: DirRecord, to: seq<DirRecord>, base: DirRecord, walk: seq<DirRecord>)
    returns (w: seq<DirRecord>)
    requires IsWalk(v, start, to) && IsWalk(v, base, walk) && (base == v.root || base == to[|to| - 1])
    ensures IsWalk(v, start, w) && w[|w| - 1] == walk[|walk| - 1]
  {
    if walk[0] == v.root {
      w := walk;
    } else {
      w := to[..|to| - 1] + walk;
      assert forall k | |to| - 1 <= k < |w| :: w[k] == walk[k - (|to| - 1)];
      assert forall k | 0 <= k < |to| - 1 :: w[k] == to[k];
      assert w[|to| - 1] == to[|to| - 1];
    }
  }

  lemma {:induction false} WalkContinues(v: View, start: DirRecord, to: seq<DirRecord>, cur: DirRecord,
                                         parts: seq<Text>, i: nat, follow: bool, hops: nat)
    returns (w: seq<DirRecord>)
    requires IsWalk(v, start, to) && to[|to| - 1] == cur && Resolve(v, cur, parts, i, follow, hops).Ok?
    ensures IsWalk(v, start, w) && w[|w| - 1] == Resolve(v, cur, parts, i, follow, hops).value
    decreases MAX_HOPS + 1 - hops, |parts| - i
  {
    if i >= |parts| { return to; }
    var c := Enter(v, cur, parts[i]).value;
    EnterIsEntry(v, cur, parts[i]);
    if Follows(v, c, parts, i, follow) {
      var t := v.link(c).value;
      var base := BaseOf(v, cur, t);
      var inner := WalkContinues(v, base, [base], base, SplitPath(t), 0, true, hops + 1);
      var via := Rebase(v, start, to, base, inner);
      w := WalkContinues(v, start, via, via[|via| - 1], parts, i + 1, follow, hops);
    } else {
      w := WalkContinues(v, start, to + [c], c, parts, i + 1, follow, hops);
    }
  }

  lemma {:induction false} NeverALink(v: View, cur: DirRecord, parts: seq<Text>, i: nat, hops: nat)
    requires Resolve(v, cur, parts, i, true, hops).Ok? && v.link(v.root) == None && v.link(cur) == None
    ensures v.link(Resolve(v, cur, parts, i, true, hops).value) == None
    decreases MAX_HOPS + 1 - hops, |parts| - i
  {
    if i < |parts| {
      var c := Enter(v, cur, parts[i]).value;
      if Follows(v, c, parts, i, true) {
        var t := v.link(c).value;
        NeverALink(v, BaseOf(v, cur, t), SplitPath(t), 0, hops + 1);
        NeverALink(v, Resolve(v, BaseOf(v, cur, t), SplitPath(t), 0, true, hops + 1).value, parts, i + 1, hops);
      } else {
        NeverALink(v, c, parts, i + 1, hops);
      }
    }
  }

  /** Resolution ends at the start, the root, or an ordinary entry of a directory reached from them; and if neither the
      start nor the root is a link, resolution that follows final links never ends at one. */
  lemma ResolvedReached(v: View, start: DirRecord, parts: seq<Text>, follow: bool, hops: nat)
    returns (walk: seq<DirRecord>)
    requires Resolve(v, start, parts, 0, follow, hops).Ok?
    ensures IsWalk(v, start, walk) && walk[|walk| - 1] == Resolve(v, start, parts, 0, follow, hops).value
    ensures follow && v.link(v.root) == None && v.link(start) == None
        ==> v.link(Resolve(v, start, parts, 0, follow, hops).value) == None
  {
    walk := WalkContinues(v, start, [start], start, parts, 0, follow, hops);
    if follow && v.link(v.root) == None && v.link(start) == None { NeverALink(v, start, parts, 0, hops); }
  }
}
