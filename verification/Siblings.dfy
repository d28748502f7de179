/** Sorting a directory's children and giving them identifiers (create.go). */
module Siblings {
  import opened Bytes
  import opened Identifiers
  import opened Ordering
  import opened Trees
  import opened Builders

  // ----- sortedChildren -----

  function NamesOf(ns: seq<Node>): (names: seq<Text>)
    ensures |names| == |ns| && forall i | 0 <= i < |ns| :: names[i] == ns[i].name
  {
    seq(|ns|, i requires 0 <= i < |ns| => ns[i].name)
  }

  /** What `sortedChildren` sorts by: the identifier once assigned, before that the caller's name. */
  function SortKey(n: Node): Text
    reads n`id
  {
    if n.id == [] then n.name else n.id
  }

  ghost function KeysOf(kids: map<Text, Node>): (m: map<Text, Text>)
    reads kids.Values`id
    ensures m.Keys == kids.Keys
  {
    map k | k in kids :: SortKey(kids[k])
  }

  /** Either no child has an identifier yet or all have, so the source's comparison is comparison by `SortKey`. */
  ghost predicate Uniform(kids: map<Text, Node>)
    reads kids.Values`id
  {
    (forall k <- kids :: kids[k].id == []) || (forall k <- kids :: kids[k].id != [])
  }

  /** The comparison of `sortedChildren`. */
  predicate Before(a: Node, b: Node)
    reads a`id, b`id
  {
    if a.id == [] || b.id == [] then Less(a.name, b.name) else Less(a.id, b.id)
  }

  /** A directory's children in strictly ascending order of key, whatever order the map yields them in. */
  method SortedChildren(d: Node) returns (out: seq<Node>)
    requires forall k <- d.children :: d.children[k].name == k
    requires !d.isDir ==> d.children == map[]
    requires Uniform(d.children) && KeysDistinct(d.children.Keys, KeysOf(d.children))
    ensures IsOrder(NamesOf(out), d.children.Keys, KeysOf(d.children))
    ensures forall c <- out :: c.name in d.children && d.children[c.name] == c
  {
    out := [];
    if !d.isDir { return; }
    var todo := d.children.Keys;
    ghost var done: set<Text> := {};
    ghost var key := KeysOf(d.children);
    while todo != {}
      invariant todo + done == d.children.Keys && todo !! done
      invariant IsOrder(NamesOf(out), done, key)
      invariant forall c <- out :: c.name in d.children && d.children[c.name] == c
      decreases todo
    {
      var k :| k in todo;
      out := InsertChild(d.children, out, k, done);
      todo, done := todo - {k}, done + {k};
    }
  }

  method InsertChild(kids: map<Text, Node>, out: seq<Node>, k: Text, ghost done: set<Text>) returns (out': seq<Node>)
    requires forall k <- kids :: kids[k].name == k
    requires Uniform(kids) && KeysDistinct(kids.Keys, KeysOf(kids))
    requires k in kids && k !in done && done <= kids.Keys && IsOrder(NamesOf(out), done, KeysOf(kids))
    requires forall c <- out :: c.name in kids && kids[c.name] == c
    ensures IsOrder(NamesOf(out'), done + {k}, KeysOf(kids))
    ensures forall c <- out' :: c.name in kids && kids[c.name] == c
  {
    ghost var key, s := KeysOf(kids), NamesOf(out);
    var i := 0;
    while i < |out| && Before(out[i], kids[k])
      invariant i <= |out|
      invariant forall j | 0 <= j < i :: Less(key[s[j]], key[k])
    {
      assert out[i] in out;
      i := i + 1;
    }
    if i < |out| {
      assert out[i] in out && s[i] in done;
      LessTotal(key[s[i]], key[k]);
      assert !SameKey(key, s[i], k);
    }
    InsertKeepsOrder(s, done, key, i, k);
    out' := out[..i] + [kids[k]] + out[i..];
    assert NamesOf(out') == s[..i] + [k] + s[i..];
  }

  // ----- assignIdentifiers -----

  type IdMap = map<Path, Str>

  /** The identifiers of the entries `names` below `p`. */
  ghost function IdsTaken(ids: IdMap, p: Path, names: seq<Text>): set<Str>
    requires forall k <- names :: Child(p, k) in ids
  {
    set k | k in names :: ids[Child(p, k)]
  }

  lemma IdsTakenNext(ids: IdMap, p: Path, names: seq<Text>, i: nat)
    requires i < |names| && forall k <- names :: Child(p, k) in ids
    ensures IdsTaken(ids, p, names[..i + 1]) == IdsTaken(ids, p, names[..i]) + {ids[Child(p, names[i])]}
  {
    assert names[..i + 1] == names[..i] + [names[i]];
  }

  /** The entries `s` below `p`, in this order, each have the first identifier the earlier ones left free. */
  ghost predicate Picks(t: Tree, ids: IdMap, p: Path, s: seq<Text>) {
    && (forall k <- s :: Child(p, k) in ids)
    && (forall i {:trigger PickedAt(t, ids, p, s, i)} | 0 <= i < |s| :: PickedAt(t, ids, p, s, i))
  }

  ghost predicate PickedAt(t: Tree, ids: IdMap, p: Path, s: seq<Text>, i: nat)
    requires i < |s| && forall k <- s :: Child(p, k) in ids
  {
    ids[Child(p, s[i])] == Pick(s[i], IsDirAt(t, Child(p, s[i])), IdsTaken(ids, p, s[..i]))
  }

  /** The children of `p` have the identifiers they are given in name order. */
  ghost predicate PickedInOrder(t: Tree, ids: IdMap, p: Path) {
    Picks(t, ids, p, ByName(t, p))
  }

  ghost predicate IdsOf(t: Tree, ids: IdMap) {
    && WellFormed(t)
    && (forall q :: q in ids <==> q in t && q.Child?)
    && (forall p {:trigger PickedInOrder(t, ids, p)} | IsDirAt(t, p) :: PickedInOrder(t, ids, p))
  }

  ghost function AllIds(t: Tree): (ids: IdMap)
    requires WellFormed(t)
  {
    map q | q in t && q.Child? :: Id(t, q)
  }

  /** The same, for one name of an assignment over `s`. */
  lemma PickAt(s: seq<Text>, dirs: set<Text>, ids: IdMap, p: Path, i: nat)
    requires Distinct(s) && i < |s|
    requires var sibs := Assign(s, 0, dirs, map[]);
             forall k <- s :: k in sibs && Child(p, k) in ids && ids[Child(p, k)] == sibs[k]
    ensures ids[Child(p, s[i])] == Pick(s[i], s[i] in dirs, IdsTaken(ids, p, s[..i]))
  {
    AssignPicks(s, 0, dirs, map[], i);
    assert s[i] in s;
    UsedIsTaken(Assign(s, 0, dirs, map[]), ids, p, s[..i]);
  }

  lemma UsedIsTaken(sibs: map<Text, Str>, ids: IdMap, p: Path, s: seq<Text>)
    requires forall k <- s :: k in sibs && Child(p, k) in ids && ids[Child(p, k)] == sibs[k]
    ensures UsedBy(sibs, s) == IdsTaken(ids, p, s)
  {
  }

  lemma AllIdsPicked(t: Tree, p: Path)
    requires WellFormed(t)
    ensures PickedInOrder(t, AllIds(t), p)
  {
    var s, ids, dirs := ByName(t, p), AllIds(t), Subdirs(t, p);
    ByNameDistinct(t, p);
    ByNameIsOrder(t, p);
    IdsGood(t, p);
    assert forall k <- s :: k in Names(t, p);
    forall i | 0 <= i < |s| ensures PickedAt(t, ids, p, s, i) {
      PickAt(s, dirs, ids, p, i);
      assert s[i] in s;
    }
  }

  lemma AllIdsOf(t: Tree)
    requires WellFormed(t)
    ensures IdsOf(t, AllIds(t))
  {
    forall p | IsDirAt(t, p) ensures PickedInOrder(t, AllIds(t), p) {
      AllIdsPicked(t, p);
    }
  }
}
