/** The first step of `layout`: identifiers and parent links for every node (create.go). */
module Naming {
  import opened Bytes
  import opened Identifiers
  import opened Ordering
  import opened Trees
  import opened Builders
  import opened Siblings

  // ----- Reading the tree of nodes -----

  /** `cs` are the nodes directly below `p`; nothing here depends on fields that layout assigns. */
  ghost predicate KidsOf(b: Builder, p: Path, cs: seq<Node>)
    reads b`nodes, b`repr, b`entries
  {
    KidsAmong(b.nodes, b.repr, b.entries, p, cs)
  }

  ghost predicate IsKid(b: Builder, p: Path, c: Node)
    reads b`nodes, b`repr, b`entries
  {
    KidAmong(b.nodes, b.repr, b.entries, p, c)
  }

  ghost predicate KidsAmong(nodes: map<Path, Node>, repr: set<Node>, t: Tree, p: Path, cs: seq<Node>) {
    && (forall c <- cs :: KidAmong(nodes, repr, t, p, c))
    && (forall k :: k in NamesOf(cs) <==> Child(p, k) in nodes)
    && Distinct(NamesOf(cs))
  }

  ghost predicate KidAmong(nodes: map<Path, Node>, repr: set<Node>, t: Tree, p: Path, c: Node) {
    && c in repr && c.path == Child(p, c.name)
    && c.path in nodes && nodes[c.path] == c
    && c.path in t && c.isDir == IsDirAt(t, c.path)
  }

  /** A directory's children, sorted by the keys they have at the moment. */
  method KidsInOrder(b: Builder, n: Node) returns (cs: seq<Node>)
    requires b.Valid() && n.path in b.nodes && b.nodes[n.path] == n
    requires Uniform(n.children) && KeysDistinct(n.children.Keys, KeysOf(n.children))
    ensures KidsOf(b, n.path, cs)
    ensures n.children.Keys == Names(b.entries, n.path) && IsOrder(NamesOf(cs), n.children.Keys, KeysOf(n.children))
  {
    ChildNodes(b, n);
    cs := SortedChildren(n);
    OrderIsDistinct(NamesOf(cs), n.children.Keys, KeysOf(n.children));
    forall c <- cs ensures IsKid(b, n.path, c) {
      assert c.name in n.children;
      assert b.Linked(Child(n.path, c.name));
    }
  }

  /** In a valid builder a directory's children are exactly the nodes one level below it, by name. */
  lemma ChildNodes(b: Builder, n: Node)
    requires b.Valid() && n.path in b.nodes && b.nodes[n.path] == n
    ensures n.children.Keys == Names(b.entries, n.path) && (!n.isDir ==> n.children == map[])
    ensures forall k <- n.children :: n.children[k].name == k && IsKid(b, n.path, n.children[k])
  {
    assert b.Linked(n.path);
    if !n.isDir { NothingUnder(b.entries, n.path); }
    forall k <- n.children ensures n.children[k].name == k && IsKid(b, n.path, n.children[k]) {
      assert b.Linked(Child(n.path, k));
    }
  }

  /** A directory all of whose children are still without identifier is sorted by name. */
  lemma BlankKids(b: Builder, n: Node)
    requires b.Valid() && n.path in b.nodes && b.nodes[n.path] == n
    requires BlankBelow(b, n.path)
    ensures Uniform(n.children) && KeysOf(n.children) == SelfKey(Names(b.entries, n.path))
  {
    ChildNodes(b, n);
    forall k <- n.children ensures n.children[k].id == [] && SortKey(n.children[k]) == k {
      assert AtOrBelow(n.path, Child(n.path, k));
    }
  }

  // ----- assignIdentifiers -----

  /** The node at `q` has the identifier `ids` gives it, and points at its parent. */
  ghost predicate Named(b: Builder, ids: IdMap, q: Path)
    requires q in b.nodes
    reads b`nodes, {b.nodes[q]}`id, {b.nodes[q]}`parent
  {
    q.Child? && q.parent in b.nodes && q in ids && b.nodes[q].id == ids[q] && b.nodes[q].parent == b.nodes[q.parent]
  }

  /** Subtrees of different siblings have nothing in common. */
  lemma Apart(p: Path, a: Text, b: Text)
    requires a != b
    ensures forall q :: AtOrBelow(Child(p, a), q) ==> !AtOrBelow(Child(p, b), q)
  {
    forall q | AtOrBelow(Child(p, a), q) ensures !AtOrBelow(Child(p, b), q) {
      if AtOrBelow(Child(p, b), q) { SameChild(p, a, b, q); }
    }
  }

  lemma KidBelow(p: Path, k: Text)
    ensures forall q :: AtOrBelow(Child(p, k), q) ==> AtOrBelow(p, q) && q != p
  {
    forall q | AtOrBelow(Child(p, k), q) ensures AtOrBelow(p, q) && q != p { BelowChildIsBelow(p, k, q); }
  }

  /** Every node is filed under its own path. */
  ghost predicate Filed(b: Builder)
    reads b`nodes, b`repr
  {
    forall q | q in b.nodes :: b.nodes[q] in b.repr && b.nodes[q].path == q
  }

  lemma ValidFiled(b: Builder)
    requires b.Valid()
    ensures Filed(b)
  {
    forall q | q in b.nodes ensures b.nodes[q] in b.repr && b.nodes[q].path == q {
      assert b.Linked(q);
    }
  }

  /** `n` is a node of the valid builder `b`, whose tree of entries is `t`. */
  ghost predicate Ready(b: Builder, t: Tree, n: Node)
    reads b`nodes, b`repr, b`entries, b.repr`children
  {
    b.Valid() && Filed(b) && b.entries == t && n.path in b.nodes && b.nodes[n.path] == n
  }

  ghost predicate BlankBelow(b: Builder, p: Path)
    reads b`nodes, b`repr, b.repr`id
  {
    forall q | q in b.nodes && AtOrBelow(p, q) && p != q :: b.nodes[q] in b.repr && b.nodes[q].id == []
  }

  /** The whole subtree at `p` is without identifiers, or has them. */
  ghost predicate BlankAt(b: Builder, p: Path)
    reads b`nodes, b`repr, b.repr`id
  {
    forall q | q in b.nodes && AtOrBelow(p, q) :: b.nodes[q] in b.repr && b.nodes[q].id == []
  }

  ghost predicate NamedAt(b: Builder, ids: IdMap, p: Path)
    reads b`nodes, b`repr, b.repr`id, b.repr`parent
  {
    forall q | q in b.nodes && AtOrBelow(p, q) :: b.nodes[q] in b.repr && Named(b, ids, q)
  }

  ghost predicate NamedBelow(b: Builder, ids: IdMap, p: Path)
    reads b`nodes, b`repr, b.repr`id, b.repr`parent
  {
    forall q | q in b.nodes && AtOrBelow(p, q) && p != q :: b.nodes[q] in b.repr && Named(b, ids, q)
  }

  /** The children of a directory without identifiers, in the order in which they get them. */
  method BlankKidsInOrder(b: Builder, ghost t: Tree, n: Node, ghost ids: IdMap) returns (cs: seq<Node>)
    requires Ready(b, t, n) && BlankBelow(b, n.path) && IdsOf(t, ids)
    ensures KidsOf(b, n.path, cs) && Picks(t, ids, n.path, NamesOf(cs))
  {
    BlankKids(b, n);
    ghost var ks := Names(t, n.path);
    assert KeysDistinct(ks, SelfKey(ks));
    cs := KidsInOrder(b, n);
    ByNameIsOrder(t, n.path);
    OrderUnique(NamesOf(cs), ByName(t, n.path), ks, SelfKey(ks));
    if cs != [] {
      assert cs[0] in cs;
      assert Hangs(t, cs[0].path);
      assert PickedInOrder(t, ids, n.path);
    }
  }

  method AssignIdentifiers(b: Builder, ghost t: Tree, n: Node, parent: Node?, ghost ids: IdMap, ghost height: nat)
    requires Ready(b, t, n)
    requires IdsOf(t, ids) && BlankBelow(b, n.path)
    requires Shallow(b.nodes.Keys, Level(n.path) + height)
    modifies b.repr`id, b.repr`parent
    ensures n.parent == parent && n.id == if parent == null then [] else old(n.id)
    ensures NamedBelow(b, ids, n.path)
    ensures forall m | m in b.repr && !AtOrBelow(n.path, m.path) :: m.id == old(m.id) && m.parent == old(m.parent)
    decreases height, 4
  {
    var cs := BlankKidsInOrder(b, t, n, ids);
    n.parent := parent;
    assert b.Valid();
    assert Filed(b);
    if parent == null { n.id := []; }
    assert b.Valid();
    assert Filed(b);
    NameKids(b, t, n, cs, ids, height);
  }

  /** The first i children and everything below them have their identifiers, the others none. */
  ghost predicate NamedUpTo(b: Builder, ids: IdMap, cs: seq<Node>, i: nat)
    reads b`nodes, b`repr, b.repr`id, b.repr`parent
  {
    && (forall j | 0 <= j < i && j < |cs| :: NamedAt(b, ids, cs[j].path))
    && (forall j | i <= j < |cs| :: BlankAt(b, cs[j].path))
  }

  /** The loop of `assignIdentifiers` over the sorted children. */
  method NameKids(b: Builder, ghost t: Tree, n: Node, cs: seq<Node>, ghost ids: IdMap, ghost height: nat)
    requires Ready(b, t, n)
    requires IdsOf(t, ids) && BlankBelow(b, n.path)
    requires KidsOf(b, n.path, cs) && Picks(t, ids, n.path, NamesOf(cs))
    requires Shallow(b.nodes.Keys, Level(n.path) + height)
    modifies b.repr`id, b.repr`parent
    ensures n.parent == old(n.parent) && n.id == old(n.id)
    ensures NamedBelow(b, ids, n.path)
    ensures forall m | m in b.repr && !AtOrBelow(n.path, m.path) :: m.id == old(m.id) && m.parent == old(m.parent)
    decreases height, 3
  {
    ghost var p, names := n.path, NamesOf(cs);
    var used: set<Str> := {};
    BlankKidsAt(b, p, cs);
    for i := 0 to |cs|
      invariant used == IdsTaken(ids, p, names[..i]) && NamedUpTo(b, ids, cs, i)
      invariant forall m | m in b.repr && !(AtOrBelow(p, m.path) && m.path != p) ::
                m.id == old(m.id) && m.parent == old(m.parent)
    {
      var id := NameNext(b, t, n, cs, i, used, ids, height);
      used := used + {id};
      IdsTakenNext(ids, p, names, i);
    }
    AllBelowNamed(b, t, ids, p, cs);
  }

  lemma BlankKidsAt(b: Builder, p: Path, cs: seq<Node>)
    requires BlankBelow(b, p) && KidsOf(b, p, cs)
    ensures forall j | 0 <= j < |cs| :: BlankAt(b, cs[j].path)
  {
    forall j | 0 <= j < |cs| ensures BlankAt(b, cs[j].path) {
      assert cs[j] in cs;
      KidBelow(p, cs[j].name);
    }
  }

  lemma AllBelowNamed(b: Builder, t: Tree, ids: IdMap, p: Path, cs: seq<Node>)
    requires b.Valid() && b.entries == t && KidsOf(b, p, cs)
    requires forall j | 0 <= j < |cs| :: NamedAt(b, ids, cs[j].path)
    ensures NamedBelow(b, ids, p)
  {
    forall q | q in b.nodes && AtOrBelow(p, q) && p != q ensures b.nodes[q] in b.repr && Named(b, ids, q) {
      var k := Towards(p, q);
      AboveInTree(t, Child(p, k), q);
      assert k in NamesOf(cs);
      var j :| 0 <= j < |cs| && NamesOf(cs)[j] == k;
      assert cs[j] in cs;
    }
  }

  lemma KidsApart(b: Builder, p: Path, cs: seq<Node>, i: nat)
    requires KidsOf(b, p, cs) && i < |cs|
    ensures AllApart(cs, i)
  {
    var names := NamesOf(cs);
    assert cs[i] in cs;
    forall j, q | 0 <= j < |cs| && j != i && AtOrBelow(cs[j].path, q) ensures !AtOrBelow(cs[i].path, q) {
      assert cs[j] in cs && NewAt(names, if i < j then j else i);
      assert names[if i < j then i else j] in names[..if i < j then j else i];
      Apart(p, cs[j].name, cs[i].name);
    }
  }

  /** Names child i; its siblings are not affected. */
  method NameNext(b: Builder, ghost t: Tree, n: Node, cs: seq<Node>, i: nat, used: set<Str>, ghost ids: IdMap,
                  ghost height: nat)
    returns (id: Str)
    requires Ready(b, t, n) && IdsOf(t, ids) && i < |cs|
    requires KidsOf(b, n.path, cs) && Picks(t, ids, n.path, NamesOf(cs))
    requires used == IdsTaken(ids, n.path, NamesOf(cs)[..i]) && NamedUpTo(b, ids, cs, i)
    requires Shallow(b.nodes.Keys, Level(n.path) + height)
    modifies b.repr`id, b.repr`parent
    ensures Child(n.path, NamesOf(cs)[i]) in ids && id == ids[Child(n.path, NamesOf(cs)[i])]
            && NamedUpTo(b, ids, cs, i + 1)
    ensures forall m | m in b.repr && !(AtOrBelow(n.path, m.path) && m.path != n.path) ::
              m.id == old(m.id) && m.parent == old(m.parent)
    decreases height, 2
  {
    assert cs[i] in cs && PickedAt(t, ids, n.path, NamesOf(cs), i);
    KidBelow(n.path, cs[i].name);
    KidsApart(b, n.path, cs, i);
    id := NameAfter(b, t, n, cs, i, used, ids, height);
  }

  /** Nothing lies at or below both child i and another child. */
  ghost predicate AllApart(cs: seq<Node>, i: nat)
    requires i < |cs|
  {
    forall j, q | 0 <= j < |cs| && j != i && AtOrBelow(cs[j].path, q) :: !AtOrBelow(cs[i].path, q)
  }

  method NameAfter(b: Builder, ghost t: Tree, n: Node, cs: seq<Node>, i: nat, used: set<Str>, ghost ids: IdMap,
                   ghost height: nat)
    returns (id: Str)
    requires Ready(b, t, n) && IdsOf(t, ids) && i < |cs| && AllApart(cs, i)
    requires IsKid(b, n.path, cs[i]) && ids[cs[i].path] == Pick(cs[i].name, cs[i].isDir, used)
    requires NamedUpTo(b, ids, cs, i)
    requires Shallow(b.nodes.Keys, Level(n.path) + height)
    modifies b.repr`id, b.repr`parent
    ensures id == ids[cs[i].path] && NamedUpTo(b, ids, cs, i + 1)
    ensures forall m | m in b.repr && !AtOrBelow(cs[i].path, m.path) :: m.id == old(m.id) && m.parent == old(m.parent)
    decreases height, 1
  {
    id := NameKid(b, t, n, cs[i], used, ids, height);
  }

  /** Names one child, `used` being taken by its earlier siblings, and then everything below it. */
  method NameKid(b: Builder, ghost t: Tree, n: Node, c: Node, used: set<Str>, ghost ids: IdMap, ghost height: nat)
    returns (id: Str)
    requires Ready(b, t, n)
    requires IdsOf(t, ids) && IsKid(b, n.path, c) && BlankAt(b, c.path)
    requires ids[c.path] == Pick(c.name, c.isDir, used)
    requires Shallow(b.nodes.Keys, Level(n.path) + height)
    modifies b.repr`id, b.repr`parent
    ensures id == ids[c.path] && NamedAt(b, ids, c.path)
    ensures forall m | m in b.repr && !AtOrBelow(c.path, m.path) :: m.id == old(m.id) && m.parent == old(m.parent)
    decreases height, 0
  {
    id := PickId(c.name, c.isDir, used);
    c.id := id;
    assert Level(c.path) == Level(n.path) + 1;
    AssignIdentifiers(b, t, c, n, ids, height - 1);
  }
}
