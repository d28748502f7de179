/** The in-memory tree of a builder (create.go): AddDir and AddFile over linked nodes. */
module Builders {
  import opened Bytes
  import opened Identifiers
  import opened DirRecords
  import opened Paths
  import opened Trees

  /** A node of the tree being mastered. `path` is where it hangs; the rest are the source's fields. */
  class Node {
    const name: Text
    const isDir: bool
    const data: Str
    ghost const path: Path
    var children: map<Text, Node>
    var id: Str
    var extentLBA: u32
    var extentLen: u32
    var parent: Node?
    var dirIndex: nat

    constructor (name: Text, isDir: bool, data: Str, ghost path: Path)
      ensures this.name == name && this.isDir == isDir && this.data == data && this.path == path
      ensures children == map[] && id == [] && parent == null
    {
      this.name, this.isDir, this.data, this.path := name, isDir, data, path;
      children, id, extentLBA, extentLen, parent, dirIndex := map[], [], 0, 0, null, 0;
    }
  }

  /** The entry a node stands for. */
  function Stands(n: Node): Entry {
    if n.isDir then DirEntry else FileEntry(n.data)
  }

  /** `kids` links the node at `p` to exactly the nodes one level below. */
  ghost predicate LinksTo(nodes: map<Path, Node>, p: Path, kids: map<Text, Node>) {
    && (forall k :: k in kids <==> Child(p, k) in nodes)
    && (forall k | k in kids :: kids[k] == nodes[Child(p, k)])
  }

  lemma LinksGrow(nodes: map<Path, Node>, dir: Path, name: Text, n: Node, p: Path, kids: map<Text, Node>)
    requires LinksTo(nodes, p, kids)
    ensures LinksTo(nodes[Child(dir, name) := n], p, if p == dir then kids[name := n] else kids)
  {
  }

  class Builder {
    const root: Node
    const volumeID: Text
    const stamp: Stamp
    var pathTableMLBA: u32
    /** Every node, by path. */
    ghost var nodes: map<Path, Node>
    /** Every node this builder ever made. */
    ghost var repr: set<Node>

    /** The tree of entries the nodes stand for. */
    ghost var entries: Tree

    ghost predicate Valid()
      reads this`nodes, this`repr, this`entries, repr`children
    {
      && WellFormed(entries) && entries.Keys == nodes.Keys
      && nodes[Root] == root
      && (forall p {:trigger Linked(p)} | p in nodes :: nodes[p] in repr && Linked(p))
    }

    /** The node at `p` is named after it, stands for its entry, and is linked to exactly the nodes one level below. */
    ghost predicate Linked(p: Path)
      requires p in nodes && p in entries
      reads this`nodes, this`entries, {nodes[p]}`children
    {
      var n := nodes[p];
      n.path == p && (p.Child? ==> n.name == p.name) && Stands(n) == entries[p] && LinksTo(nodes, p, n.children)
    }

    /** No identifier has been assigned yet: nothing has been laid out. */
    ghost predicate Unassigned()
      reads this`repr, repr`id
    {
      forall n <- repr :: n.id == []
    }

    constructor (volumeID: Text, stamp: Stamp)
      ensures Valid() && Unassigned() && fresh(repr)
      ensures entries == map[Root := DirEntry]
      ensures this.volumeID == volumeID && this.stamp == stamp
    {
      var r := new Node([SLASH], true, [], Root);
      root, this.volumeID, this.stamp, pathTableMLBA := r, volumeID, stamp, 0;
      nodes, repr, entries := map[Root := r], {r}, map[Root := DirEntry];
      new;
      assert Linked(Root);
    }

    /** Hangs a new node below the directory at `dir`, replacing a file of the same name. */
    method Attach(dir: Node, name: Text, isDir: bool, data: Str) returns (n: Node)
      requires Valid() && dir.path in nodes && nodes[dir.path] == dir && dir.isDir && name != []
      requires Child(dir.path, name) in nodes ==> !isDir && !nodes[Child(dir.path, name)].isDir
      modifies this`nodes, this`repr, this`entries, dir`children
      ensures fresh(n) && repr == old(repr) + {n} && nodes == old(nodes)[Child(dir.path, name) := n]
      ensures Valid() && n.path == Child(dir.path, name) && n.isDir == isDir
      ensures entries == old(entries)[Child(dir.path, name) := if isDir then DirEntry else FileEntry(data)]
      ensures old(Unassigned()) ==> Unassigned()
    {
      ghost var q, e := Child(dir.path, name), if isDir then DirEntry else FileEntry(data);
      assert Linked(dir.path);
      assert q in nodes ==> Linked(q);
      n := new Node(name, isDir, data, q);
      LeafKeepsWellFormed(entries, q, e);
      NothingUnder(entries, q);
      dir.children := dir.children[name := n];
      nodes, repr, entries := nodes[q := n], repr + {n}, entries[q := e];
      forall p | p in nodes ensures nodes[p] in repr && Linked(p) {
        if p != q {
          assert old(Linked(p));
          LinksGrow(old(nodes), dir.path, name, n, p, old(nodes[p].children));
        }
      }
    }

    /** One step of `mkdirAll`: into the child `name`, made if it is missing. */
    method Enter(dir: Node, name: Text) returns (r: Result<Node>)
      requires Valid() && dir.path in nodes && nodes[dir.path] == dir && dir.isDir && name != []
      modifies this`nodes, this`repr, this`entries, dir`children
      ensures Valid() && fresh(repr - old(repr))
      ensures old(Unassigned()) ==> Unassigned()
      ensures r.Ok? ==> r.value.isDir && Child(dir.path, name) in nodes && nodes[Child(dir.path, name)] == r.value
      ensures r.Ok? <==> !IsFile(old(entries), Child(dir.path, name))
      ensures r.Err? ==> r.error == Exists
      ensures Child(dir.path, name) in old(entries) ==> nodes == old(nodes) && entries == old(entries)
      ensures Child(dir.path, name) !in old(entries) ==> entries == old(entries)[Child(dir.path, name) := DirEntry]
    {
      assert Linked(dir.path);
      if name !in dir.children {
        var made := Attach(dir, name, true, []);
        return Ok(made);
      }
      assert Linked(Child(dir.path, name));
      var child := dir.children[name];
      if !child.isDir { return Err(Exists); }
      return Ok(child);
    }

    /** Walks and creates the chain of directories `parts`. */
    method MkdirAll(parts: seq<Text>) returns (r: Result<Node>)
      requires Valid() && AllGiven(parts)
      modifies this`nodes, this`repr, this`entries, repr`children
      ensures Valid() && fresh(repr - old(repr))
      ensures old(Unassigned()) ==> Unassigned()
      ensures r.Ok? <==> !Blocked(old(entries), PathOf(parts))
      ensures r.Ok? ==> entries == WithDirs(old(entries), PathOf(parts))
      ensures r.Ok? ==> PathOf(parts) in nodes && r.value == nodes[PathOf(parts)] && r.value.isDir
      ensures r.Err? ==> r.error == Exists && nodes == old(nodes) && entries == old(entries)
    {
      var cur := root;
      ghost var t := entries;
      assert Linked(Root);
      for i := 0 to |parts|
        invariant Valid() && fresh(repr - old(repr))
        invariant entries == WithDirs(t, PathOf(parts[..i]))
        invariant PathOf(parts[..i]) in nodes && cur == nodes[PathOf(parts[..i])] && cur.isDir
        invariant PathOf(parts[..i]) in t ==> nodes == old(nodes)
        invariant !Blocked(t, PathOf(parts[..i]))
        invariant old(Unassigned()) ==> Unassigned()
      {
        ghost var p := PathOf(parts[..i]);
        assert parts[..i + 1][..i] == parts[..i];
        assert parts[i] in parts && Linked(p);
        MkdirStep(t, p, parts[i]);
        var next := Enter(cur, parts[i]);
        if next.Err? {
          BlockedLonger(t, parts, i + 1);
          return next;
        }
        cur := next.value;
      }
      assert parts[..|parts|] == parts;
      return Ok(cur);
    }

    /** `AddDir`: creates exactly the missing directories, changes nothing when a file is in the way. */
    method AddDir(path: Text) returns (r: Result<()>)
      requires Valid()
      modifies this`nodes, this`repr, this`entries, repr`children
      ensures Valid() && fresh(repr - old(repr))
      ensures old(Unassigned()) ==> Unassigned()
      ensures match AddDirTo(old(entries), PathOf(SplitPath(path)))
              case Ok(t) => r == Ok(()) && entries == t
              case Err(e) => r == Err(e) && entries == old(entries)
      ensures r.Ok? ==> forall q | AtOrBelow(q, PathOf(SplitPath(path))) :: q in entries && entries[q] == DirEntry
      ensures r.Err? <==> exists q :: AtOrBelow(q, PathOf(SplitPath(path))) && q in old(entries)
                                      && old(entries)[q] != DirEntry
    {
      AddDirMeans(entries, PathOf(SplitPath(path)));
      SplitComponentsUsable(path);
      var parts := SplitComponents(path);
      var dir := MkdirAll(parts);
      return if dir.Ok? then Ok(()) else Err(dir.error);
    }

    /** `AddFile`: sets or replaces exactly one file, and changes nothing when it fails. */
    method AddFile(path: Text, data: Str) returns (r: Result<()>)
      requires Valid()
      modifies this`nodes, this`repr, this`entries, repr`children
      ensures Valid() && fresh(repr - old(repr))
      ensures old(Unassigned()) ==> Unassigned()
      ensures match AddFileTo(old(entries), PathOf(SplitPath(path)), data)
              case Ok(t) => r == Ok(()) && entries == t
              case Err(e) => r == Err(e) && entries == old(entries)
      ensures r.Ok? ==> PathOf(SplitPath(path)) in entries && entries[PathOf(SplitPath(path))] == FileEntry(data)
    {
      AddFileMeans(entries, PathOf(SplitPath(path)), data);
      SplitComponentsUsable(path);
      var parts := SplitComponents(path);
      if parts == [] { return Err(InvalidName); }
      ghost var p := PathOf(parts);
      ComponentsGiven(parts);
      var dir := MkdirAll(parts[..|parts| - 1]);
      if dir.Err? { return Err(dir.error); }
      ghost var made := repr;
      LastStep(old(entries), p);
      r := PutFile(dir.value, parts[|parts| - 1], data, p.parent);
      assert repr - old(repr) <= (repr - made) + (made - old(repr));
    }

    /** The last step of `AddFile`, in the directory its parents led to. */
    method PutFile(dir: Node, name: Text, data: Str, ghost at: Path) returns (r: Result<()>)
      requires Valid() && name != [] && at in nodes && nodes[at] == dir && dir.isDir
      modifies this`nodes, this`repr, this`entries, repr`children
      ensures Valid() && fresh(repr - old(repr))
      ensures old(Unassigned()) ==> Unassigned()
      ensures IsDirAt(old(entries), Child(at, name)) ==> r == Err(Exists) && entries == old(entries)
      ensures !IsDirAt(old(entries), Child(at, name)) ==>
                r == Ok(()) && entries == old(entries)[Child(at, name) := FileEntry(data)]
    {
      assert Linked(at);
      assert Child(at, name) in nodes ==> Linked(Child(at, name));
      if name in dir.children && dir.children[name].isDir { return Err(Exists); }
      var file := Attach(dir, name, false, data);
      return Ok(());
    }
  }

  lemma ComponentsGiven(parts: seq<Text>)
    requires parts != [] && forall c <- parts :: Component(c)
    ensures AllGiven(parts) && parts[|parts| - 1] != [] && AllGiven(parts[..|parts| - 1])
  {
    assert parts[|parts| - 1] in parts;
    assert forall i | 0 <= i < |parts| :: parts[i] in parts;
  }

  /** Making the parents of a path that is already there changes nothing, and never makes the path itself. */
  lemma LastStep(t: Tree, p: Path)
    requires WellFormed(t) && p.Child?
    ensures p in WithDirs(t, p.parent) <==> p in t
    ensures p in t ==> WithDirs(t, p.parent) == t
    ensures p in t ==> WithDirs(t, p.parent)[p] == t[p]
  {
    WithDirsAt(t, p.parent, p);
    LevelOfParent(p);
    if p in t {
      assert Hangs(t, p);
      WithDirsOfPresent(t, p.parent);
    }
  }

  /** What one more component means for the tree: it is new, or a directory already, or a file in the way. */
  lemma MkdirStep(t: Tree, p: Path, k: Text)
    requires WellFormed(t) && !Blocked(t, p)
    ensures var u, q := WithDirs(t, p), Child(p, k);
            && (q in u <==> q in t) && (q in t ==> u[q] == t[q] && p in t && u == t)
            && (Blocked(t, q) <==> IsFile(t, q))
  {
    LastStep(t, Child(p, k));
    assert Child(p, k) in t ==> Hangs(t, Child(p, k));
  }

  lemma {:induction false} BlockedLonger(t: Tree, parts: seq<Text>, n: nat)
    requires n <= |parts| && Blocked(t, PathOf(parts[..n]))
    ensures Blocked(t, PathOf(parts))
    decreases |parts| - n
  {
    if n == |parts| {
      assert parts[..n] == parts;
    } else {
      assert parts[..n + 1][..n] == parts[..n];
      BlockedLonger(t, parts, n + 1);
    }
  }
}
