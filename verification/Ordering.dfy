/** Sorting a set of names by key: what `sort.Slice` promises, and that it determines the result. */
module Ordering {
  import opened Bytes

  /** `s` lists exactly the names of `ks`, in strictly ascending order of key. */
  ghost predicate IsOrder(s: seq<Text>, ks: set<Text>, key: map<Text, Text>) {
    && (forall n <- ks :: n in key)
    && (forall n :: n in s <==> n in ks)
    && (forall i, j | 0 <= i < j < |s| :: s[i] in key && s[j] in key && Less(key[s[i]], key[s[j]]))
  }

  ghost predicate KeysDistinct(ks: set<Text>, key: map<Text, Text>) {
    && ks <= key.Keys
    && forall a, b {:trigger SameKey(key, a, b)} | a in ks && b in ks && SameKey(key, a, b) :: a == b
  }

  ghost predicate IsLeast(m: Text, ks: set<Text>, key: map<Text, Text>)
    requires ks <= key.Keys
  {
    m in ks && forall n <- ks :: n == m || Less(key[m], key[n])
  }

  lemma {:induction false} LeastExists(ks: set<Text>, key: map<Text, Text>) returns (m: Text)
    requires ks != {} && KeysDistinct(ks, key)
    ensures IsLeast(m, ks, key)
  {
    var k :| k in ks;
    var rest := ks - {k};
    if rest == {} {
      m := k;
    } else {
      m := LeastExists(rest, key);
      LessTotal(key[k], key[m]);
      assert !SameKey(key, k, m);
      if Less(key[k], key[m]) {
        forall n | n in rest ensures Less(key[k], key[n]) {
          if n != m { LessTrans(key[k], key[m], key[n]); }
        }
        m := k;
      }
    }
    forall n <- ks ensures n == m || Less(key[m], key[n]) {
      assert n == k || n in rest;
    }
  }

  lemma HasLeast(ks: set<Text>, key: map<Text, Text>)
    requires ks != {} && KeysDistinct(ks, key)
    ensures exists m :: IsLeast(m, ks, key)
  {
    var m := LeastExists(ks, key);
  }

  ghost function OrderBy(ks: set<Text>, key: map<Text, Text>): seq<Text>
    requires KeysDistinct(ks, key)
  {
    if ks == {} then []
    else
      HasLeast(ks, key);
      var m :| IsLeast(m, ks, key);
      [m] + OrderBy(ks - {m}, key)
  }

  lemma {:induction false} OrderByIsOrder(ks: set<Text>, key: map<Text, Text>)
    requires KeysDistinct(ks, key)
    ensures IsOrder(OrderBy(ks, key), ks, key)
  {
    if ks != {} {
      HasLeast(ks, key);
      var m :| IsLeast(m, ks, key) && OrderBy(ks, key) == [m] + OrderBy(ks - {m}, key);
      OrderByIsOrder(ks - {m}, key);
    }
  }

  lemma {:induction false} OrderDistinct(s: seq<Text>, ks: set<Text>, key: map<Text, Text>, i: nat, j: nat)
    requires IsOrder(s, ks, key) && i < |s| && j < |s| && s[i] == s[j]
    ensures i == j
  {
    LessIrreflexive(key[s[i]]);
  }

  lemma OrderIsDistinct(s: seq<Text>, ks: set<Text>, key: map<Text, Text>)
    requires IsOrder(s, ks, key)
    ensures Distinct(s)
  {
    forall j | 0 <= j < |s| ensures NewAt(s, j) {
      forall i | 0 <= i < j ensures s[i] != s[j] {
        if s[i] == s[j] { OrderDistinct(s, ks, key, i, j); }
      }
    }
  }

  /** A listing in strict key order does not depend on how the set was enumerated. */
  lemma {:induction false} OrderUnique(s: seq<Text>, t: seq<Text>, ks: set<Text>, key: map<Text, Text>)
    requires IsOrder(s, ks, key) && IsOrder(t, ks, key)
    ensures s == t
    decreases |s|
  {
    OrderSize(s, ks, key);
    OrderSize(t, ks, key);
    if s != [] {
      var a, b := s[0], t[0];
      assert a in s && b in t;
      if a != b {
        LessTrans(key[a], key[b], key[a]);
        LessIrreflexive(key[a]);
      }
      TailOrder(s, ks, key);
      TailOrder(t, ks, key);
      OrderUnique(s[1..], t[1..], ks - {a}, key);
      assert s == [a] + s[1..] && t == [a] + t[1..];
    }
  }

  lemma {:induction false} OrderSize(s: seq<Text>, ks: set<Text>, key: map<Text, Text>)
    requires IsOrder(s, ks, key)
    ensures |s| == |ks|
  {
    if s == [] {
      assert ks == {};
    } else {
      assert s[0] in s;
      TailOrder(s, ks, key);
      OrderSize(s[1..], ks - {s[0]}, key);
    }
  }

  lemma TailOrder(s: seq<Text>, ks: set<Text>, key: map<Text, Text>)
    requires IsOrder(s, ks, key) && s != []
    ensures IsOrder(s[1..], ks - {s[0]}, key)
  {
    forall n ensures n in s[1..] <==> n in ks - {s[0]} {
      if n in s[1..] {
        var i :| 1 <= i < |s| && s[i] == n;
        if n == s[0] { OrderDistinct(s, ks, key, 0, i); }
      }
      if n in ks && n != s[0] {
        assert n in s;
      }
    }
  }

  /** Inserting a new name before the first larger key. */
  lemma InsertKeepsOrder(s: seq<Text>, ks: set<Text>, key: map<Text, Text>, i: nat, k: Text)
    requires IsOrder(s, ks, key) && i <= |s| && k in key && k !in ks
    requires forall j | 0 <= j < i :: Less(key[s[j]], key[k])
    requires i < |s| ==> Less(key[k], key[s[i]])
    ensures IsOrder(s[..i] + [k] + s[i..], ks + {k}, key)
  {
    var u := s[..i] + [k] + s[i..];
    assert s == s[..i] + s[i..];
    forall a, b | 0 <= a < b < |u| ensures u[a] in key && u[b] in key && Less(key[u[a]], key[u[b]]) {
      InsertedPair(s, key, i, k, a, b);
    }
  }

  lemma InsertedPair(s: seq<Text>, key: map<Text, Text>, i: nat, k: Text, a: nat, b: nat)
    requires forall x, y | 0 <= x < y < |s| :: s[x] in key && s[y] in key && Less(key[s[x]], key[s[y]])
    requires (forall n <- s :: n in key) && i <= |s| && k in key
    requires forall j | 0 <= j < i :: Less(key[s[j]], key[k])
    requires i < |s| ==> Less(key[k], key[s[i]])
    requires a < b <= |s|
    ensures var u := s[..i] + [k] + s[i..]; u[a] in key && u[b] in key && Less(key[u[a]], key[u[b]])
  {
    var u := s[..i] + [k] + s[i..];
    assert u[a] == (if a < i then s[a] else if a == i then k else s[a - 1]);
    assert u[b] == (if b < i then s[b] else if b == i then k else s[b - 1]);
    if a == i && b - 1 > i { LessTrans(key[k], key[s[i]], key[s[b - 1]]); }
  }
}
