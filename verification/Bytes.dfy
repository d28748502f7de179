/** Byte strings, fixed-width integers, byte orders, and the two result types.

    A Go string or `[]byte` read from disk is a `Str`. A name handed to the builder is a `Text`: the
    code points of a valid UTF-8 string, whose lexicographic order is Go's bytewise string order. */
module Bytes {
  const TWO32: nat := 0x1_0000_0000

  type byte = x: int | 0 <= x < 0x100
  type u16 = x: int | 0 <= x < 0x1_0000
  type u32 = x: int | 0 <= x < 0x1_0000_0000
  type Str = seq<byte>
  type Text = seq<int>

  datatype Option<+T> = None | Some(value: T)

  /** The sentinel errors of errors.go, plus those the driver passes through from I/O. */
  datatype Error =
    | BadDescriptor | NotFound | NotDirectory | NotRegular | TooManyLinks
    | Corrupt | InvalidName | Exists | NegativeOffset | Closed | Eof | IO

  datatype Result<+T> = Ok(value: T) | Err(error: Error)

  function Min(a: int, b: int): int { if a < b then a else b }
  function Max(a: int, b: int): int { if a < b then b else a }

  function Zeros(n: nat): (z: Str)
    ensures |z| == n && forall i | 0 <= i < n :: z[i] == 0
  {
    seq(n, _ => 0)
  }

  /** The `n` bytes of `s` at `off`. */
  function Slice(s: Str, off: nat, n: nat): (r: Str)
    requires off + n <= |s|
    ensures |r| == n
  {
    s[off..off + n]
  }

  lemma Assoc<T>(a: seq<T>, b: seq<T>, c: seq<T>)
    ensures a + b + c == a + (b + c)
  {
  }

  /** Slices that lie inside a common prefix agree. */
  lemma SliceOfPrefix(s: Str, t: Str, m: nat, off: nat, n: nat)
    requires m <= |s| && m <= |t| && s[..m] == t[..m] && off + n <= m
    ensures Slice(s, off, n) == Slice(t, off, n)
  {
    assert s[off..off + n] == s[..m][off..off + n];
    assert t[off..off + n] == t[..m][off..off + n];
  }

  predicate SameKey(key: map<Text, Text>, a: Text, b: Text)
    requires a in key && b in key
  {
    key[a] == key[b]
  }

  // ----- Sequences without repetition -----

  predicate NewAt<T(==)>(s: seq<T>, j: nat)
    requires j < |s|
  {
    s[j] !in s[..j]
  }

  /** No element occurs twice. */
  ghost predicate Distinct<T>(s: seq<T>) {
    forall j {:trigger NewAt(s, j)} | 0 <= j < |s| :: NewAt(s, j)
  }

  lemma DistinctAt<T>(s: seq<T>, i: nat, j: nat)
    requires Distinct(s) && i < |s| && j < |s| && s[i] == s[j]
    ensures i == j
  {
    assert NewAt(s, i) && NewAt(s, j);
  }

  lemma DistinctPrefix<T>(s: seq<T>, n: nat)
    requires Distinct(s) && n <= |s|
    ensures Distinct(s[..n])
  {
    forall j | 0 <= j < n ensures NewAt(s[..n], j) {
      assert NewAt(s, j) && s[..n][..j] == s[..j];
    }
  }

  lemma DistinctAppend<T>(a: seq<T>, b: seq<T>)
    requires Distinct(a) && Distinct(b) && forall x | x in a :: x !in b
    ensures Distinct(a + b)
  {
    forall j | 0 <= j < |a + b| ensures NewAt(a + b, j) {
      if j < |a| {
        assert NewAt(a, j) && (a + b)[..j] == a[..j];
      } else {
        assert NewAt(b, j - |a|) && (a + b)[..j] == a + b[..j - |a|];
        assert b[j - |a|] in b;
      }
    }
  }

  // ----- Byte orders -----

  function LE16(v: u16): Str { [v % 0x100, v / 0x100] }
  function BE16(v: u16): Str { [v / 0x100, v % 0x100] }

  function LE32(v: u32): Str {
    [v % 0x100, v / 0x100 % 0x100, v / 0x1_0000 % 0x100, v / 0x100_0000]
  }

  function BE32(v: u32): Str {
    [v / 0x100_0000, v / 0x1_0000 % 0x100, v / 0x100 % 0x100, v % 0x100]
  }

  function Le16(b: Str): u16
    requires |b| >= 2
  {
    (b[0] as int) + 0x100 * (b[1] as int)
  }

  function Be16(b: Str): u16
    requires |b| >= 2
  {
    0x100 * (b[0] as int) + (b[1] as int)
  }

  function Le32(b: Str): u32
    requires |b| >= 4
  {
    (b[0] as int) + 0x100 * (b[1] as int) + 0x1_0000 * (b[2] as int) + 0x100_0000 * (b[3] as int)
  }

  function Be32(b: Str): u32
    requires |b| >= 4
  {
    0x100_0000 * (b[0] as int) + 0x1_0000 * (b[1] as int) + 0x100 * (b[2] as int) + (b[3] as int)
  }

  /** Each byte order decodes what it encoded, whatever follows. */
  lemma ByteOrders16(v: u16, rest: Str)
    ensures Le16(LE16(v) + rest) == v && Be16(BE16(v) + rest) == v
  {
  }

  lemma ByteOrders32(v: u32, rest: Str)
    ensures Le32(LE32(v) + rest) == v && Be32(BE32(v) + rest) == v
  {
    var b := LE32(v) + rest;
    assert b[0] == v % 0x100 && b[1] == v / 0x100 % 0x100 && b[2] == v / 0x1_0000 % 0x100 && b[3] == v / 0x100_0000;
    assert v / 0x1_0000 == v / 0x100 / 0x100 && v / 0x100_0000 == v / 0x100 / 0x100 / 0x100;
    var c := BE32(v) + rest;
    assert c[3] == v % 0x100 && c[2] == v / 0x100 % 0x100 && c[1] == v / 0x1_0000 % 0x100 && c[0] == v / 0x100_0000;
  }

  /** What little-endian and big-endian are: the value of each byte, and the one the reverse of the other. */
  lemma ByteOrdersMean(v: u32, h: u16)
    ensures v == (LE32(v)[0] as int) + 0x100 * (LE32(v)[1] as int) + 0x1_0000 * (LE32(v)[2] as int)
                 + 0x100_0000 * (LE32(v)[3] as int)
    ensures |LE32(v)| == 4 && BE32(v) == [LE32(v)[3], LE32(v)[2], LE32(v)[1], LE32(v)[0]]
    ensures h == (LE16(h)[0] as int) + 0x100 * (LE16(h)[1] as int)
    ensures |LE16(h)| == 2 && BE16(h) == [LE16(h)[1], LE16(h)[0]]
  {
    ByteOrders32(v, []);
    assert LE32(v) + [] == LE32(v);
  }

  /** The both-byte-order fields of ECMA-119 sections 7.2.3 and 7.3.3. */
  function Both16(v: u16): Str { LE16(v) + BE16(v) }
  function Both32(v: u32): Str { LE32(v) + BE32(v) }

  /** Copies `t` into the buffer at `off`, as Go's `copy` and the `put*` helpers do. */
  method Put(buf: array<byte>, off: nat, t: Str)
    requires off + |t| <= buf.Length
    modifies buf
    ensures buf[..] == old(buf[..])[..off] + t + old(buf[..])[off + |t|..]
  {
    for i := 0 to |t|
      invariant forall j | 0 <= j < i :: buf[off + j] == t[j]
      invariant forall j | 0 <= j < buf.Length && !(off <= j < off + i) :: buf[j] == old(buf[j])
    {
      buf[off + i] := t[i];
    }
  }

  /** `Put` into the zeroed part of a buffer whose front `done` is finished. */
  method PutNext(buf: array<byte>, ghost done: Str, off: nat, t: Str) returns (ghost done': Str)
    requires |done| <= off && off + |t| <= buf.Length
    requires buf[..] == done + Zeros(buf.Length - |done|)
    modifies buf
    ensures done' == done + Zeros(off - |done|) + t
    ensures off == |done| ==> done' == done + t
    ensures buf[..] == done' + Zeros(buf.Length - |done'|)
  {
    done' := done + Zeros(off - |done|) + t;
    assert off == |done| ==> done + Zeros(0) == done;
    ghost var was := buf[..];
    Put(buf, off, t);
    assert was[..off] == done + Zeros(off - |done|);
    assert was[off + |t|..] == Zeros(buf.Length - |done'|);
  }

  // ----- Lexicographic order (Go's `<` on strings) -----

  predicate Less(a: Text, b: Text) { LessFrom(a, b, 0) }

  /** `a[i..] < b[i..]`, the first i elements being equal. */
  predicate LessFrom(a: Text, b: Text, i: nat)
    decreases |b| - i
  {
    if i >= |b| then false
    else if i >= |a| then true
    else a[i] < b[i] || (a[i] == b[i] && LessFrom(a, b, i + 1))
  }

  lemma {:induction false} LessFromMeans(a: Text, b: Text, i: nat)
    requires i <= |a| && i <= |b| && a[..i] == b[..i]
    ensures LessFrom(a, b, i) <==> exists k | i <= k <= |a| && k < |b| :: DiffersAt(a, b, k)
    decreases |b| - i
  {
    if i < |a| && i < |b| && a[i] == b[i] {
      assert a[..i + 1] == a[..i] + [a[i]] && b[..i + 1] == b[..i] + [b[i]];
      LessFromMeans(a, b, i + 1);
    } else if i < |b| {
      assert i < |a| && a[i] != b[i] ==> forall k | i < k <= |a| && k < |b| :: a[..k][i] != b[..k][i];
      if LessFrom(a, b, i) { assert DiffersAt(a, b, i); }
    }
  }

  /** They agree up to position k, where `a` ends or has the smaller element. */
  predicate DiffersAt(a: Text, b: Text, k: nat)
    requires k <= |a| && k < |b|
  {
    a[..k] == b[..k] && (k == |a| || a[k] < b[k])
  }

  /** One text sorts before another if, where they first differ, it has ended or has the smaller element. */
  lemma LessMeans(a: Text, b: Text)
    ensures Less(a, b) <==> exists k | 0 <= k <= |a| && k < |b| :: DiffersAt(a, b, k)
  {
    LessFromMeans(a, b, 0);
  }

  lemma {:induction false} LessTransFrom(a: Text, b: Text, c: Text, i: nat)
    requires LessFrom(a, b, i) && LessFrom(b, c, i)
    ensures LessFrom(a, c, i)
    decreases |b| - i
  {
    if i < |a| && a[i] == b[i] == c[i] { LessTransFrom(a, b, c, i + 1); }
  }

  lemma LessTrans(a: Text, b: Text, c: Text)
    requires Less(a, b) && Less(b, c)
    ensures Less(a, c)
  {
    LessTransFrom(a, b, c, 0);
  }

  lemma {:induction false} LessTotalFrom(a: Text, b: Text, i: nat)
    requires i <= |a| && i <= |b| && a[..i] == b[..i]
    ensures LessFrom(a, b, i) || LessFrom(b, a, i) || a == b
    decreases |a| - i
  {
    if i < |a| && i < |b| && a[i] == b[i] {
      assert a[..i + 1] == a[..i] + [a[i]] && b[..i + 1] == b[..i] + [b[i]];
      LessTotalFrom(a, b, i + 1);
    } else if i == |a| == |b| {
      assert a == a[..i] && b == b[..i];
    }
  }

  lemma LessTotal(a: Text, b: Text)
    ensures Less(a, b) || Less(b, a) || a == b
  {
    LessTotalFrom(a, b, 0);
  }

  lemma {:induction false} LessIrreflexiveFrom(a: Text, i: nat)
    ensures !LessFrom(a, a, i)
    decreases |a| - i
  {
    if i < |a| { LessIrreflexiveFrom(a, i + 1); }
  }

  lemma LessIrreflexive(a: Text)
    ensures !Less(a, a)
  {
    LessIrreflexiveFrom(a, 0);
  }

  lemma {:induction false} PrefixLessFrom(a: Text, b: Text, i: nat)
    requires b != [] && i <= |a|
    ensures LessFrom(a, a + b, i)
    decreases |a| - i
  {
    if i < |a| { PrefixLessFrom(a, b, i + 1); }
  }

  /** A proper prefix sorts first. */
  lemma PrefixLess(a: Text, b: Text)
    requires b != []
    ensures Less(a, a + b)
  {
    PrefixLessFrom(a, b, 0);
  }
}
