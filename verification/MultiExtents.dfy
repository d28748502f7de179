/** Merging the directory records of multi-extent files (read.go; ECMA-119 section 6.5.1). */
module MultiExtents {
  import opened Bytes
  import opened DirRecords
  import opened Readers

  function Prepend(front: seq<DirRecord>, r: Result<seq<DirRecord>>): Result<seq<DirRecord>> {
    match r
    case Ok(rest) => Ok(front + rest)
    case Err(e) => Err(e)
  }

  /** One past the record that ends the run begun by `in[0]`, looking from `j` on. */
  function RunEnd(recs: seq<DirRecord>, j: nat): (end: Option<nat>)
    requires 0 < j <= |recs|
    ensures end.Some? ==> j < end.value <= |recs|
    decreases |recs| - j
  {
    if j == |recs| || recs[j].rawName != recs[0].rawName then None
    else if !recs[j].IsMultiExtent() then Some(j + 1)
    else RunEnd(recs, j + 1)
  }

  function Extents(run: seq<DirRecord>): (e: seq<Extent>)
    ensures |e| == |run|
  {
    if run == [] then [] else Extents(run[..|run| - 1]) + [Extent(run[|run| - 1].lba, run[|run| - 1].size)]
  }

  /** The one record a run of records stands for. */
  function MergeRun(run: seq<DirRecord>): DirRecord
    requires run != [] && TotalSize(Extents(run)) < TWO32
  {
    run[0].(extents := Some(Extents(run)), flags := run[|run| - 1].flags % 0x80, size := TotalSize(Extents(run)))
  }

  predicate Alone(rec: DirRecord) { rec.IsDir() || !rec.IsMultiExtent() }

  /** What `mergeMultiExtent` returns. */
  function Merge(recs: seq<DirRecord>): Result<seq<DirRecord>> {
    if recs == [] then Ok([])
    else if Alone(recs[0]) then Prepend([recs[0]], Merge(recs[1..]))
    else match RunEnd(recs, 1)
      case None => Err(Corrupt)
      case Some(j) =>
        if TotalSize(Extents(recs[..j])) >= TWO32 then Err(Corrupt)
        else Prepend([MergeRun(recs[..j])], Merge(recs[j..]))
  }

  lemma ExtentsNext(run: seq<DirRecord>, j: nat)
    requires j < |run|
    ensures Extents(run[..j + 1]) == Extents(run[..j]) + [Extent(run[j].lba, run[j].size)]
    ensures TotalSize(Extents(run[..j + 1])) == TotalSize(Extents(run[..j])) + run[j].size
  {
    assert run[..j + 1][..j] == run[..j];
    var e := Extents(run[..j + 1]);
    assert e[..|e| - 1] == Extents(run[..j]);
  }

  /** The inner loop: gathers the run that starts at `i`. */
  method Gather(recs: seq<DirRecord>, i: nat)
    returns (exts: seq<Extent>, total: nat, lastFlags: byte, j: nat, complete: bool)
    requires i < |recs|
    ensures complete <==> RunEnd(recs[i..], 1).Some?
    ensures complete ==> j == i + RunEnd(recs[i..], 1).value
    ensures complete ==> exts == Extents(recs[i..][..j - i]) && total == TotalSize(exts)
    ensures complete ==> lastFlags == recs[j - 1].flags
  {
    var rec := recs[i];
    ghost var tail := recs[i..];
    exts, total, lastFlags, j, complete := [Extent(rec.lba, rec.size)], rec.size, rec.flags, i + 1, false;
    ExtentsNext(tail, 0);
    while j < |recs|
      invariant i < j <= |recs| && !complete
      invariant exts == Extents(tail[..j - i]) && total == TotalSize(exts)
      invariant RunEnd(tail, j - i) == RunEnd(tail, 1)
      decreases |recs| - j
    {
      var next := recs[j];
      if next.rawName != rec.rawName { break; }
      ExtentsNext(tail, j - i);
      exts := exts + [Extent(next.lba, next.size)];
      total := total + next.size;
      j := j + 1;
      if !next.IsMultiExtent() {
        lastFlags, complete := next.flags, true;
        break;
      }
    }
  }

  method MergeMultiExtent(recs: seq<DirRecord>) returns (r: Result<seq<DirRecord>>)
    ensures r == Merge(recs)
  {
    var out: seq<DirRecord> := [];
    var i := 0;
    assert recs[0..] == recs;
    PrependNothing(Merge(recs));
    while i < |recs|
      invariant i <= |recs| && Prepend(out, Merge(recs[i..])) == Merge(recs)
      decreases |recs| - i
    {
      var rec := recs[i];
      ghost var rest := Merge(recs[i..]);
      if Alone(rec) {
        assert recs[i..][1..] == recs[i + 1..];
        PrependTwice(out, [rec], Merge(recs[i + 1..]));
        out := out + [rec];
        i := i + 1;
        continue;
      }
      var exts, total, lastFlags, j, complete := Gather(recs, i);
      if !complete { return Err(Corrupt); }
      if total >= TWO32 { return Err(Corrupt); }
      var merged := rec.(extents := Some(exts), flags := lastFlags % 0x80, size := total);
      assert recs[i..][j - i..] == recs[j..] && recs[i..][..j - i][j - i - 1] == recs[j - 1];
      PrependTwice(out, [merged], Merge(recs[j..]));
      out := out + [merged];
      i := j;
    }
    assert out + [] == out;
    return Ok(out);
  }

  lemma PrependTwice(a: seq<DirRecord>, b: seq<DirRecord>, r: Result<seq<DirRecord>>)
    ensures Prepend(a, Prepend(b, r)) == Prepend(a + b, r)
  {
    if r.Ok? { assert a + (b + r.value) == a + b + r.value; }
  }

  lemma PrependNothing(r: Result<seq<DirRecord>>)
    ensures Prepend([], r) == r
  {
    if r.Ok? { assert [] + r.value == r.value; }
  }

  // ----- Merging inverts splitting -----

  /** The records of one entry: a directory or plain file alone, or a file's flagged records and its last, unflagged
      one. */
  predicate IsEntry(run: seq<DirRecord>) {
    if |run| == 1 then Alone(run[0])
    else
      && |run| > 1 && !run[0].IsDir()
      && (forall k | 0 <= k < |run| :: run[k].rawName == run[0].rawName)
      && (forall k | 0 <= k < |run| :: run[k].IsMultiExtent() <==> k < |run| - 1)
      && TotalSize(Extents(run)) < TWO32
  }

  /** An entry is a directory, whatever its flags, or a record without the multi-extent bit, alone; or records of one
      identifier, the first no directory, of which all but the last have that bit, of less than 4 GiB together. */
  lemma IsEntryMeans(run: seq<DirRecord>)
    ensures IsEntry(run) <==>
            if |run| == 1 then run[0].flags / 2 % 2 == 1 || run[0].flags < 0x80
            else && |run| > 1 && run[0].flags / 2 % 2 == 0 && TotalSize(Extents(run)) < 0x1_0000_0000
                 && forall k | 0 <= k < |run| ::
                      run[k].rawName == run[0].rawName && (run[k].flags >= 0x80 <==> k < |run| - 1)
  {
  }

  function EntryOf(run: seq<DirRecord>): DirRecord
    requires IsEntry(run)
  {
    if |run| == 1 then run[0] else MergeRun(run)
  }

  function Flatten(runs: seq<seq<DirRecord>>): seq<DirRecord> {
    if runs == [] then [] else runs[0] + Flatten(runs[1..])
  }

  function Entries(runs: seq<seq<DirRecord>>): (es: seq<DirRecord>)
    requires forall run <- runs :: IsEntry(run)
    ensures |es| == |runs|
  {
    if runs == [] then [] else [EntryOf(runs[0])] + Entries(runs[1..])
  }

  lemma {:induction false} ExtentsAt(run: seq<DirRecord>, i: nat)
    requires i < |run|
    ensures Extents(run)[i] == Extent(run[i].lba, run[i].size)
  {
    if i < |run| - 1 { ExtentsAt(run[..|run| - 1], i); }
  }

  /** What the one record of an entry says: a record alone is itself; a run keeps everything of its first record but the
      size, which is the sum, and the flags, which are the last one's without the multi-extent bit, and lists the
      extents of all, in order. */
  lemma EntryMeans(run: seq<DirRecord>)
    requires IsEntry(run)
    ensures var e := EntryOf(run);
            if |run| == 1 then e == run[0]
            else && e.rawName == run[0].rawName && e.name == run[0].name && e.sysUse == run[0].sysUse
                 && e.lba == run[0].lba && e.length == run[0].length
                 && e.flags == run[|run| - 1].flags % 0x80
                 && e.extents.Some? && |e.extents.value| == |run| && e.size == TotalSize(e.extents.value)
                 && forall i | 0 <= i < |run| :: e.extents.value[i] == Extent(run[i].lba, run[i].size)
  {
    forall i | 0 <= i < |run| ensures Extents(run)[i] == Extent(run[i].lba, run[i].size) { ExtentsAt(run, i); }
  }

  lemma {:induction false} RunEndOfEntry(run: seq<DirRecord>, rest: seq<DirRecord>, j: nat)
    requires IsEntry(run) && 0 < j < |run|
    ensures RunEnd(run + rest, j) == Some(|run|)
    decreases |run| - j
  {
    assert (run + rest)[j] == run[j] && (run + rest)[0] == run[0];
    if j < |run| - 1 { RunEndOfEntry(run, rest, j + 1); }
  }

  lemma MergeFirst(run: seq<DirRecord>, rest: seq<DirRecord>)
    requires IsEntry(run)
    ensures Merge(run + rest) == Prepend([EntryOf(run)], Merge(rest))
  {
    var recs := run + rest;
    assert recs[0] == run[0];
    if |run| == 1 {
      assert recs[1..] == rest;
    } else {
      RunEndOfEntry(run, rest, 1);
      assert recs[..|run|] == run && recs[|run|..] == rest;
    }
  }

  /** Recorded entries merge back to exactly those entries, neighbours of equal name included. */
  lemma {:induction false} MergeInvertsSplitting(runs: seq<seq<DirRecord>>)
    requires forall run <- runs :: IsEntry(run)
    ensures Merge(Flatten(runs)) == Ok(Entries(runs))
  {
    if runs != [] {
      MergeFirst(runs[0], Flatten(runs[1..]));
      MergeInvertsSplitting(runs[1..]);
    }
  }

  lemma {:induction false} RunEndIsEntry(recs: seq<DirRecord>, j: nat)
    requires 0 < j < |recs| && RunEnd(recs, j).Some?
    requires forall k | 0 <= k < j :: recs[k].rawName == recs[0].rawName && recs[k].IsMultiExtent()
    ensures var end := RunEnd(recs, j).value;
            && (forall k | 0 <= k < end :: recs[k].rawName == recs[0].rawName)
            && (forall k | 0 <= k < end :: recs[k].IsMultiExtent() <==> k < end - 1)
    decreases |recs| - j
  {
    if recs[j].IsMultiExtent() { RunEndIsEntry(recs, j + 1); }
  }

  /** How many records the first entry takes. */
  function FirstRun(recs: seq<DirRecord>): (n: nat)
    requires recs != [] && Merge(recs).Ok?
    ensures 0 < n <= |recs|
  {
    if Alone(recs[0]) then 1 else RunEnd(recs, 1).value
  }

  lemma MergeUnfolds(recs: seq<DirRecord>, n: nat)
    requires recs != [] && Merge(recs).Ok? && n == FirstRun(recs)
    ensures IsEntry(recs[..n]) && recs == recs[..n] + recs[n..]
    ensures Merge(recs[n..]).Ok? && Merge(recs).value == [EntryOf(recs[..n])] + Merge(recs[n..]).value
  {
    if !Alone(recs[0]) { RunEndIsEntry(recs, 1); }
  }

  /** Merging succeeds only on the records of some entries, which it recovers. */
  lemma {:induction false} MergeRecoversEntries(recs: seq<DirRecord>) returns (runs: seq<seq<DirRecord>>)
    requires Merge(recs).Ok?
    ensures forall run <- runs :: IsEntry(run)
    ensures Flatten(runs) == recs && Merge(recs) == Ok(Entries(runs))
    decreases |recs|
  {
    if recs == [] {
      runs := [];
    } else {
      var n := FirstRun(recs);
      MergeUnfolds(recs, n);
      var rest := MergeRecoversEntries(recs[n..]);
      runs := [recs[..n]] + rest;
      assert runs[1..] == rest;
    }
  }

  /** `mergeMultiExtent` succeeds exactly on the concatenated records of entries. */
  lemma MergeSucceedsExactly(recs: seq<DirRecord>)
    ensures Merge(recs).Ok? <==> exists runs :: (forall run <- runs :: IsEntry(run)) && Flatten(runs) == recs
  {
    if Merge(recs).Ok? {
      var runs := MergeRecoversEntries(recs);
    }
    forall runs | (forall run <- runs :: IsEntry(run)) && Flatten(runs) == recs ensures Merge(recs).Ok? {
      MergeInvertsSplitting(runs);
    }
  }

  // ----- Conservation and idempotence -----

  /** Every (lba, size) pair of the records, in order. */
  function Pairs(recs: seq<DirRecord>): seq<Extent> {
    if recs == [] then [] else recs[0].ExtentList() + Pairs(recs[1..])
  }

  function SizeSum(recs: seq<DirRecord>): nat {
    if recs == [] then 0 else recs[0].size + SizeSum(recs[1..])
  }

  lemma {:induction false} PairsOfRun(run: seq<DirRecord>, rest: seq<DirRecord>)
    requires forall r <- run :: r.extents.None?
    ensures Pairs(run + rest) == Extents(run) + Pairs(rest)
    ensures SizeSum(run + rest) == TotalSize(Extents(run)) + SizeSum(rest)
    decreases |run|
  {
    if run == [] {
      assert run + rest == rest;
    } else {
      var n := |run| - 1;
      var last := run[n];
      assert last in run && last.ExtentList() == [Extent(last.lba, last.size)];
      assert run + rest == run[..n] + ([last] + rest);
      PairsOfRun(run[..n], [last] + rest);
      assert ([last] + rest)[1..] == rest;
      ExtentsNext(run, n);
      assert run[..n + 1] == run;
    }
  }

  /** Merging neither loses, adds nor reorders an extent, nor changes the total byte count. */
  lemma {:induction false} MergeConserves(recs: seq<DirRecord>)
    requires Merge(recs).Ok? && forall r <- recs :: r.extents.None?
    ensures Pairs(Merge(recs).value) == Pairs(recs) && SizeSum(Merge(recs).value) == SizeSum(recs)
    decreases |recs|
  {
    if recs != [] {
      var n := FirstRun(recs);
      MergeUnfolds(recs, n);
      MergeConserves(recs[n..]);
      PairsOfRun(recs[..n], recs[n..]);
      var out := Merge(recs).value;
      assert out[1..] == Merge(recs[n..]).value;
      if n == 1 {
        ExtentsNext(recs, 0);
        assert recs[0] in recs;
      }
    }
  }

  /** Every merged record is complete, so merging again changes nothing. */
  lemma {:induction false} MergeIdempotent(recs: seq<DirRecord>)
    requires Merge(recs).Ok?
    ensures Merge(Merge(recs).value) == Merge(recs)
    decreases |recs|
  {
    if recs != [] {
      var n := FirstRun(recs);
      MergeUnfolds(recs, n);
      MergeIdempotent(recs[n..]);
      var out := Merge(recs).value;
      assert out[1..] == Merge(recs[n..]).value;
      assert Alone(out[0]);
    }
  }

  /** Records that each stand alone pass through unchanged. */
  lemma {:induction false} MergeAlone(recs: seq<DirRecord>)
    requires forall r <- recs :: Alone(r)
    ensures Merge(recs) == Ok(recs)
  {
    if recs != [] {
      MergeAlone(recs[1..]);
      assert recs == [recs[0]] + recs[1..];
    }
  }

  // ----- Splitting a file over extents -----

  /** The records mkisofs writes for a file of several extents: all but the last carry the flag. */
  function Split(file: DirRecord, exts: seq<Extent>): (run: seq<DirRecord>)
    ensures |run| == |exts|
  {
    seq(|exts|, k requires 0 <= k < |exts| =>
      file.(lba := exts[k].lba, size := exts[k].size, extents := None,
            flags := SplitFlags(file.flags, k < |exts| - 1)))
  }

  lemma {:induction false} SplitExtents(file: DirRecord, exts: seq<Extent>, n: nat)
    requires n <= |exts|
    ensures Extents(Split(file, exts)[..n]) == exts[..n]
  {
    if n > 0 {
      var run := Split(file, exts);
      ExtentsNext(run, n - 1);
      SplitExtents(file, exts, n - 1);
      assert exts[..n] == exts[..n - 1] + [exts[n - 1]];
    }
  }

  function SplitFlags(flags: byte, more: bool): byte {
    flags % 0x80 + if more then FLAG_MULTI_EXTENT else 0
  }

  lemma SplitFlagsBits(flags: byte, more: bool)
    ensures var f := SplitFlags(flags, more);
            (f / 0x80 == 1 <==> more) && f / 2 % 2 == flags / 2 % 2 && f % 0x80 == flags % 0x80
  {
  }

  /** Record k of n that stand for `file`. */
  predicate RecordOf(rec: DirRecord, file: DirRecord, e: Extent, last: bool) {
    && rec.rawName == file.rawName && !rec.IsDir() && rec.IsMultiExtent() == !last
    && rec.flags % 0x80 == file.flags % 0x80 && rec.extents == None && rec.lba == e.lba && rec.size == e.size
  }

  lemma SplitRecord(file: DirRecord, exts: seq<Extent>, k: nat)
    requires !file.IsDir() && k < |exts|
    ensures RecordOf(Split(file, exts)[k], file, exts[k], k == |exts| - 1)
  {
    SplitFlagsBits(file.flags, k < |exts| - 1);
  }

  lemma LowFlags(flags: byte)
    requires flags / 0x80 != 1
    ensures flags % 0x80 == flags
  {
  }

  lemma RunOfFile(run: seq<DirRecord>, file: DirRecord, exts: seq<Extent>)
    requires exts != [] && |run| == |exts| && Extents(run) == exts && TotalSize(exts) < TWO32
    requires forall k | 0 <= k < |run| :: RecordOf(run[k], file, exts[k], k == |exts| - 1)
    ensures IsEntry(run)
    ensures var e := EntryOf(run);
            e.ExtentList() == exts && e.size == TotalSize(exts) && e.flags == file.flags % 0x80
            && e.rawName == file.rawName
  {
    assert RecordOf(run[0], file, exts[0], 0 == |exts| - 1);
    assert RecordOf(run[|run| - 1], file, exts[|run| - 1], true);
    if |run| == 1 {
      LowFlags(run[0].flags);
      assert exts == [exts[0]] && exts[..0] == [];
    }
  }

  /** A split file is an entry whose merged record has exactly the file's extents and total size. */
  lemma SplitIsEntry(file: DirRecord, exts: seq<Extent>)
    requires !file.IsDir() && exts != [] && TotalSize(exts) < TWO32
    ensures IsEntry(Split(file, exts))
    ensures var e := EntryOf(Split(file, exts));
            e.ExtentList() == exts && e.size == TotalSize(exts) && e.flags == file.flags % 0x80
            && e.rawName == file.rawName
  {
    var run := Split(file, exts);
    SplitExtents(file, exts, |exts|);
    assert run[..|exts|] == run && exts[..|exts|] == exts;
    forall k | 0 <= k < |run| ensures RecordOf(run[k], file, exts[k], k == |exts| - 1) { SplitRecord(file, exts, k); }
    RunOfFile(run, file, exts);
  }
}
