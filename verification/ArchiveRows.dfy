/** The rows of archive files, partition by partition. */
module ArchiveRows {
  import opened ArchiveNames

  /** A file with its rows; `partition` is the one it was opened for. */
  datatype ArchiveFile = ArchiveFile(path: Path, partition: Partition, rows: seq<Update>)

  /** The updates of partition `p`, in order. */
  function Select(us: seq<Update>, p: Partition): seq<Update> {
    if us == [] then []
    else
      var rest := Select(us[..|us| - 1], p);
      if PartitionOf(us[|us| - 1]) == p then rest + [us[|us| - 1]] else rest
  }

  /** The updates whose partition is in `ps`, in order. */
  function SelectIn(us: seq<Update>, ps: set<Partition>): seq<Update> {
    if us == [] then []
    else
      var rest := SelectIn(us[..|us| - 1], ps);
      if PartitionOf(us[|us| - 1]) in ps then rest + [us[|us| - 1]] else rest
  }

  lemma {:induction false} SelectJoins(a: seq<Update>, b: seq<Update>, p: Partition)
    ensures Select(a + b, p) == Select(a, p) + Select(b, p)
  {
    if b == [] {
      assert a + b == a;
    } else {
      SelectJoins(a, b[..|b| - 1], p);
      assert (a + b)[..|a + b| - 1] == a + b[..|b| - 1];
    }
  }

  lemma {:induction false} SelectOfSelectIn(us: seq<Update>, ps: set<Partition>, p: Partition)
    ensures Select(SelectIn(us, ps), p) == if p in ps then Select(us, p) else []
  {
    if us != [] {
      var rest := SelectIn(us[..|us| - 1], ps);
      SelectOfSelectIn(us[..|us| - 1], ps, p);
      var u := us[|us| - 1];
      assert (rest + [u])[..|rest|] == rest;
    }
  }

  lemma {:induction false} SelectInAll(us: seq<Update>, ps: set<Partition>)
    requires forall i :: 0 <= i < |us| ==> PartitionOf(us[i]) in ps
    ensures SelectIn(us, ps) == us
  {
    hide PartitionOf;
    if us != [] {
      SelectInAll(us[..|us| - 1], ps);
    }
  }

  lemma {:induction false} SelectBelongs(us: seq<Update>, p: Partition)
    ensures forall i :: 0 <= i < |Select(us, p)| ==> PartitionOf(Select(us, p)[i]) == p
  {
    if us != [] { SelectBelongs(us[..|us| - 1], p); }
  }

  lemma {:induction false} SelectAll(us: seq<Update>, p: Partition)
    requires forall i :: 0 <= i < |us| ==> PartitionOf(us[i]) == p
    ensures Select(us, p) == us
  {
    if us != [] { SelectAll(us[..|us| - 1], p); }
  }

  lemma {:induction false} SelectNone(us: seq<Update>, p: Partition)
    requires forall i :: 0 <= i < |us| ==> PartitionOf(us[i]) != p
    ensures Select(us, p) == []
  {
    if us != [] { SelectNone(us[..|us| - 1], p); }
  }

  /** The rows of the files of partition `p`, concatenated in creation order. */
  function RowsOf(files: seq<ArchiveFile>, p: Partition): seq<Update> {
    if files == [] then []
    else
      var rest := RowsOf(files[..|files| - 1], p);
      if files[|files| - 1].partition == p then rest + files[|files| - 1].rows else rest
  }

  /** What a reader finds: the rows of the finished files of partition `p`, in creation order. */
  function Readable(files: seq<ArchiveFile>, finished: set<nat>, p: Partition): seq<Update> {
    if files == [] then []
    else
      var n := |files| - 1;
      var rest := Readable(files[..n], finished, p);
      if files[n].partition == p && n in finished then rest + files[n].rows else rest
  }

  /** Every unfinished file of `p` is empty. */
  ghost predicate UnfinishedAreEmpty(files: seq<ArchiveFile>, finished: set<nat>, p: Partition) {
    forall i :: 0 <= i < |files| && files[i].partition == p && i !in finished ==> files[i].rows == []
  }

  lemma {:induction false} ReadableSize(files: seq<ArchiveFile>, finished: set<nat>, p: Partition)
    ensures |Readable(files, finished, p)| <= |RowsOf(files, p)|
  {
    if files != [] { ReadableSize(files[..|files| - 1], finished, p); }
  }

  /** A reader finds all rows of a partition if and only if its unfinished files are empty. */
  lemma {:induction false} ReadableIffFinished(files: seq<ArchiveFile>, finished: set<nat>, p: Partition)
    ensures Readable(files, finished, p) == RowsOf(files, p) <==> UnfinishedAreEmpty(files, finished, p)
  {
    if files != [] {
      var n := |files| - 1;
      var read, all, rows := Readable(files[..n], finished, p), RowsOf(files[..n], p), files[n].rows;
      ReadableIffFinished(files[..n], finished, p);
      ReadableSize(files[..n], finished, p);
      UnfinishedSplit(files, finished, p);
      if files[n].partition == p && n in finished && read + rows == all + rows {
        assert read == (read + rows)[..|read|] && all == (all + rows)[..|all|];
      }
    }
  }

  lemma UnfinishedSplit(files: seq<ArchiveFile>, finished: set<nat>, p: Partition)
    requires files != []
    ensures var n := |files| - 1;
            UnfinishedAreEmpty(files, finished, p) <==>
            && UnfinishedAreEmpty(files[..n], finished, p)
            && (files[n].partition == p && n !in finished ==> files[n].rows == [])
  {
    var n := |files| - 1;
    assert forall i :: 0 <= i < n ==> files[..n][i] == files[i];
  }

  /** No file after `f` belongs to the same partition. */
  predicate IsNewest(files: seq<ArchiveFile>, f: nat)
    requires f < |files|
  {
    forall g :: f < g < |files| ==> files[g].partition != files[f].partition
  }

  function Write(files: seq<ArchiveFile>, f: nat, more: seq<Update>): seq<ArchiveFile>
    requires f < |files|
  {
    files[f := files[f].(rows := files[f].rows + more)]
  }

  /** Writing to the newest file of a partition appends to that partition and touches no other. */
  lemma {:induction false} WriteAppends(files: seq<ArchiveFile>, f: nat, more: seq<Update>, p: Partition)
    requires f < |files| && IsNewest(files, f)
    ensures RowsOf(Write(files, f, more), p) == RowsOf(files, p) + if p == files[f].partition then more else []
  {
    var files' := Write(files, f, more);
    var n := |files| - 1;
    if f == n {
      assert files'[..n] == files[..n];
      assert RowsOf(files[..n], p) + (files[f].rows + more) == RowsOf(files[..n], p) + files[f].rows + more;
    } else {
      assert files'[..n] == Write(files[..n], f, more);
      WriteAppends(files[..n], f, more, p);
    }
  }

  lemma OpenAddsNothing(files: seq<ArchiveFile>, file: ArchiveFile, p: Partition)
    requires file.rows == []
    ensures RowsOf(files + [file], p) == RowsOf(files, p)
  {
    assert (files + [file])[..|files|] == files;
  }

  /** An open partition writer; `file` is its file handle. */
  datatype OpenWriter = OpenWriter(path: Path, file: nat, totalRows: nat, lastAppendSecs: nat, openTimeSecs: nat)

  type Writers = map<Partition, OpenWriter>

  /** The path is that of some part of the partition. */
  ghost predicate Placed(path: Path, p: Partition) {
    exists part: nat :: path == FilePath(p, part)
  }

  /** No path is created twice; every file is where its partition belongs, and none mixes partitions. */
  ghost predicate FilesSound(files: seq<ArchiveFile>, existing: set<Path>) {
    && (forall i, j :: 0 <= i < j < |files| ==> files[i].path != files[j].path)
    && (forall i :: 0 <= i < |files| ==> files[i].path in existing && Unmixed(files[i]))
    && (forall i :: 0 <= i < |files| ==> Placed(files[i].path, files[i].partition))
  }

  predicate Unmixed(file: ArchiveFile) {
    forall r :: 0 <= r < |file.rows| ==> PartitionOf(file.rows[r]) == file.partition
  }

  /**
    A writer of partition `p` writes to the newest file of `p`. Its total is right unless
    the file is among the `damaged` ones, on which a write has failed.
   */
  predicate WriterSound(files: seq<ArchiveFile>, damaged: set<nat>, p: Partition, w: OpenWriter) {
    && w.file < |files| && files[w.file].partition == p && IsNewest(files, w.file)
    && w.path == files[w.file].path
    && (w.file !in damaged ==> w.totalRows == |files[w.file].rows|)
  }

  ghost predicate WritersSound(files: seq<ArchiveFile>, damaged: set<nat>, open: Writers) {
    forall p :: p in open ==> WriterSound(files, damaged, p, open[p])
  }

  lemma OpenKeepsSound(
    files: seq<ArchiveFile>, damaged: set<nat>, existing: set<Path>, open: Writers, p: Partition, path: Path, now: nat)
    requires FilesSound(files, existing) && WritersSound(files, damaged, open) && p !in open && path !in existing
    requires Placed(path, p)
    ensures var files' := files + [ArchiveFile(path, p, [])];
            && FilesSound(files', existing + {path})
            && WritersSound(files', damaged, open[p := OpenWriter(path, |files|, 0, now, now)])
  {
    hide Placed;
    var files' := files + [ArchiveFile(path, p, [])];
    forall q | q in open ensures WriterSound(files', damaged, q, open[q]) {
      assert WriterSound(files, damaged, q, open[q]);
    }
  }

  /** Writing through the writer of `p` keeps all sound, if the total is kept or the file counts as damaged. */
  lemma WriteKeepsSound(
    files: seq<ArchiveFile>, damaged: set<nat>, damaged': set<nat>, existing: set<Path>, open: Writers,
    p: Partition, more: seq<Update>, w: OpenWriter)
    requires FilesSound(files, existing) && WritersSound(files, damaged, open) && p in open && damaged <= damaged'
    requires forall i :: 0 <= i < |more| ==> PartitionOf(more[i]) == p
    requires w.file == open[p].file && w.path == open[p].path
    requires w.file in damaged' || w.totalRows == open[p].totalRows + |more|
    ensures var files' := Write(files, open[p].file, more);
            FilesSound(files', existing) && WritersSound(files', damaged', open[p := w])
  {
    hide Placed;
    var f := open[p].file;
    assert WriterSound(files, damaged, p, open[p]);
    var files' := Write(files, f, more);
    assert Unmixed(files[f]);
    assert Unmixed(files'[f]);
    var open' := open[p := w];
    forall q | q in open' ensures WriterSound(files', damaged', q, open'[q]) {
      assert WriterSound(files, damaged, q, open[q]);
      assert IsNewest(files', open[q].file);
    }
  }

  /** The files of the writers of `ps`. */
  function FilesAt(open: Writers, ps: set<Partition>): set<nat> {
    set p | p in ps && p in open :: open[p].file
  }

  /** Every file is either open, or finished, or lost, and no two of these. */
  ghost predicate Settled(files: seq<ArchiveFile>, open: Writers, finished: set<nat>, lost: set<nat>) {
    && finished !! lost
    && (forall p :: p in open ==> open[p].file !in finished && open[p].file !in lost)
    && (forall i :: i in finished || i in lost ==> i < |files|)
    && (forall i :: 0 <= i < |files| && i !in finished && i !in lost ==> IsOpenFile(files, open, i))
  }

  predicate IsOpenFile(files: seq<ArchiveFile>, open: Writers, i: nat)
    requires i < |files|
  {
    files[i].partition in open && open[files[i].partition].file == i
  }
}
