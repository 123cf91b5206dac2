/**
 * The batching decisions of the holotree restore: which files go into small-file batches, and
 * how one directory's tasks are cut into batches of eight.
 */
module Batching {
  import opened HtfsFile
  import Text

  /** Files below 100 KiB are batched. */
  const SmallFileThreshold: int := 100 * 1024
  /** The number of small files per work unit (declared; createBatches uses its own eight). */
  const BatchSize: nat := 16
  const OptimalBatchSize: nat := 8

  datatype FileTask = FileTask(digest: string, sinkPath: string, details: File, rewrite: seq<Text.Byte>)
  datatype DirectoryBatch = DirectoryBatch(path: string, files: seq<FileTask>)

  /** shouldBatch: never a symlink or a file with more than ten rewrites; otherwise below the threshold. */
  predicate ShouldBatch(f: File)
  {
    if IsSymlink(f) then false
    else if |f.rewrite| > 10 then false
    else f.size < SmallFileThreshold
  }

  /** The cases htfs/batching_test.go lists for shouldBatch. */
  lemma ShouldBatchExamples(f: File)
    ensures ShouldBatch(f.(symlink := "", rewrite := [], size := 1024))
    ensures !ShouldBatch(f.(symlink := "", rewrite := [], size := 200 * 1024))
    ensures !ShouldBatch(f.(symlink := "/target"))
    ensures !ShouldBatch(f.(symlink := "", rewrite := seq(11, k => 0), size := 50 * 1024))
    ensures !ShouldBatch(f.(symlink := "", rewrite := [], size := SmallFileThreshold))
    ensures ShouldBatch(f.(symlink := "", rewrite := [], size := SmallFileThreshold - 1))
  {
  }

  /** At or above the threshold nothing is batched, and a batched file stays batched when it shrinks. */
  lemma ThresholdExcludesLargeFiles(f: File, smaller: int)
    ensures f.size >= SmallFileThreshold ==> !ShouldBatch(f)
    ensures ShouldBatch(f) && smaller <= f.size ==> ShouldBatch(f.(size := smaller))
  {
  }

  /** The batches createBatches builds: consecutive runs of eight tasks, the last one shorter. */
  function Chunks(tasks: seq<FileTask>, dirPath: string): seq<DirectoryBatch>
    decreases |tasks|
  {
    if tasks == [] then []
    else
      var e := if |tasks| < OptimalBatchSize then |tasks| else OptimalBatchSize;
      [DirectoryBatch(dirPath, tasks[..e])] + Chunks(tasks[e..], dirPath)
  }

  /** The tasks of all batches, in order. */
  function Flatten(batches: seq<DirectoryBatch>): seq<FileTask>
  {
    if batches == [] then [] else batches[0].files + Flatten(batches[1..])
  }

  /** createBatches: nothing for no tasks; otherwise eight at a time, all under dirPath. */
  method CreateBatches(tasks: seq<FileTask>, dirPath: string) returns (batches: seq<DirectoryBatch>)
    ensures batches == Chunks(tasks, dirPath)
  {
    if |tasks| == 0 {
      return [];
    }
    batches := [];
    var i := 0;
    while i < |tasks|
      invariant 0 <= i <= |tasks|
      invariant batches + Chunks(tasks[i..], dirPath) == Chunks(tasks, dirPath)
      decreases |tasks| - i
    {
      var end := i + OptimalBatchSize;
      if end > |tasks| {
        end := |tasks|;
      }
      assert tasks[i..][..end - i] == tasks[i..end];
      assert tasks[i..][end - i..] == tasks[end..];
      batches := batches + [DirectoryBatch(dirPath, tasks[i..end])];
      i := end;
    }
  }

  /** The batches hold every task once, in order; each has one to eight tasks and only the last fewer than eight. */
  lemma {:induction false} ChunksCorrect(tasks: seq<FileTask>, dirPath: string)
    ensures Flatten(Chunks(tasks, dirPath)) == tasks
    ensures |Chunks(tasks, dirPath)| == (|tasks| + OptimalBatchSize - 1) / OptimalBatchSize
    ensures forall k :: 0 <= k < |Chunks(tasks, dirPath)| ==>
      Chunks(tasks, dirPath)[k].path == dirPath && 1 <= |Chunks(tasks, dirPath)[k].files| <= OptimalBatchSize
    ensures forall k :: 0 <= k < |Chunks(tasks, dirPath)| - 1 ==> |Chunks(tasks, dirPath)[k].files| == OptimalBatchSize
    decreases |tasks|
  {
    if tasks != [] {
      var e := if |tasks| < OptimalBatchSize then |tasks| else OptimalBatchSize;
      ChunksCorrect(tasks[e..], dirPath);
      var c := Chunks(tasks, dirPath);
      var rest := Chunks(tasks[e..], dirPath);
      assert c == [DirectoryBatch(dirPath, tasks[..e])] + rest;
      assert c[1..] == rest;
      assert tasks[..e] + tasks[e..] == tasks;
      assert forall k :: 1 <= k < |c| ==> c[k] == rest[k - 1];
    }
  }
}
