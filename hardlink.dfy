/**
 * The hard-link queue of the holotree restore: links are grouped by source file, one batch per
 * source in the order sources first appear, and only plain, unmodified, non-executable files are
 * linked at all. Creating the links is not part of this model.
 */
module Hardlink {
  import opened HtfsFile

  datatype HardlinkBatch = HardlinkBatch(source: string, targets: seq<string>)

  /** Index of the batch for this source, or -1. */
  function BatchOf(bs: seq<HardlinkBatch>, source: string): (i: int)
    ensures -1 <= i < |bs|
    ensures i >= 0 ==> bs[i].source == source && forall j :: 0 <= j < i ==> bs[j].source != source
    ensures i < 0 ==> forall j :: 0 <= j < |bs| ==> bs[j].source != source
  {
    if bs == [] then -1
    else if bs[0].source == source then 0
    else
      var k := BatchOf(bs[1..], source);
      if k < 0 then -1 else k + 1
  }

  /** The queue after AddHardlink(source, target). */
  function Added(bs: seq<HardlinkBatch>, source: string, target: string): seq<HardlinkBatch>
  {
    var i := BatchOf(bs, source);
    if i < 0 then bs + [HardlinkBatch(source, [target])]
    else bs[i := bs[i].(targets := bs[i].targets + [target])]
  }

  /** The targets queued for a source, as the queue records them. */
  function TargetsOf(bs: seq<HardlinkBatch>, source: string): seq<string>
  {
    var i := BatchOf(bs, source);
    if i < 0 then [] else bs[i].targets
  }

  ghost predicate UniqueSources(bs: seq<HardlinkBatch>)
  {
    forall i, j :: 0 <= i < j < |bs| ==> bs[i].source != bs[j].source
  }

  /** Adding a link appends the target to its own source's targets and leaves every other source alone. */
  lemma AddedTargets(bs: seq<HardlinkBatch>, source: string, target: string, other: string)
    ensures TargetsOf(Added(bs, source, target), other) ==
      TargetsOf(bs, other) + (if other == source then [target] else [])
    ensures UniqueSources(bs) ==> UniqueSources(Added(bs, source, target))
  {
    var a := Added(bs, source, target);
    var i := BatchOf(bs, source);
    var k := BatchOf(bs, other);
    if i < 0 {
      assert a == bs + [HardlinkBatch(source, [target])];
      if other == source {
        assert a[|bs|].source == other;
        assert BatchOf(a, other) == |bs|;
      } else {
        assert forall j :: 0 <= j < |a| ==> a[j].source == other ==> j < |bs| && bs[j] == a[j];
        assert BatchOf(a, other) == k;
      }
    } else {
      assert forall j :: 0 <= j < |a| ==> a[j].source == bs[j].source;
      assert BatchOf(a, other) == k;
    }
  }

  class HardlinkManager {
    var batches: seq<HardlinkBatch>
    var fallback: seq<string>
    var maxWorkers: nat

    /** One batch per source. */
    ghost predicate Valid()
      reads this
    {
      UniqueSources(batches)
    }

    /** NewHardlinkManager: no batches; as many workers as CPUs, at most eight. */
    constructor (numCPU: nat)
      ensures batches == [] && fallback == []
      ensures maxWorkers == if numCPU > 8 then 8 else numCPU
      ensures Valid()
    {
      batches := [];
      fallback := [];
      maxWorkers := if numCPU > 8 then 8 else numCPU;
    }

    /** AddHardlink: append to the batch with the same source, or open a new batch at the end. */
    method AddHardlink(source: string, target: string)
      modifies this
      ensures batches == Added(old(batches), source, target)
      ensures fallback == old(fallback) && maxWorkers == old(maxWorkers)
      ensures old(Valid()) ==> Valid()
    {
      var i := 0;
      while i < |batches|
        invariant 0 <= i <= |batches| && batches == old(batches)
        invariant forall j :: 0 <= j < i ==> batches[j].source != source
      {
        if batches[i].source == source {
          batches := batches[i := batches[i].(targets := batches[i].targets + [target])];
          AddedTargets(old(batches), source, target, source);
          return;
        }
        i := i + 1;
      }
      batches := batches + [HardlinkBatch(source, [target])];
      AddedTargets(old(batches), source, target, source);
    }
  }

  /** The sequence of htfs/hardlink_test.go: two links from one source share a batch. */
  lemma AddHardlinkExample()
    ensures var bs := Added(Added(Added([], "/source/file1", "/target/file1"), "/source/file1", "/target/file2"),
                            "/source/file2", "/target/file3");
      |bs| == 2 && bs[0].targets == ["/target/file1", "/target/file2"] && bs[1].targets == ["/target/file3"]
  {
    var b1 := Added([], "/source/file1", "/target/file1");
    assert b1 == [HardlinkBatch("/source/file1", ["/target/file1"])];
    var b2 := Added(b1, "/source/file1", "/target/file2");
    assert BatchOf(b1, "/source/file1") == 0;
    assert ["/target/file1"] + ["/target/file2"] == ["/target/file1", "/target/file2"];
    assert b2 == [HardlinkBatch("/source/file1", ["/target/file1", "/target/file2"])];
    assert "/source/file1" != "/source/file2" by { assert "/source/file1"[12] != "/source/file2"[12]; }
    assert BatchOf(b2, "/source/file2") == -1;
  }

  /** isHardlinkCandidate: no symlink, no rewrites, no execute bit (mode & 0111). */
  predicate IsHardlinkCandidate(f: File)
  {
    if IsSymlink(f) then false
    else if |f.rewrite| > 0 then false
    else f.mode & 0x49 == 0
  }

  /** Any one execute bit (owner 0100, group 0010, others 0001) rules a file out. */
  lemma ExecutableIsNeverCandidate(f: File)
    ensures f.mode & 0x40 != 0 ==> !IsHardlinkCandidate(f)
    ensures f.mode & 0x08 != 0 ==> !IsHardlinkCandidate(f)
    ensures f.mode & 0x01 != 0 ==> !IsHardlinkCandidate(f)
    ensures IsHardlinkCandidate(f) <==> !IsSymlink(f) && f.rewrite == [] && f.mode & 0x49 == 0
  {
  }

  /** The cases htfs/hardlink_test.go lists: 0644 and 0444 are candidates; 0755, a symlink and rewrites are not. */
  lemma HardlinkCandidateExamples(f: File)
    ensures IsHardlinkCandidate(f.(symlink := "", rewrite := [], mode := 0x1A4))
    ensures IsHardlinkCandidate(f.(symlink := "", rewrite := [], mode := 0x124))
    ensures !IsHardlinkCandidate(f.(symlink := "", rewrite := [], mode := 0x1ED))
    ensures !IsHardlinkCandidate(f.(symlink := "/some/target", mode := 0x1FF))
    ensures !IsHardlinkCandidate(f.(symlink := "", rewrite := [100, 200], mode := 0x1A4))
  {
  }
}
