/**
 * Pieces of the robot runner (operations/running.go): the writer that copies a run's output to
 * the dashboard line by line, the token period with its enforced bounds, and the names the
 * dashboard shows for the robot and the task.
 */
module Running {
  import opened Wrappers
  import opened Text
  import opened GoPath

  // ------------------------------------------------------------ dashboardWriter

  const Newline: Byte := 10

  /** The bytes a write leaves waiting for their '\n': the last piece of the split. */
  function Pending(buffer: seq<Byte>, p: seq<Byte>): seq<Byte>
  {
    var parts := Split(buffer + p, Newline);
    parts[|parts| - 1]
  }

  /** The lines a write completes: every piece of the split but the last, in order. */
  function Completed(buffer: seq<Byte>, p: seq<Byte>): seq<seq<Byte>>
  {
    var parts := Split(buffer + p, Newline);
    parts[..|parts| - 1]
  }

  /** What reaches the dashboard: the completed lines that are not empty, when there is a dashboard. */
  function Forwarded(buffer: seq<Byte>, p: seq<Byte>, hasDashboard: bool): seq<seq<Byte>>
  {
    if hasDashboard then NonEmpty(Completed(buffer, p)) else []
  }

  /** A writer that passes the bytes on and hands every finished, non-empty line to the dashboard. */
  class DashboardWriter {
    const hasUnderlying: bool
    const hasDashboard: bool
    var buffer: seq<Byte>
    /** The lines given to the dashboard's AddOutput so far, in order. */
    var output: seq<seq<Byte>>

    /** The buffer only ever holds an unfinished line. */
    predicate Valid()
      reads this
    {
      Newline !in buffer
    }

    /** newDashboardWriter. */
    constructor (hasUnderlying: bool, hasDashboard: bool)
      ensures this.hasUnderlying == hasUnderlying && this.hasDashboard == hasDashboard
      ensures buffer == [] && output == [] && Valid()
    {
      this.hasUnderlying := hasUnderlying;
      this.hasDashboard := hasDashboard;
      buffer := [];
      output := [];
    }

    /**
     * Write. The underlying writer is out of view: what it reports (a count and whether it
     * failed) is a parameter. A failure is returned at once and no line is processed.
     */
    method Write(p: seq<Byte>, underlyingCount: int, underlyingFailed: bool) returns (n: int, failed: bool)
      requires Valid()
      modifies this
      ensures Valid()
      ensures hasUnderlying && underlyingFailed ==>
        n == underlyingCount && failed && buffer == old(buffer) && output == old(output)
      ensures !(hasUnderlying && underlyingFailed) ==>
        && n == (if hasUnderlying then underlyingCount else |p|) && !failed
        && buffer == Pending(old(buffer), p)
        && output == old(output) + Forwarded(old(buffer), p, hasDashboard)
    {
      if hasUnderlying {
        n, failed := underlyingCount, underlyingFailed;
        if failed {
          return;
        }
      } else {
        n, failed := |p|, false;
      }
      var pending, lines := FeedBytes(buffer, p, hasDashboard);
      SplitPieces(buffer + p, Newline);
      buffer := pending;
      output := output + lines;
    }
  }

  /**
   * The byte loop of Write, on a buffer that holds an unfinished line: '\n' ends the pending
   * line, which is handed on when there is a dashboard and it is not empty; any other byte is
   * appended to the pending line.
   */
  method FeedBytes(buffer: seq<Byte>, p: seq<Byte>, hasDashboard: bool) returns (pending: seq<Byte>, lines: seq<seq<Byte>>)
    requires Newline !in buffer
    ensures pending == Pending(buffer, p) && lines == Forwarded(buffer, p, hasDashboard)
  {
    assert p[..0] == [] && buffer + [] == buffer;
    SplitFree(buffer, Newline);
    pending, lines := buffer, [];
    for i := 0 to |p|
      invariant pending == Pending(buffer, p[..i])
      invariant lines == Forwarded(buffer, p[..i], hasDashboard)
    {
      var b := p[i];
      FeedStep(buffer, p[..i], b, hasDashboard);
      assert p[..i + 1] == p[..i] + [b];
      if b == Newline {
        if hasDashboard && pending != [] {
          lines := lines + [pending];
        }
        pending := [];
      } else {
        pending := pending + [b];
      }
    }
    assert p[..|p|] == p;
  }

  /** One more byte: '\n' finishes the pending line, anything else extends it. */
  lemma FeedStep(buffer: seq<Byte>, q: seq<Byte>, b: Byte, d: bool)
    ensures b == Newline ==>
      Pending(buffer, q + [b]) == [] && Completed(buffer, q + [b]) == Completed(buffer, q) + [Pending(buffer, q)]
    ensures b != Newline ==>
      Pending(buffer, q + [b]) == Pending(buffer, q) + [b] && Completed(buffer, q + [b]) == Completed(buffer, q)
    ensures Forwarded(buffer, q + [b], d)
      == if b == Newline && d && Pending(buffer, q) != [] then Forwarded(buffer, q, d) + [Pending(buffer, q)]
         else Forwarded(buffer, q, d)
  {
    assert buffer + (q + [b]) == (buffer + q) + [b];
    var parts := Split(buffer + q, Newline);
    if b == Newline {
      SplitSnocSep(buffer + q, Newline);
      assert parts + [[]] == parts[..|parts| - 1] + [parts[|parts| - 1]] + [[]];
      NonEmptySnoc(Completed(buffer, q), Pending(buffer, q));
    } else {
      SplitSnocOther(buffer + q, b, Newline);
      var next := parts[..|parts| - 1] + [parts[|parts| - 1] + [b]];
      assert next[..|next| - 1] == parts[..|parts| - 1];
    }
  }

  /**
   * A line may arrive in several writes: writing p and then q completes the same lines, and
   * leaves the same bytes pending, as writing p + q at once.
   */
  lemma FeedConcat(buffer: seq<Byte>, p: seq<Byte>, q: seq<Byte>)
    ensures Pending(buffer, p + q) == Pending(Pending(buffer, p), q)
    ensures Completed(buffer, p + q) == Completed(buffer, p) + Completed(Pending(buffer, p), q)
    ensures forall d :: Forwarded(buffer, p + q, d) == Forwarded(buffer, p, d) + Forwarded(Pending(buffer, p), q, d)
  {
    assert buffer + (p + q) == (buffer + p) + q;
    SplitConcat(buffer + p, q, Newline);
    var parts := Split(buffer + p, Newline);
    var rest := Split(Pending(buffer, p) + q, Newline);
    var all := parts[..|parts| - 1] + rest;
    assert all[..|all| - 1] == parts[..|parts| - 1] + rest[..|rest| - 1];
    NonEmptyAppend(parts[..|parts| - 1], rest[..|rest| - 1]);
  }

  /** Nothing is lost: the completed lines and the pending bytes, joined at '\n', are the buffer and the write. */
  lemma FeedKeepsBytes(buffer: seq<Byte>, p: seq<Byte>)
    ensures Join(Completed(buffer, p) + [Pending(buffer, p)], Newline) == buffer + p
    ensures Newline !in Pending(buffer, p)
    ensures forall k :: 0 <= k < |Completed(buffer, p)| ==> Newline !in Completed(buffer, p)[k]
  {
    var parts := Split(buffer + p, Newline);
    assert Completed(buffer, p) + [Pending(buffer, p)] == parts;
    JoinSplit(buffer + p, Newline);
    SplitPieces(buffer + p, Newline);
  }

  /**
   * A line written in two pieces, the second ending in '\n', reaches the dashboard once, whole,
   * after the second write and not before.
   */
  lemma LineAcrossWrites(first: seq<Byte>, second: seq<Byte>)
    requires Newline !in first && Newline !in second && first + second != []
    ensures Completed([], first) == [] && Pending([], first) == first
    ensures Completed(first, second + [Newline]) == [first + second]
    ensures Pending(first, second + [Newline]) == []
  {
    assert [] + first == first;
    SplitFree(first, Newline);
    assert Newline !in first + second;
    assert first + (second + [Newline]) == first + second + [Newline] + [];
    SplitAppend(first + second, [], Newline);
    SplitFree(first + second, Newline);
  }

  // ------------------------------------------------------------ TokenPeriod

  /** Token lifetimes in minutes. */
  class TokenPeriod {
    var validityTime: int
    var gracePeriod: int

    constructor (validityTime: int, gracePeriod: int)
      ensures this.validityTime == validityTime && this.gracePeriod == gracePeriod
    {
      this.validityTime := validityTime;
      this.gracePeriod := gracePeriod;
    }
  }

  /** The grace period after enforcement: at least 5, at most 120 minutes. */
  function EnforcedGrace(grace: int): int
  {
    if grace < 5 then 5 else if grace > 120 then 120 else grace
  }

  /** The validity after enforcement: at least 15 minutes. */
  function EnforcedValidity(validity: int): int
  {
    if validity < 15 then 15 else validity
  }

  /** Enforcement lands in range, leaves values already in range alone, and is idempotent. */
  lemma EnforcedBounds(validity: int, grace: int)
    ensures 5 <= EnforcedGrace(grace) <= 120 && EnforcedValidity(validity) >= 15
    ensures 5 <= grace <= 120 <==> EnforcedGrace(grace) == grace
    ensures validity >= 15 <==> EnforcedValidity(validity) == validity
    ensures EnforcedGrace(EnforcedGrace(grace)) == EnforcedGrace(grace)
    ensures EnforcedValidity(EnforcedValidity(validity)) == EnforcedValidity(validity)
  {
  }

  /** EnforceGracePeriod on a possibly nil period: clamps the fields in place and returns the same period. */
  method EnforceGracePeriod(it: TokenPeriod?) returns (r: TokenPeriod?)
    modifies it
    ensures r == it
    ensures it != null ==>
      it.gracePeriod == EnforcedGrace(old(it.gracePeriod)) && it.validityTime == EnforcedValidity(old(it.validityTime))
  {
    if it == null {
      return it;
    }
    if it.gracePeriod < 5 {
      it.gracePeriod := 5;
    }
    if it.gracePeriod > 120 {
      it.gracePeriod := 120;
    }
    if it.validityTime < 15 {
      it.validityTime := 15;
    }
    return it;
  }

  /** DefaultTokenPeriod: the zero period, enforced. */
  method DefaultTokenPeriod() returns (r: TokenPeriod)
    ensures fresh(r) && r.validityTime == 15 && r.gracePeriod == 5
  {
    r := new TokenPeriod(0, 0);
    var _ := EnforceGracePeriod(r);
  }

  function AsSecondsOf(minutes: int): int { 60 * minutes }

  /** AsSeconds: the enforced validity and grace in seconds; a nil period gives the defaults and false. */
  method AsSeconds(it: TokenPeriod?) returns (validity: int, grace: int, ok: bool)
    modifies it
    ensures it == null ==> validity == 900 && grace == 300 && !ok
    ensures it != null ==>
      && ok
      && it.validityTime == EnforcedValidity(old(it.validityTime)) && it.gracePeriod == EnforcedGrace(old(it.gracePeriod))
      && validity == AsSecondsOf(it.validityTime) && grace == AsSecondsOf(it.gracePeriod)
  {
    if it == null {
      return AsSecondsOf(15), AsSecondsOf(5), false;
    }
    var _ := EnforceGracePeriod(it);
    return AsSecondsOf(it.validityTime), AsSecondsOf(it.gracePeriod), true;
  }

  /** The seconds a token is requested for: validity plus grace. */
  function RequestSecondsOf(validity: int, grace: int): int
  {
    AsSecondsOf(EnforcedValidity(validity)) + AsSecondsOf(EnforcedGrace(grace))
  }

  /** RequestSeconds: 60 times the enforced validity plus grace; a nil period asks for 20 minutes. */
  method RequestSeconds(it: TokenPeriod?) returns (seconds: int)
    modifies it
    ensures it == null ==> seconds == 1200
    ensures it != null ==> seconds == RequestSecondsOf(old(it.validityTime), old(it.gracePeriod))
    ensures it != null ==>
      it.validityTime == EnforcedValidity(old(it.validityTime)) && it.gracePeriod == EnforcedGrace(old(it.gracePeriod))
  {
    var valid, grace, _ := AsSeconds(it);
    seconds := valid + grace;
  }

  /** A token is always asked for at least twenty minutes, of which at most two hours are grace. */
  lemma RequestSecondsBounds(validity: int, grace: int)
    ensures RequestSecondsOf(validity, grace) >= 1200
    ensures RequestSecondsOf(validity, grace) == 60 * (EnforcedValidity(validity) + EnforcedGrace(grace))
    ensures RequestSecondsOf(validity, grace) - AsSecondsOf(EnforcedValidity(validity)) <= 7200
    ensures validity >= 15 && 5 <= grace <= 120 ==> RequestSecondsOf(validity, grace) == 60 * (validity + grace)
  {
    EnforcedBounds(validity, grace);
  }

  // ------------------------------------------------------------ names for the dashboard

  /** deriveRobotName: the robot directory's name, "Robot" when there is none. */
  function DeriveRobotName(robotYamlPath: string): string
  {
    if robotYamlPath == "" then "Robot"
    else
      var dir := Dir(robotYamlPath);
      if dir != "" && dir != "." then
        var base := Base(dir);
        if base != "" && base != "." then base else "Robot"
      else "Robot"
  }

  /** The robot name is never empty: the directory's base name or, failing that, "Robot". */
  lemma DeriveRobotNameCases(robotYamlPath: string)
    ensures DeriveRobotName(robotYamlPath) != ""
    ensures DeriveRobotName(robotYamlPath) == "Robot" || DeriveRobotName(robotYamlPath) == Base(Dir(robotYamlPath))
    ensures robotYamlPath == "" || Dir(robotYamlPath) == "." ==> DeriveRobotName(robotYamlPath) == "Robot"
    ensures robotYamlPath != "" && Dir(robotYamlPath) != "." ==> DeriveRobotName(robotYamlPath) == Base(Dir(robotYamlPath))
  {
    if robotYamlPath != "" && Dir(robotYamlPath) != "." {
      CleanBaseNotDot(robotYamlPath[..LastIndexOf(robotYamlPath, '/') + 1]);
    }
  }

  /** A robot.yaml inside a directory gets that directory's name, wherever the directory is. */
  lemma DeriveRobotNameOfProject(prefix: string, dir: string, file: string)
    requires PlainElement(dir) && file != "" && '/' !in file
    requires prefix == "" || prefix[|prefix| - 1] == '/'
    ensures DeriveRobotName(prefix + dir + "/" + file) == dir
  {
    var path := prefix + dir + "/" + file;
    assert path[|prefix + dir|] == '/';
    assert path[|prefix + dir| + 1..] == file;
    LastIndexOfAt(path, '/', |prefix + dir|);
    assert path[..|prefix + dir| + 1] == prefix + dir + "/";
    var d := CleanDirectory(prefix, dir);
    assert Dir(path) == d + dir;
    BaseAfterSlash(d, dir);
  }

  /** The task name a .robot argument gives: its base name without the extension. */
  function RobotTaskName(arg: string): string
  {
    if HasSuffix(arg, ".robot") then TrimSuffix(Base(arg), ".robot") else ""
  }

  /** The task name each argument gives, in order. */
  function TaskNames(args: seq<string>): (names: seq<string>)
    ensures |names| == |args| && forall i :: 0 <= i < |args| ==> names[i] == RobotTaskName(args[i])
  {
    seq(|args|, i requires 0 <= i < |args| => RobotTaskName(args[i]))
  }

  /** The first non-empty name of a list, or "". */
  function FirstNonEmpty(names: seq<string>): string
  {
    if names == [] then ""
    else if names[0] != "" then names[0]
    else FirstNonEmpty(names[1..])
  }

  /** The first non-empty task name among the arguments, or "". */
  function FirstRobotTaskName(args: seq<string>): string
  {
    FirstNonEmpty(TaskNames(args))
  }

  /** deriveTaskName. */
  function DeriveTaskName(commandline: seq<string>): string
  {
    if |commandline| == 0 then "Main Task"
    else
      var found := FirstRobotTaskName(commandline);
      if found != "" then found
      else
        var executable := Base(commandline[0]);
        if executable != "" then executable else "Main Task"
  }

  /** The first non-empty name is "" only when all are, and otherwise the one at the first non-empty position. */
  lemma {:induction false} FirstNonEmptyCases(names: seq<string>)
    ensures FirstNonEmpty(names) == "" <==> forall i :: 0 <= i < |names| ==> names[i] == ""
    ensures FirstNonEmpty(names) != "" ==>
      exists i :: 0 <= i < |names| && FirstNonEmpty(names) == names[i] && forall j :: 0 <= j < i ==> names[j] == ""
  {
    if names != [] && names[0] == "" {
      var rest := names[1..];
      FirstNonEmptyCases(rest);
      assert forall i :: 1 <= i < |names| ==> names[i] == rest[i - 1];
      if FirstNonEmpty(rest) != "" {
        var i :| 0 <= i < |rest| && FirstNonEmpty(rest) == rest[i] && forall j :: 0 <= j < i ==> rest[j] == "";
        assert FirstNonEmpty(names) == names[i + 1];
      }
    }
  }

  lemma FirstRobotTaskNameCases(args: seq<string>)
    ensures FirstRobotTaskName(args) == "" <==> forall i :: 0 <= i < |args| ==> RobotTaskName(args[i]) == ""
    ensures FirstRobotTaskName(args) != "" ==>
      exists i :: 0 <= i < |args| && FirstRobotTaskName(args) == RobotTaskName(args[i])
                  && forall j :: 0 <= j < i ==> RobotTaskName(args[j]) == ""
  {
    var names := TaskNames(args);
    FirstNonEmptyCases(names);
    if FirstRobotTaskName(args) != "" {
      var i :| 0 <= i < |names| && FirstNonEmpty(names) == names[i] && forall j :: 0 <= j < i ==> names[j] == "";
      assert FirstRobotTaskName(args) == RobotTaskName(args[i]);
    }
  }

  /**
   * "Main Task" for an empty command line; otherwise the name of the first .robot argument that
   * gives one, and when none does, the executable's base name (never empty).
   */
  lemma DeriveTaskNameCases(commandline: seq<string>)
    ensures |commandline| == 0 ==> DeriveTaskName(commandline) == "Main Task"
    ensures DeriveTaskName(commandline) != ""
    ensures |commandline| > 0 && (exists i :: 0 <= i < |commandline| && RobotTaskName(commandline[i]) != "") ==>
      exists i :: 0 <= i < |commandline| && DeriveTaskName(commandline) == RobotTaskName(commandline[i])
                  && forall j :: 0 <= j < i ==> RobotTaskName(commandline[j]) == ""
    ensures |commandline| > 0 && (forall i :: 0 <= i < |commandline| ==> RobotTaskName(commandline[i]) == "") ==>
      DeriveTaskName(commandline) == Base(commandline[0])
  {
    FirstRobotTaskNameCases(commandline);
  }

  /** An argument ending in ".robot" whose base name is NAME.robot gives NAME. */
  lemma RobotTaskNameOfBase(arg: string, name: string)
    requires HasSuffix(arg, ".robot") && Base(arg) == name + ".robot"
    ensures RobotTaskName(arg) == name
  {
    var file := name + ".robot";
    assert file[..|file| - 6] == name;
  }

  /** A .robot file named directly or after a directory gives its name without the extension. */
  lemma RobotTaskNameOf(dir: string, name: string)
    requires name != "" && '/' !in name
    requires dir == "" || dir[|dir| - 1] == '/'
    ensures RobotTaskName(dir + name + ".robot") == name
  {
    var file := name + ".robot";
    var arg := dir + file;
    assert arg == dir + name + ".robot";
    assert '/' !in file;
    BaseAfterSlash(dir, file);
    assert HasSuffix(arg, ".robot") by {
      assert arg[|arg| - 6..] == file[|file| - 6..];
    }
    RobotTaskNameOfBase(arg, name);
  }
}
