/**
 * The robots view of the interactive UI (interactive/view_robots.go): the repository name a
 * pull proposes as directory, and the index fields the arrow keys move in list mode and in
 * detail mode.
 */
module RobotsNavigation {
  import opened Text

  // ------------------------------------------------------------ extractRepoName

  /** extractRepoName: the name left after ".git", the last '/' and the last ':' are cut off; "robot" if empty. */
  function ExtractRepoName(url: string): string
  {
    var name := LastName(TrimSuffix(url, ".git"));
    if name != "" then name else "robot"
  }

  /** The text after the last '/' and then after the last ':'. */
  function LastName(s: string): string
  {
    var parts := Split(s, '/');
    var last := parts[|parts| - 1];
    SplitPieces(s, '/');
    var colon := LastIndexOf(last, ':');
    if colon != -1 then last[colon + 1..] else last
  }

  /** The text after the last '/' and ':' holds neither. */
  lemma LastNameShape(s: string)
    ensures '/' !in LastName(s) && ':' !in LastName(s)
  {
    var parts := Split(s, '/');
    var last := parts[|parts| - 1];
    SplitPieces(s, '/');
    var colon := LastIndexOf(last, ':');
    if colon != -1 {
      var name := last[colon + 1..];
      assert forall j :: 0 <= j < |name| ==> name[j] == last[colon + 1 + j];
    }
  }

  /** The proposed name is never empty and holds neither '/' nor ':'. */
  lemma ExtractRepoNameShape(url: string)
    ensures ExtractRepoName(url) != ""
    ensures '/' !in ExtractRepoName(url) && ':' !in ExtractRepoName(url)
  {
    LastNameShape(TrimSuffix(url, ".git"));
  }

  /** The last piece of a '/'-split, when it follows a '/' (or is all there is). */
  lemma SplitLast(prefix: string, name: string)
    requires '/' !in name
    requires prefix == "" || prefix[|prefix| - 1] == '/'
    ensures var parts := Split(prefix + name, '/'); parts[|parts| - 1] == name
  {
    if prefix == "" {
      assert prefix + name == name;
      SplitFree(name, '/');
    } else {
      var pre := prefix[..|prefix| - 1];
      assert prefix + name == pre + "/" + name;
      SplitAppend(pre, name, '/');
      SplitFree(name, '/');
    }
  }

  /** The name after the last ':' of a piece, when it follows a ':' (or is all there is). */
  lemma AfterLastColon(owner: string, name: string)
    requires ':' !in name
    requires owner == "" || owner[|owner| - 1] == ':'
    ensures var s := owner + name; var c := LastIndexOf(s, ':');
      (if c != -1 then s[c + 1..] else s) == name
  {
    var s := owner + name;
    if owner == "" {
      assert s == name;
    } else {
      LastIndexOfAt(s, ':', |owner| - 1);
      assert s[|owner|..] == name;
    }
  }

  /** A prefix splits at its last '/' into what comes before and a '/'-free piece. */
  lemma AtLastSlash(prefix: string) returns (pre: string, piece: string)
    ensures prefix == pre + piece && '/' !in piece && (pre == "" || pre[|pre| - 1] == '/')
    ensures piece != "" ==> piece[|piece| - 1] == prefix[|prefix| - 1]
  {
    var k := LastIndexOf(prefix, '/');
    pre, piece := prefix[..k + 1], prefix[k + 1..];
    assert prefix == pre + piece;
  }

  /** After a '/' or a ':' a name free of both is what LastName finds. */
  lemma LastNameOf(prefix: string, repo: string)
    requires '/' !in repo && ':' !in repo
    requires prefix == "" || prefix[|prefix| - 1] == '/' || prefix[|prefix| - 1] == ':'
    ensures LastName(prefix + repo) == repo
  {
    var pre, piece := AtLastSlash(prefix);
    assert prefix + repo == pre + (piece + repo);
    assert '/' !in piece + repo;
    SplitLast(pre, piece + repo);
    if piece != "" {
      AfterLastColon(piece, repo);
    } else {
      AfterLastColon("", repo);
      assert piece + repo == repo;
    }
  }

  /** ".git" is only removed when it is there: a name not ending in it after '/' or ':' keeps its end. */
  lemma NoGitSuffix(prefix: string, repo: string)
    requires repo != "" && '/' !in repo && ':' !in repo && !HasSuffix(repo, ".git")
    requires prefix == "" || prefix[|prefix| - 1] == '/' || prefix[|prefix| - 1] == ':'
    ensures !HasSuffix(prefix + repo, ".git")
  {
    var url := prefix + repo;
    if |repo| >= 4 {
      assert url[|url| - 4..] == repo[|repo| - 4..];
    } else if prefix != "" {
      assert url[|url| - |repo| - 1] == prefix[|prefix| - 1];
    }
  }

  /**
   * Both forms of a git URL give the repository: https://host/owner/repo(.git) and
   * git@host:owner/repo(.git) as well as host:repo, with or without ".git".
   */
  lemma ExtractRepoNameOf(prefix: string, repo: string, git: bool)
    requires repo != "" && '/' !in repo && ':' !in repo
    requires prefix == "" || prefix[|prefix| - 1] == '/' || prefix[|prefix| - 1] == ':'
    requires !git ==> !HasSuffix(repo, ".git")
    ensures ExtractRepoName(prefix + repo + (if git then ".git" else "")) == repo
  {
    var url := prefix + repo + (if git then ".git" else "");
    if git {
      assert url[|url| - 4..] == ".git";
      assert url[..|url| - 4] == prefix + repo;
    } else {
      assert url == prefix + repo;
      NoGitSuffix(prefix, repo);
    }
    LastNameOf(prefix, repo);
  }

  // ------------------------------------------------------------ the cycling indices

  /** Go's remainder, which takes the sign of the dividend. */
  function GoRem(a: int, n: int): int
    requires n > 0
  {
    if a >= 0 then a % n else -((-a) % n)
  }

  /** moveRightDetail on the task row: one task further, modulo the number of tasks. */
  function TaskRight(i: int, n: nat): int
  {
    if n > 0 then GoRem(i + 1, n) else i
  }

  /** moveLeftDetail on the task row: one task back, from the first to the last. */
  function TaskLeft(i: int, n: nat): int
  {
    if n > 0 then (if i - 1 < 0 then n - 1 else i - 1) else i
  }

  /** moveRightDetail on the environment row: -1 (no file) and then each file in turn. */
  function EnvRight(e: int, m: nat): int
  {
    if e + 1 >= m then -1 else e + 1
  }

  /** moveLeftDetail on the environment row: back through the files, from -1 to the last. */
  function EnvLeft(e: int, m: nat): int
  {
    if e - 1 < -1 then m - 1 else e - 1
  }

  lemma ModBelow(a: int, n: int)
    requires 0 <= a < n
    ensures a % n == a
  {
  }

  lemma ModSelf(n: int)
    requires n > 0
    ensures n % n == 0
  {
  }

  /** On a valid task index right and left stay in range and undo each other; right wraps after the last. */
  lemma TaskCycle(i: int, n: nat)
    requires 0 <= i < n
    ensures TaskRight(i, n) == if i + 1 < n then i + 1 else 0
    ensures 0 <= TaskRight(i, n) < n && 0 <= TaskLeft(i, n) < n
    ensures TaskLeft(TaskRight(i, n), n) == i && TaskRight(TaskLeft(i, n), n) == i
    ensures TaskLeft(0, n) == n - 1
  {
    if i + 1 < n {
      ModBelow(i + 1, n);
    } else {
      ModSelf(n);
    }
    if i > 0 {
      ModBelow(i, n);
    } else {
      ModSelf(n);
    }
  }

  /** On a valid environment index (-1 for none) right and left stay in range and undo each other. */
  lemma EnvCycle(e: int, m: nat)
    requires -1 <= e < m
    ensures -1 <= EnvRight(e, m) < m && -1 <= EnvLeft(e, m) < m
    ensures EnvLeft(EnvRight(e, m), m) == e && EnvRight(EnvLeft(e, m), m) == e
    ensures EnvRight(m - 1, m) == -1 && EnvLeft(-1, m) == m - 1
  {
  }

  function TaskRightTimes(i: int, n: nat, k: nat): int
  {
    if k == 0 then i else TaskRight(TaskRightTimes(i, n, k - 1), n)
  }

  function EnvRightTimes(e: int, m: nat, k: nat): int
  {
    if k == 0 then e else EnvRight(EnvRightTimes(e, m, k - 1), m)
  }

  /** Up to n presses to the right advance the task by one each, wrapping once; n presses come back. */
  lemma {:induction false} TaskRightTimesWrap(i: int, n: nat, k: nat)
    requires 0 <= i < n && k <= n
    ensures TaskRightTimes(i, n, k) == if i + k < n then i + k else i + k - n
    ensures k == n ==> TaskRightTimes(i, n, k) == i
  {
    if k > 0 {
      TaskRightTimesWrap(i, n, k - 1);
      TaskCycle(TaskRightTimes(i, n, k - 1), n);
    }
  }

  /** Up to m + 1 presses to the right walk through -1 .. m - 1 in turn; m + 1 presses come back. */
  lemma {:induction false} EnvRightTimesWrap(e: int, m: nat, k: nat)
    requires -1 <= e < m && k <= m + 1
    ensures EnvRightTimes(e, m, k) == if e + k < m then e + k else e + k - m - 1
    ensures k == m + 1 ==> EnvRightTimes(e, m, k) == e
  {
    if k > 0 {
      EnvRightTimesWrap(e, m, k - 1);
    }
  }

  // ------------------------------------------------------------ the view

  /** The parts of a robot the navigation looks at. */
  datatype RobotData = RobotData(name: string, path: string, directory: string, tasks: seq<string>, envFiles: seq<string>)

  const FocusActions: int := 0
  const FocusRobotList: int := 1
  const FocusDetailTask: int := 0
  const FocusDetailEnv: int := 1
  const FocusDetailConfig: int := 2

  /** The list-mode navigation state. */
  datatype ListNav = ListNav(focus: int, actionIdx: int, robotIdx: int, taskIdx: int, envIdx: int)

  /** moveUpList. */
  function UpList(s: ListNav): ListNav
  {
    if s.focus == FocusActions then
      if s.actionIdx > 0 then s.(actionIdx := s.actionIdx - 1) else s
    else if s.focus == FocusRobotList then
      if s.robotIdx > 0 then s.(robotIdx := s.robotIdx - 1, taskIdx := 0, envIdx := -1)
      else s.(focus := FocusActions, actionIdx := 1)
    else s
  }

  /** moveDownList, with count robots in the list. */
  function DownList(s: ListNav, count: nat): ListNav
  {
    if s.focus == FocusActions then
      if s.actionIdx < 1 then s.(actionIdx := s.actionIdx + 1)
      else if count > 0 then s.(focus := FocusRobotList)
      else s
    else if s.focus == FocusRobotList then
      if s.robotIdx < count - 1 then s.(robotIdx := s.robotIdx + 1, taskIdx := 0, envIdx := -1) else s
    else s
  }

  /** One of the two actions is selected, and the robot index names a robot (or is 0 for an empty list). */
  predicate ListValid(s: ListNav, count: nat)
  {
    && (s.focus == FocusActions || s.focus == FocusRobotList)
    && 0 <= s.actionIdx <= 1
    && 0 <= s.robotIdx && (s.robotIdx < count || s.robotIdx == 0)
    && (s.focus == FocusRobotList ==> s.robotIdx < count)
  }

  /** Both moves keep the list state valid. */
  lemma ListMovesKeepValid(s: ListNav, count: nat)
    requires ListValid(s, count)
    ensures ListValid(UpList(s), count) && ListValid(DownList(s, count), count)
  {
  }

  /**
   * Up undoes down and down undoes up wherever the move went somewhere; inside the robot list
   * the task and environment choice start afresh.
   */
  lemma ListMovesUndo(s: ListNav, count: nat)
    requires ListValid(s, count)
    ensures s.focus == FocusActions && s.actionIdx == 0 ==> UpList(DownList(s, count)) == s
    ensures s.focus == FocusActions && s.actionIdx == 1 ==> DownList(UpList(s), count) == s
    ensures s.focus == FocusRobotList && s.robotIdx < count - 1 ==>
      UpList(DownList(s, count)) == s.(taskIdx := 0, envIdx := -1)
    ensures s.focus == FocusRobotList && s.robotIdx > 0 ==>
      DownList(UpList(s), count) == s.(taskIdx := 0, envIdx := -1)
    ensures s.focus == FocusRobotList && s.robotIdx == 0 ==> DownList(UpList(s), count) == s.(actionIdx := 1)
  {
  }

  /** The robots view's navigation fields. */
  class RobotsView {
    var robots: seq<RobotData>
    var actionIdx: int
    var robotIdx: int
    var focus: int
    var taskIdx: int
    var envIdx: int
    var detailFocus: int
    var configIdx: int

    function ListState(): ListNav
      reads this
    {
      ListNav(focus, actionIdx, robotIdx, taskIdx, envIdx)
    }

    /** NewRobotsView's starting selection: the first action, no robots yet. */
    constructor ()
      ensures robots == [] && ListState() == ListNav(FocusActions, 0, 0, 0, -1)
      ensures detailFocus == FocusDetailTask && configIdx == 0
      ensures ListValid(ListState(), |robots|)
    {
      robots := [];
      actionIdx := 0;
      robotIdx := 0;
      focus := FocusActions;
      taskIdx := 0;
      envIdx := -1;
      detailFocus := FocusDetailTask;
      configIdx := 0;
    }

    method ResetSelections()
      modifies this
      ensures ListState() == old(ListState()).(taskIdx := 0, envIdx := -1)
      ensures robots == old(robots) && detailFocus == old(detailFocus) && configIdx == old(configIdx)
    {
      taskIdx := 0;
      envIdx := -1;
    }

    method MoveUpList()
      modifies this
      ensures ListState() == UpList(old(ListState()))
      ensures robots == old(robots) && detailFocus == old(detailFocus) && configIdx == old(configIdx)
    {
      if focus == FocusActions {
        if actionIdx > 0 {
          actionIdx := actionIdx - 1;
        }
      } else if focus == FocusRobotList {
        if robotIdx > 0 {
          robotIdx := robotIdx - 1;
          ResetSelections();
        } else {
          focus := FocusActions;
          actionIdx := 1;
        }
      }
    }

    method MoveDownList()
      modifies this
      ensures ListState() == DownList(old(ListState()), |robots|)
      ensures robots == old(robots) && detailFocus == old(detailFocus) && configIdx == old(configIdx)
    {
      if focus == FocusActions {
        if actionIdx < 1 {
          actionIdx := actionIdx + 1;
        } else if |robots| > 0 {
          focus := FocusRobotList;
        }
      } else if focus == FocusRobotList {
        if robotIdx < |robots| - 1 {
          robotIdx := robotIdx + 1;
          ResetSelections();
        }
      }
    }

    /** moveLeftDetail: only with a selected robot, and only on the task or environment row. */
    method MoveLeftDetail()
      modifies this
      ensures robots == old(robots) && focus == old(focus) && actionIdx == old(actionIdx) && robotIdx == old(robotIdx)
      ensures detailFocus == old(detailFocus) && configIdx == old(configIdx)
      ensures taskIdx == if 0 <= robotIdx < |robots| && detailFocus == FocusDetailTask
                         then TaskLeft(old(taskIdx), |robots[robotIdx].tasks|) else old(taskIdx)
      ensures envIdx == if 0 <= robotIdx < |robots| && detailFocus == FocusDetailEnv
                        then EnvLeft(old(envIdx), |robots[robotIdx].envFiles|) else old(envIdx)
    {
      if !(0 <= robotIdx < |robots|) {
        return;
      }
      var r := robots[robotIdx];
      if detailFocus == FocusDetailTask {
        if |r.tasks| > 0 {
          taskIdx := taskIdx - 1;
          if taskIdx < 0 {
            taskIdx := |r.tasks| - 1;
          }
        }
      } else if detailFocus == FocusDetailEnv {
        envIdx := envIdx - 1;
        if envIdx < -1 {
          envIdx := |r.envFiles| - 1;
        }
      }
    }

    /** moveRightDetail: only with a selected robot, and only on the task or environment row. */
    method MoveRightDetail()
      modifies this
      ensures robots == old(robots) && focus == old(focus) && actionIdx == old(actionIdx) && robotIdx == old(robotIdx)
      ensures detailFocus == old(detailFocus) && configIdx == old(configIdx)
      ensures taskIdx == if 0 <= robotIdx < |robots| && detailFocus == FocusDetailTask
                         then TaskRight(old(taskIdx), |robots[robotIdx].tasks|) else old(taskIdx)
      ensures envIdx == if 0 <= robotIdx < |robots| && detailFocus == FocusDetailEnv
                        then EnvRight(old(envIdx), |robots[robotIdx].envFiles|) else old(envIdx)
    {
      if !(0 <= robotIdx < |robots|) {
        return;
      }
      var r := robots[robotIdx];
      if detailFocus == FocusDetailTask {
        if |r.tasks| > 0 {
          taskIdx := GoRem(taskIdx + 1, |r.tasks|);
        }
      } else if detailFocus == FocusDetailEnv {
        envIdx := envIdx + 1;
        if envIdx >= |r.envFiles| {
          envIdx := -1;
        }
      }
    }
  }
}
