/**
 * The run history: newest run first, at most fifty runs kept, each new run numbered one above
 * the largest number in use, and a finished run updated in place by its number. Times are
 * integer nanoseconds given by the caller; None stands for an end time not yet set.
 */
module History {
  import opened Wrappers
  import opened Text

  const MaxHistoryEntries: nat := 50

  /** One second in nanoseconds. */
  const Second: nat := 1_000_000_000

  datatype RunHistoryEntry = RunHistoryEntry(
    id: int, robotPath: string, robotName: string, task: string,
    startTime: int, endTime: Option<int>, duration: string, status: string,
    exitCode: int, controller: string)

  /** The largest ID in use, or 0 when there is none above 0. */
  function MaxId(entries: seq<RunHistoryEntry>): (m: int)
    ensures m >= 0
    ensures forall i :: 0 <= i < |entries| ==> entries[i].id <= m
    ensures m == 0 || exists i :: 0 <= i < |entries| && entries[i].id == m
  {
    if entries == [] then 0
    else
      var rest := MaxId(entries[..|entries| - 1]);
      var last := entries[|entries| - 1].id;
      if last > rest then last else rest
  }

  ghost predicate UniqueIds(entries: seq<RunHistoryEntry>)
  {
    forall i, j :: 0 <= i < j < |entries| ==> entries[i].id != entries[j].id
  }

  /** The first n elements, or all of them when there are fewer. */
  function Take<T>(s: seq<T>, n: nat): (r: seq<T>)
    ensures |r| == if |s| <= n then |s| else n
    ensures r == s[..|r|]
  {
    if |s| > n then s[..n] else s
  }

  /** Index of the first entry with this ID, or -1. */
  function FindId(entries: seq<RunHistoryEntry>, id: int): (i: int)
    ensures -1 <= i < |entries|
    ensures i >= 0 ==> entries[i].id == id && forall j :: 0 <= j < i ==> entries[j].id != id
    ensures i < 0 ==> forall j :: 0 <= j < |entries| ==> entries[j].id != id
  {
    if entries == [] then -1
    else if entries[0].id == id then 0
    else
      var k := FindId(entries[1..], id);
      if k < 0 then -1 else k + 1
  }

  /**
   * Duration.Round(time.Second), counted in seconds: the nearest whole number of seconds, halves
   * rounded away from zero.
   */
  function RoundedSeconds(d: int): (k: int)
    ensures 2 * (k * Second - d) <= Second && 2 * (d - k * Second) <= Second
    ensures 2 * (k * Second - d) == Second || 2 * (d - k * Second) == Second ==>
      if d >= 0 then k * Second > d else k * Second < d
    ensures d >= 0 ==> k >= 0
    ensures d <= 0 ==> k <= 0
  {
    var a := if d < 0 then -d else d;
    var q, rem := a / Second, a % Second;
    var m := if 2 * rem < Second then q else q + 1;
    if d < 0 then -m else m
  }

  /** A duration that already is a whole number of seconds is not moved by rounding. */
  lemma RoundedSecondsExact(n: int)
    ensures RoundedSeconds(n * Second) == n
  {
    var a := if n < 0 then -n else n;
    assert (if n * Second < 0 then -(n * Second) else n * Second) == a * Second;
    assert (a * Second) / Second == a && (a * Second) % Second == 0;
  }

  /** The unsigned part of a duration string: hours when there are any, minutes from one minute up, always seconds. */
  function UnsignedDuration(a: nat): (r: string)
    ensures r != "" && r[|r| - 1] == 's'
  {
    (if a / 3600 > 0 then NatToString(a / 3600) + "h" else "")
    + (if a >= 60 then NatToString((a / 60) % 60) + "m" else "")
    + NatToString(a % 60) + "s"
  }

  /** Duration.String of a whole number of seconds: "0s", "45s", "2m3s", "1h0m5s", with a leading "-" when negative. */
  function DurationString(secs: int): (r: string)
    ensures r != "" && r[|r| - 1] == 's'
  {
    if secs == 0 then "0s"
    else
      var a := if secs < 0 then -secs else secs;
      (if secs < 0 then "-" else "") + UnsignedDuration(a)
  }

  /** The fields of a duration string: its sign and its hours, minutes and seconds. */
  datatype DurationParts = DurationParts(negative: bool, hours: nat, minutes: nat, seconds: nat)

  /** An amount and a unit letter at the front of s, with what follows; an amount of 0 when the unit is absent. */
  function ReadUnit(s: string, unit: char): Option<(nat, string)>
  {
    var k := IndexOf(s, unit);
    if k < 0 then Some((0, s))
    else
      match ReadAmount(s[..k])
      case Some(n) => Some((n, s[k + 1..]))
      case None => None
  }

  /** Reading "<h>h<m>m<s>s" with the hours and the minutes optional. */
  function ReadClock(t: string): Option<(nat, nat, nat)>
  {
    if t == "" || t[|t| - 1] != 's' then None
    else
      match ReadUnit(t[..|t| - 1], 'h')
      case None => None
      case Some((h, rest)) =>
        match ReadUnit(rest, 'm')
        case None => None
        case Some((m, secs)) =>
          match ReadAmount(secs)
          case None => None
          case Some(s) => Some((h, m, s))
  }

  /** Reading a duration string back into its fields: an optional "-", then the clock. */
  function ReadDuration(r: string): Option<DurationParts>
  {
    var negative := r != "" && r[0] == '-';
    match ReadClock(if negative then r[1..] else r)
    case None => None
    case Some((h, m, s)) => Some(DurationParts(negative, h, m, s))
  }

  /** The number of seconds the fields stand for. */
  function PartsValue(p: DurationParts): int
  {
    var a := 3600 * p.hours + 60 * p.minutes + p.seconds;
    if p.negative then -a else a
  }

  /** The number of seconds a duration string stands for. */
  function DurationValue(r: string): Option<int>
  {
    match ReadDuration(r)
    case None => None
    case Some(p) => Some(PartsValue(p))
  }

  /** A rendered number followed by its unit letter reads back as that number, and the rest follows. */
  lemma ReadUnitOf(n: nat, unit: char, rest: string)
    requires !IsDigit(unit)
    ensures ReadUnit(NatToString(n) + [unit] + rest, unit) == Some((n, rest))
  {
    var x := NatToString(n);
    var s := x + [unit] + rest;
    assert unit !in x;
    IndexOfAt(s, unit, |x|);
    assert s[..|x|] == x && s[|x| + 1..] == rest;
    NatToStringRoundTrip(n);
  }

  /** The minutes and seconds of a clock read back, with no minutes below one minute. */
  lemma ReadMinutesAndSeconds(a: nat)
    ensures ReadUnit((if a >= 60 then NatToString((a / 60) % 60) + "m" else "") + NatToString(a % 60), 'm')
         == Some(((a / 60) % 60, NatToString(a % 60)))
    ensures 'h' !in (if a >= 60 then NatToString((a / 60) % 60) + "m" else "") + NatToString(a % 60)
  {
    var m, secs := NatToString((a / 60) % 60), NatToString(a % 60);
    assert 'h' !in m && 'h' !in secs && 'm' !in secs;
    if a >= 60 {
      ReadUnitOf((a / 60) % 60, 'm', secs);
      assert m + "m" + secs == m + ['m'] + secs;
      assert forall i :: 0 <= i < |m + "m" + secs| ==> (m + "m" + secs)[i] in m || (m + "m" + secs)[i] == 'm' || (m + "m" + secs)[i] in secs;
    } else {
      assert "" + secs == secs;
    }
  }

  /** The clock of a whole number of seconds reads back as its hours, minutes and seconds. */
  lemma ReadUnsignedDuration(a: nat)
    ensures ReadClock(UnsignedDuration(a)) == Some((a / 3600, (a / 60) % 60, a % 60))
    ensures UnsignedDuration(a)[0] != '-'
  {
    var hs := if a / 3600 > 0 then NatToString(a / 3600) + "h" else "";
    var ms := (if a >= 60 then NatToString((a / 60) % 60) + "m" else "") + NatToString(a % 60);
    assert UnsignedDuration(a) == hs + ms + "s";
    ReadMinutesAndSeconds(a);
    NatToStringRoundTrip(a % 60);
    ReadClockOf(hs + ms + "s", hs, ms, a / 3600, (a / 60) % 60, a % 60);
    FirstIsDigit(a, hs, ms);
  }

  /** A clock whose hours and the rest split as given reads back as those fields. */
  lemma ReadClockOf(t: string, hs: string, ms: string, h: nat, m: nat, sec: nat)
    requires t == hs + ms + "s"
    requires hs == if h > 0 then NatToString(h) + "h" else ""
    requires 'h' !in ms
    requires ReadUnit(ms, 'm') == Some((m, NatToString(sec)))
    requires DigitsValue(NatToString(sec)) == sec
    ensures ReadClock(t) == Some((h, m, sec))
  {
    assert t[..|t| - 1] == hs + ms;
    if h > 0 {
      ReadUnitOf(h, 'h', ms);
      assert hs + ms == NatToString(h) + ['h'] + ms;
    } else {
      assert hs + ms == ms;
    }
  }

  /** The clock starts with a digit: of the hours, the minutes or the seconds. */
  lemma FirstIsDigit(a: nat, hs: string, ms: string)
    requires hs == if a / 3600 > 0 then NatToString(a / 3600) + "h" else ""
    requires ms == (if a >= 60 then NatToString((a / 60) % 60) + "m" else "") + NatToString(a % 60)
    ensures IsDigit((hs + ms + "s")[0])
  {
    if a / 3600 > 0 {
      assert (hs + ms + "s")[0] == NatToString(a / 3600)[0];
    } else if a >= 60 {
      assert (hs + ms + "s")[0] == NatToString((a / 60) % 60)[0];
    } else {
      assert (hs + ms + "s")[0] == NatToString(a % 60)[0];
    }
  }

  /** Hours, minutes below the hour and seconds below the minute add back up to the whole. */
  lemma ClockUnits(a: nat)
    ensures 3600 * (a / 3600) + 60 * ((a / 60) % 60) + a % 60 == a
  {
    var m := a / 60;
    assert a == 60 * m + a % 60;
    assert m == 60 * (m / 60) + m % 60;
    assert m / 60 == a / 3600;
  }

  /** A clock with a "-" in front reads back as the same clock, negative. */
  lemma ReadSigned(u: string, negative: bool, h: nat, m: nat, sec: nat)
    requires u != "" && u[0] != '-'
    requires ReadClock(u) == Some((h, m, sec))
    ensures ReadDuration((if negative then "-" else "") + u) == Some(DurationParts(negative, h, m, sec))
  {
    var r := (if negative then "-" else "") + u;
    if negative {
      assert r[0] == '-' && r[1..] == u;
    } else {
      assert r == u;
    }
  }

  /** A duration string is its sign followed by the clock of its magnitude; zero is "0s", the clock of 0. */
  lemma DurationStringSigned(n: int, a: nat)
    requires a == if n < 0 then -n else n
    ensures DurationString(n) == (if n < 0 then "-" else "") + UnsignedDuration(a)
  {
    if n == 0 {
      assert UnsignedDuration(0) == NatToString(0) + "s";
    }
  }

  /**
   * Reading a rendered duration back gives the number of seconds it was made from, with the sign
   * it had, and minutes and seconds below 60.
   */
  lemma DurationRoundTrip(n: int)
    ensures ReadDuration(DurationString(n)).Some?
    ensures ReadDuration(DurationString(n)).value.negative <==> n < 0
    ensures ReadDuration(DurationString(n)).value.minutes < 60
    ensures ReadDuration(DurationString(n)).value.seconds < 60
    ensures DurationValue(DurationString(n)) == Some(n)
  {
    var a := if n < 0 then -n else n;
    RoundTripOf(n, a, a / 3600, (a / 60) % 60, a % 60);
  }

  lemma RoundTripOf(n: int, a: nat, h: nat, m: nat, sec: nat)
    requires a == if n < 0 then -n else n
    requires h == a / 3600 && m == (a / 60) % 60 && sec == a % 60
    ensures m < 60 && sec < 60
    ensures ReadDuration(DurationString(n)) == Some(DurationParts(n < 0, h, m, sec))
    ensures DurationValue(DurationString(n)) == Some(n)
  {
    ReadUnsignedDuration(a);
    DurationStringSigned(n, a);
    ReadSigned(UnsignedDuration(a), n < 0, h, m, sec);
    PartsValueOf(n, a, h, m, sec);
  }

  /** The fields of the magnitude, with the sign of n, stand for n. */
  lemma PartsValueOf(n: int, a: nat, h: nat, m: nat, sec: nat)
    requires a == if n < 0 then -n else n
    requires h == a / 3600 && m == (a / 60) % 60 && sec == a % 60
    ensures m < 60 && sec < 60
    ensures PartsValue(DurationParts(n < 0, h, m, sec)) == n
  {
    ClockUnits(a);
  }

  lemma DurationStringExamples()
    ensures DurationString(0) == "0s"
    ensures DurationString(45) == "45s"
    ensures DurationString(123) == "2m3s"
    ensures DurationString(3605) == "1h0m5s"
    ensures DurationString(-5) == "-5s"
  {
    SecondsExample();
    MinutesExample();
    HoursExample();
    NegativeExample();
  }

  lemma SecondsExample()
    ensures DurationString(45) == "45s"
  {
    assert DurationString(45) == NatToString(45) + "s";
    assert NatToString(45) == NatToString(4) + "5";
  }

  lemma MinutesExample()
    ensures DurationString(123) == "2m3s"
  {
    assert DurationString(123) == NatToString(2) + "m" + NatToString(3) + "s";
  }

  lemma HoursExample()
    ensures DurationString(3605) == "1h0m5s"
  {
    assert DurationString(3605) == NatToString(1) + "h" + NatToString(0) + "m" + NatToString(5) + "s";
  }

  lemma NegativeExample()
    ensures DurationString(-5) == "-5s"
  {
    assert DurationString(-5) == "-" + NatToString(5) + "s";
  }

  /** The entry UpdateEntry writes for a run that ended at `endTime`. */
  function Finished(e: RunHistoryEntry, endTime: int, status: string, exitCode: int): RunHistoryEntry
  {
    e.(endTime := Some(endTime), status := status, exitCode := exitCode,
       duration := DurationString(RoundedSeconds(endTime - e.startTime)))
  }

  /** Replacing a run by one with the same ID keeps the IDs distinct. */
  lemma SameIdKeepsIdsUnique(entries: seq<RunHistoryEntry>, i: nat, e: RunHistoryEntry)
    requires i < |entries| && e.id == entries[i].id
    ensures UniqueIds(entries) ==> UniqueIds(entries[i := e])
  {
  }

  /** Putting a run numbered above every ID in front, then truncating, keeps the IDs distinct. */
  lemma NumberedPrependKeepsIdsUnique(before: seq<RunHistoryEntry>, numbered: RunHistoryEntry)
    requires forall i :: 0 <= i < |before| ==> before[i].id < numbered.id
    requires UniqueIds(before)
    ensures UniqueIds(Take([numbered] + before, MaxHistoryEntries))
  {
    var all := [numbered] + before;
    assert UniqueIds(all) by {
      forall a, b | 0 <= a < b < |all| ensures all[a].id != all[b].id {
        assert all[b] == before[b - 1];
        if a > 0 { assert all[a] == before[a - 1]; }
      }
    }
  }

  /** The loop of AddEntry that finds the largest ID in use. */
  method LargestId(entries: seq<RunHistoryEntry>) returns (maxID: int)
    ensures maxID == MaxId(entries)
  {
    maxID := 0;
    var i := 0;
    while i < |entries|
      invariant 0 <= i <= |entries|
      invariant maxID == MaxId(entries[..i])
    {
      assert entries[..i + 1][..i] == entries[..i];
      if entries[i].id > maxID {
        maxID := entries[i].id;
      }
      i := i + 1;
    }
    assert entries[..i] == entries;
  }

  class RunHistory {
    var entries: seq<RunHistoryEntry>

    /** At most fifty runs, each with its own ID. */
    ghost predicate Valid()
      reads this
    {
      |entries| <= MaxHistoryEntries && UniqueIds(entries)
    }

    /** An empty history (the file is not loaded here). */
    constructor ()
      ensures entries == []
      ensures Valid()
    {
      entries := [];
    }

    /** AddEntry: number the run one above the largest ID, put it first, keep the newest fifty. */
    method AddEntry(entry: RunHistoryEntry)
      modifies this
      ensures entries == Take([entry.(id := MaxId(old(entries)) + 1)] + old(entries), MaxHistoryEntries)
      ensures entries[0].id > 0 && forall i :: 0 <= i < |old(entries)| ==> old(entries)[i].id < entries[0].id
      ensures old(UniqueIds(entries)) ==> Valid()
    {
      var maxID := LargestId(entries);
      ghost var before := entries;
      var numbered := entry.(id := maxID + 1);
      entries := [numbered] + entries;
      if |entries| > MaxHistoryEntries {
        entries := entries[..MaxHistoryEntries];
      }
      if UniqueIds(before) {
        NumberedPrependKeepsIdsUnique(before, numbered);
      }
    }

    /** UpdateEntry: finish the first run with this ID; nothing happens when no run has it. */
    method UpdateEntry(id: int, endTime: int, status: string, exitCode: int)
      modifies this
      ensures FindId(old(entries), id) < 0 ==> entries == old(entries)
      ensures FindId(old(entries), id) >= 0 ==>
        var i := FindId(old(entries), id);
        entries == old(entries)[i := Finished(old(entries)[i], endTime, status, exitCode)]
      ensures old(Valid()) ==> Valid()
    {
      var i := 0;
      while i < |entries|
        invariant 0 <= i <= |entries| && entries == old(entries)
        invariant forall j :: 0 <= j < i ==> entries[j].id != id
      {
        if entries[i].id == id {
          var e := entries[i];
          var rounded := RoundedSeconds(endTime - e.startTime);
          var finished := e.(endTime := Some(endTime), status := status, exitCode := exitCode,
                             duration := DurationString(rounded));
          assert finished == Finished(e, endTime, status, exitCode);
          SameIdKeepsIdsUnique(entries, i, finished);
          assert FindId(old(entries), id) == i && old(entries)[i] == e;
          entries := entries[i := finished];
          return;
        }
        i := i + 1;
      }
    }

    /** GetLatest: the newest min(n, Len) runs, newest first. */
    method GetLatest(n: int) returns (r: seq<RunHistoryEntry>)
      requires n >= 0
      ensures r == Take(entries, n)
      ensures |r| == if n < |entries| then n else |entries|
    {
      var k := n;
      if k > |entries| {
        k := |entries|;
      }
      r := entries[..k];
    }

    /** GetLastRun: the newest run, or nothing when the history is empty. */
    method GetLastRun() returns (r: Option<RunHistoryEntry>)
      ensures entries == [] <==> r == None
      ensures entries != [] ==> r == Some(entries[0])
    {
      if |entries| == 0 {
        return None;
      }
      r := Some(entries[0]);
    }

    /** Clear: no runs. */
    method Clear()
      modifies this
      ensures entries == []
      ensures Valid()
    {
      entries := [];
    }
  }

  /** A run numbered by AddEntry can be found again by its ID while it is kept. */
  lemma AddedRunIsFound(old_entries: seq<RunHistoryEntry>, entry: RunHistoryEntry)
    ensures var added := Take([entry.(id := MaxId(old_entries) + 1)] + old_entries, MaxHistoryEntries);
      FindId(added, MaxId(old_entries) + 1) == 0
  {
  }
}
