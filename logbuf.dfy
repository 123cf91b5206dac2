/**
 * The capped log buffer: entries are appended with a trimmed message and only the newest
 * `maxSize` entries are kept; plain lines get a level and a source guessed from their text.
 * Entry times are given by the caller.
 */
module LogBuf {
  import opened Text

  datatype LogLevel = Trace | Debug | Info | Warn | Error

  datatype LogEntry = LogEntry(time: int, level: LogLevel, source: string, message: string)

  datatype LogStats = LogStats(total: nat, errors: nat, warns: nat, infos: nat, debugs: nat, traces: nat)

  const MinSize: int := 10

  /** The newest n entries of s (all of them when there are at most n). */
  function LastN<T>(s: seq<T>, n: nat): (r: seq<T>)
    ensures |r| == if |s| <= n then |s| else n
    ensures r == s[|s| - |r|..]
  {
    if |s| > n then s[|s| - n..] else s
  }

  /** The level AddLine guesses from the lower-cased line, the first matching rule winning. */
  function DetectLevel(lower: string): (l: LogLevel)
    ensures l == Error <==> Contains(lower, "error") || Contains(lower, "failed")
    ensures l == Warn <==> !(Contains(lower, "error") || Contains(lower, "failed")) && Contains(lower, "warn")
    ensures l == Debug <==> !(Contains(lower, "error") || Contains(lower, "failed") || Contains(lower, "warn"))
                            && Contains(lower, "debug")
    ensures l == Trace <==> !(Contains(lower, "error") || Contains(lower, "failed") || Contains(lower, "warn")
                              || Contains(lower, "debug")) && Contains(lower, "trace")
  {
    if Contains(lower, "error") || Contains(lower, "failed") then Error
    else if Contains(lower, "warning") || Contains(lower, "warn") then
      assert Contains(lower, "warning") ==> Contains(lower, "warn") by { WarningContainsWarn(lower); }
      Warn
    else if Contains(lower, "debug") then Debug
    else if Contains(lower, "trace") then Trace
    else Info
  }

  /** A line mentioning "warning" mentions "warn", so the first test of the warning rule adds nothing. */
  lemma WarningContainsWarn(s: string)
    ensures Contains(s, "warning") ==> Contains(s, "warn")
  {
    if Contains(s, "warning") {
      var i :| 0 <= i <= |s| && HasPrefix(s[i..], "warning");
      assert s[i..][..4] == "warn";
      assert HasPrefix(s[i..], "warn");
    }
  }

  /** The source AddLine guesses from a trimmed line, and the line with that source's prefix removed. */
  function DetectSource(line: string): (r: (string, string))
    ensures r.0 in {"pip", "conda", "mamba", ""}
    ensures r.0 == "pip" <==> HasPrefix(line, "pip:") || Contains(ToLower(line), "pip install")
    ensures r.0 == "conda" <==> !(HasPrefix(line, "pip:") || Contains(ToLower(line), "pip install"))
                                && (HasPrefix(line, "conda:") || Contains(ToLower(line), "conda"))
    ensures r.0 == "mamba" <==> !(HasPrefix(line, "pip:") || Contains(ToLower(line), "pip install"))
                                && !(HasPrefix(line, "conda:") || Contains(ToLower(line), "conda"))
                                && (HasPrefix(line, "micromamba:") || Contains(ToLower(line), "micromamba"))
    ensures r.0 == "" ==> r.1 == line
    ensures r.0 == "pip" ==> r.1 == TrimPrefix(line, "pip:")
    ensures r.0 == "conda" ==> r.1 == TrimPrefix(line, "conda:")
    ensures r.0 == "mamba" ==> r.1 == TrimPrefix(line, "micromamba:")
  {
    var lower := ToLower(line);
    if HasPrefix(line, "pip:") || Contains(lower, "pip install") then ("pip", TrimPrefix(line, "pip:"))
    else if HasPrefix(line, "conda:") || Contains(lower, "conda") then ("conda", TrimPrefix(line, "conda:"))
    else if HasPrefix(line, "micromamba:") || Contains(lower, "micromamba") then ("mamba", TrimPrefix(line, "micromamba:"))
    else ("", line)
  }

  function CountLevel(entries: seq<LogEntry>, l: LogLevel): nat
  {
    if entries == [] then 0
    else CountLevel(entries[..|entries| - 1], l) + (if entries[|entries| - 1].level == l then 1 else 0)
  }

  /** Each entry has one level, so the per-level counts add up to the number of entries. */
  lemma {:induction false} LevelCountsSum(entries: seq<LogEntry>)
    ensures CountLevel(entries, Error) + CountLevel(entries, Warn) + CountLevel(entries, Info)
          + CountLevel(entries, Debug) + CountLevel(entries, Trace) == |entries|
  {
    if entries != [] { LevelCountsSum(entries[..|entries| - 1]); }
  }

  class LogBuffer {
    var entries: seq<LogEntry>
    var maxSize: nat

    ghost predicate Valid()
      reads this
    {
      maxSize >= MinSize && |entries| <= maxSize
    }

    /** NewLogBuffer: an empty buffer holding at least ten entries. */
    constructor (size: int)
      ensures maxSize as int == if size < MinSize then MinSize else size
      ensures entries == []
      ensures Valid()
    {
      maxSize := if size < MinSize then MinSize else size;
      entries := [];
    }

    /** Add: append the entry with its message trimmed, then keep the newest maxSize entries. */
    method Add(level: LogLevel, source: string, message: string, now: int)
      requires Valid()
      modifies this
      ensures entries == LastN(old(entries) + [LogEntry(now, level, source, TrimSpace(message))], maxSize)
      ensures maxSize == old(maxSize)
      ensures Valid()
      ensures entries[|entries| - 1] == LogEntry(now, level, source, TrimSpace(message))
    {
      var entry := LogEntry(now, level, source, TrimSpace(message));
      var appended := entries + [entry];
      if |appended| > maxSize {
        entries := appended[|appended| - maxSize..];
      } else {
        entries := appended;
      }
      assert entries == LastN(appended, maxSize);
    }

    /** AddLine: ignore a blank line; otherwise add it at the guessed level and source. */
    method AddLine(text: string, now: int)
      requires Valid()
      modifies this
      ensures Valid()
      ensures TrimSpace(text) == "" ==> entries == old(entries)
      ensures TrimSpace(text) != "" ==>
        var line := TrimSpace(text);
        var (source, rest) := DetectSource(line);
        entries == LastN(old(entries) + [LogEntry(now, DetectLevel(ToLower(line)), source, TrimSpace(rest))], maxSize)
      ensures maxSize == old(maxSize)
    {
      var line := TrimSpace(text);
      if line == "" {
        return;
      }
      var level := Info;
      var source := "";
      var lower := ToLower(line);
      if Contains(lower, "error") || Contains(lower, "failed") {
        level := Error;
      } else if Contains(lower, "warning") || Contains(lower, "warn") {
        level := Warn;
      } else if Contains(lower, "debug") {
        level := Debug;
      } else if Contains(lower, "trace") {
        level := Trace;
      }
      ghost var original := line;
      if HasPrefix(line, "pip:") || Contains(lower, "pip install") {
        source := "pip";
        line := TrimPrefix(line, "pip:");
      } else if HasPrefix(line, "conda:") || Contains(lower, "conda") {
        source := "conda";
        line := TrimPrefix(line, "conda:");
      } else if HasPrefix(line, "micromamba:") || Contains(lower, "micromamba") {
        source := "mamba";
        line := TrimPrefix(line, "micromamba:");
      }
      assert (source, line) == DetectSource(original);
      TrimSpaceIdempotent(line);
      Add(level, source, TrimSpace(line), now);
    }

    /** Recent: the newest min(n, Len) entries in order; none when n <= 0 or the buffer is empty. */
    method Recent(n: int) returns (r: seq<LogEntry>)
      ensures n <= 0 || |entries| == 0 ==> r == []
      ensures n > 0 ==> |r| == (if n < |entries| then n else |entries|)
      ensures r == entries[|entries| - |r|..]
    {
      if n <= 0 || |entries| == 0 {
        return [];
      }
      var k := n;
      if k > |entries| {
        k := |entries|;
      }
      r := entries[|entries| - k..];
    }

    /** All: every entry, oldest first. */
    method All() returns (r: seq<LogEntry>)
      ensures r == entries
    {
      r := entries;
    }

    /** Len: the number of entries. */
    method Len() returns (n: nat)
      ensures n == |entries|
      ensures Valid() ==> n <= maxSize
    {
      n := |entries|;
    }

    /** Clear: no entries; the capacity stays. */
    method Clear()
      modifies this
      ensures entries == [] && maxSize == old(maxSize)
      ensures old(Valid()) ==> Valid()
    {
      entries := entries[..0];
    }

    /** Stats: the number of entries at each level. */
    method Stats() returns (stats: LogStats)
      ensures stats.total == |entries|
      ensures stats.errors == CountLevel(entries, Error) && stats.warns == CountLevel(entries, Warn)
      ensures stats.infos == CountLevel(entries, Info) && stats.debugs == CountLevel(entries, Debug)
      ensures stats.traces == CountLevel(entries, Trace)
      ensures stats.errors + stats.warns + stats.infos + stats.debugs + stats.traces == stats.total
    {
      var errors, warns, infos, debugs, traces := 0, 0, 0, 0, 0;
      var i := 0;
      while i < |entries|
        invariant 0 <= i <= |entries|
        invariant errors == CountLevel(entries[..i], Error) && warns == CountLevel(entries[..i], Warn)
        invariant infos == CountLevel(entries[..i], Info) && debugs == CountLevel(entries[..i], Debug)
        invariant traces == CountLevel(entries[..i], Trace)
      {
        assert entries[..i + 1][..i] == entries[..i];
        match entries[i].level {
          case Error => errors := errors + 1;
          case Warn => warns := warns + 1;
          case Info => infos := infos + 1;
          case Debug => debugs := debugs + 1;
          case Trace => traces := traces + 1;
        }
        i := i + 1;
      }
      assert entries[..i] == entries;
      LevelCountsSum(entries);
      stats := LogStats(|entries|, errors, warns, infos, debugs, traces);
    }
  }

  /** A buffer that is full stays full: adding drops exactly the oldest entry. */
  lemma FullBufferDropsOldest(entries: seq<LogEntry>, maxSize: nat, e: LogEntry)
    requires maxSize >= 1 && |entries| == maxSize
    ensures LastN(entries + [e], maxSize) == entries[1..] + [e]
  {
  }
}
