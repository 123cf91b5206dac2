/**
 * Helpers of the conda environment set-up (conda/robocorp.go): reading a version number out of a
 * tool's output, filtering and extending environment variable lists, and the directories that
 * the environment digest skips.
 */
module CondaRobocorp {
  import opened Wrappers
  import opened Text
  import GoPath

  const Uint64Modulus: nat := 0x1_0000_0000_0000_0000

  /** Index of the first decimal digit, or -1. */
  function FirstDigit(s: string): (i: int)
    ensures -1 <= i < |s|
    ensures i >= 0 ==> IsDigit(s[i]) && forall j :: 0 <= j < i ==> !IsDigit(s[j])
    ensures i < 0 ==> forall j :: 0 <= j < |s| ==> !IsDigit(s[j])
  {
    if s == [] then -1
    else if IsDigit(s[0]) then 0
    else
      var k := FirstDigit(s[1..]);
      if k < 0 then -1 else k + 1
  }

  predicate IsVersionChar(c: char) { IsDigit(c) || c == '.' }

  /** The longest prefix made of digits and dots. */
  function VersionRun(s: string): (t: string)
    ensures |t| <= |s| && t == s[..|t|]
    ensures forall j :: 0 <= j < |t| ==> IsVersionChar(t[j])
    ensures |t| == |s| || !IsVersionChar(s[|t|])
  {
    if s != [] && IsVersionChar(s[0]) then [s[0]] + VersionRun(s[1..]) else ""
  }

  /**
   * The group `([0-9.]+)` of `^[^0-9]*([0-9.]+).*$` under leftmost-first matching: when the line
   * has a digit, `[^0-9]*` stops right before the first one and the group takes the run of digits
   * and dots from there; without a digit the only way to match is for the group to be a single
   * '.', so any dot gives ".".
   */
  function VersionCapture(line: string): (r: Option<string>)
    ensures r.Some? ==> r.value != "" && forall j :: 0 <= j < |r.value| ==> IsVersionChar(r.value[j])
  {
    var p := FirstDigit(line);
    if p >= 0 then Some(VersionRun(line[p..]))
    else if '.' in line then Some(".")
    else None
  }

  /** The group of the first line that matches, or "0". */
  function FirstVersionText(lines: seq<string>): string
  {
    if lines == [] then "0"
    else match VersionCapture(lines[0])
      case Some(t) => t
      case None => FirstVersionText(lines[1..])
  }

  /** strconv.ParseUint(s, 10, 64): decimal digits only, no sign, below 2^64. */
  function ParseUint(s: string): (r: Option<nat>)
    ensures r.Some? ==> r.value < Uint64Modulus
  {
    if s != "" && AllDigits(s) && DigitsValue(s) < Uint64Modulus then Some(DigitsValue(s)) else None
  }

  /** The value times the multiplier of its place: 1000000, 1000 and 1. */
  function Scaled(at: nat, value: nat): nat
    requires at < 3
  {
    if at == 0 then 1000000 * value else if at == 1 then 1000 * value else value
  }

  /** The multiplier loop from step `at` on: add the parts' values until one is missing or not a number. */
  function Accumulate(parts: seq<string>, at: nat, version: nat): nat
    decreases 3 - at
  {
    if at >= 3 || |parts| <= at then version
    else match ParseUint(parts[at])
      case None => version
      case Some(v) => Accumulate(parts, at + 1, (version + Scaled(at, v)) % Uint64Modulus)
  }

  /** What AsVersion returns: the packed number and the version text it read. */
  function Version(incoming: string): (nat, string)
  {
    var text := FirstVersionText(Split(TrimSpace(incoming), '\n'));
    (Accumulate(SplitN(text, '.', 4), 0, 0), text)
  }

  /** AsVersion: find the first line with a version, then pack major.minor.patch as major*10^6 + minor*10^3 + patch in a uint64. */
  method AsVersion(incoming: string) returns (version: nat, versionText: string)
    ensures (version, versionText) == Version(incoming)
  {
    var lines := Split(TrimSpace(incoming), '\n');
    versionText := FindVersionText(lines);
    version := PackVersion(SplitN(versionText, '.', 4));
  }

  /** The line loop of AsVersion: the first line's group, or "0". */
  method FindVersionText(lines: seq<string>) returns (versionText: string)
    ensures versionText == FirstVersionText(lines)
  {
    versionText := "0";
    var i := 0;
    while i < |lines|
      invariant 0 <= i <= |lines|
      invariant FirstVersionText(lines) == FirstVersionText(lines[i..])
    {
      assert lines[i..][1..] == lines[i + 1..];
      var found := VersionCapture(lines[i]);
      if found.Some? {
        versionText := found.value;
        return;
      }
      i := i + 1;
    }
  }

  /** The multiplier loop of AsVersion. */
  method PackVersion(parts: seq<string>) returns (version: nat)
    ensures version == Accumulate(parts, 0, 0)
  {
    var steps := |parts|;
    version := 0;
    var at := 0;
    while at < 3
      invariant 0 <= at <= 3
      invariant Accumulate(parts, at, version) == Accumulate(parts, 0, 0)
      decreases 3 - at
    {
      if steps <= at {
        break;
      }
      var value := ParseUint(parts[at]);
      if value.None? {
        break;
      }
      version := (version + Scaled(at, value.value)) % Uint64Modulus;
      at := at + 1;
    }
  }

  /** With no line holding a digit or a dot, the text is "0" and the number 0. */
  lemma {:induction false} NoVersionFound(incoming: string)
    requires forall k :: 0 <= k < |Split(TrimSpace(incoming), '\n')| ==> VersionCapture(Split(TrimSpace(incoming), '\n')[k]).None?
    ensures Version(incoming) == (0, "0")
  {
    var lines := Split(TrimSpace(incoming), '\n');
    NoCaptureGivesZero(lines);
    assert SplitN("0", '.', 4) == ["0"];
    assert ParseUint("0") == Some(0);
  }

  lemma {:induction false} NoCaptureGivesZero(lines: seq<string>)
    requires forall k :: 0 <= k < |lines| ==> VersionCapture(lines[k]).None?
    ensures FirstVersionText(lines) == "0"
  {
    if lines != [] {
      NoCaptureGivesZero(lines[1..]);
    }
  }

  /** Three numeric parts pack as major*10^6 + minor*10^3 + patch while that fits in a uint64. */
  lemma ThreePartsPack(parts: seq<string>, major: nat, minor: nat, patch: nat)
    requires |parts| >= 3
    requires ParseUint(parts[0]) == Some(major) && ParseUint(parts[1]) == Some(minor) && ParseUint(parts[2]) == Some(patch)
    requires major * 1000000 + minor * 1000 + patch < Uint64Modulus
    ensures Accumulate(parts, 0, 0) == major * 1000000 + minor * 1000 + patch
  {
    var m := Uint64Modulus;
    assert (major * 1000000) % m == major * 1000000;
    assert (major * 1000000 + minor * 1000) % m == major * 1000000 + minor * 1000;
  }

  /** Packing stops at the first part that is not a number: the minor and patch parts are then ignored. */
  lemma StopsAtFirstNonNumeric(parts: seq<string>, major: nat)
    requires |parts| >= 2 && ParseUint(parts[0]) == Some(major) && ParseUint(parts[1]).None?
    ensures Accumulate(parts, 0, 0) == major * 1000000 % Uint64Modulus
  {
  }

  /** A version text whose first part is not a number packs to 0. */
  lemma NonNumericMajorIsZero(parts: seq<string>)
    requires |parts| >= 1 && ParseUint(parts[0]).None?
    ensures Accumulate(parts, 0, 0) == 0
  {
  }

  /** The name of an environment entry: the text before the first '=' once spaces are trimmed. */
  function VariableName(entry: string): string
  {
    Split(TrimSpace(entry), '=')[0]
  }

  /** The name is one of the unwanted ones, ignoring case. */
  predicate IsUnwanted(name: string, unwanted: seq<string>)
  {
    exists u :: 0 <= u < |unwanted| && EqualFold(unwanted[u], name)
  }

  /** Whether removeIncompatibleEnvironmentVariables keeps an entry. */
  predicate Kept(entry: string, unwanted: seq<string>)
  {
    !IsUnwanted(VariableName(entry), unwanted)
  }

  /** For each entry, whether removeIncompatibleEnvironmentVariables keeps it. */
  function KeepMask(environment: seq<string>, unwanted: seq<string>): (m: seq<bool>)
    ensures |m| == |environment|
    ensures forall i :: 0 <= i < |m| ==> m[i] == Kept(environment[i], unwanted)
  {
    seq(|environment|, i requires 0 <= i < |environment| => Kept(environment[i], unwanted))
  }

  /** The elements whose mask bit is set, in order. */
  function Select<T>(s: seq<T>, m: seq<bool>): seq<T>
    requires |m| == |s|
  {
    if s == [] then []
    else
      var rest := Select(s[..|s| - 1], m[..|s| - 1]);
      if m[|s| - 1] then rest + [s[|s| - 1]] else rest
  }

  /** The entries removeIncompatibleEnvironmentVariables keeps, in input order. */
  function Compatible(environment: seq<string>, unwanted: seq<string>): seq<string>
  {
    Select(environment, KeepMask(environment, unwanted))
  }

  lemma {:induction false} SelectMembers<T>(s: seq<T>, m: seq<bool>, x: T)
    requires |m| == |s|
    ensures x in Select(s, m) <==> exists i :: 0 <= i < |s| && s[i] == x && m[i]
  {
    if s != [] {
      var n := |s| - 1;
      SelectMembers(s[..n], m[..n], x);
      if x in Select(s[..n], m[..n]) {
        var i :| 0 <= i < n && s[..n][i] == x && m[..n][i];
        assert s[i] == x && m[i];
      }
      if exists i :: 0 <= i < n && s[i] == x && m[i] {
        var i :| 0 <= i < n && s[i] == x && m[i];
        assert s[..n][i] == x && m[..n][i];
      }
    }
  }

  lemma {:induction false} SelectAppend<T>(a: seq<T>, ma: seq<bool>, b: seq<T>, mb: seq<bool>)
    requires |ma| == |a| && |mb| == |b|
    ensures Select(a + b, ma + mb) == Select(a, ma) + Select(b, mb)
    decreases |b|
  {
    if b == [] {
      assert a + b == a && ma + mb == ma;
    } else {
      var n := |b| - 1;
      SelectAppend(a, ma, b[..n], mb[..n]);
      assert (a + b)[..|a + b| - 1] == a + b[..n];
      assert (ma + mb)[..|a + b| - 1] == ma + mb[..n];
    }
  }

  /** removeIncompatibleEnvironmentVariables: drop, in order, every entry whose name folds to an unwanted one. */
  method RemoveIncompatibleEnvironmentVariables(environment: seq<string>, unwanted: seq<string>) returns (result: seq<string>)
    ensures result == Compatible(environment, unwanted)
  {
    result := [];
    ghost var mask := KeepMask(environment, unwanted);
    var i := 0;
    while i < |environment|
      invariant 0 <= i <= |environment|
      invariant result == Select(environment[..i], mask[..i])
    {
      assert environment[..i + 1][..i] == environment[..i] && mask[..i + 1][..i] == mask[..i];
      var here := environment[i];
      var name := Split(TrimSpace(here), '=')[0];
      var drop := false;
      var u := 0;
      while u < |unwanted|
        invariant 0 <= u <= |unwanted|
        invariant drop <==> exists w :: 0 <= w < u && EqualFold(unwanted[w], name)
      {
        if EqualFold(unwanted[u], name) {
          drop := true;
          break;
        }
        u := u + 1;
      }
      assert drop <==> !mask[i];
      if !drop {
        result := result + [here];
      }
      i := i + 1;
    }
    assert environment[..i] == environment && mask[..i] == mask;
  }

  /** An entry is kept exactly when it is in the input and its name differs, ignoring case, from every unwanted name. */
  lemma CompatibleMembers(environment: seq<string>, unwanted: seq<string>, x: string)
    ensures x in Compatible(environment, unwanted) <==> x in environment && Kept(x, unwanted)
  {
    SelectMembers(environment, KeepMask(environment, unwanted), x);
  }

  /** Filtering distributes over concatenation, so kept entries stay in their input order. */
  lemma CompatibleAppend(a: seq<string>, b: seq<string>, unwanted: seq<string>)
    ensures Compatible(a + b, unwanted) == Compatible(a, unwanted) + Compatible(b, unwanted)
  {
    var ma, mb := KeepMask(a, unwanted), KeepMask(b, unwanted);
    assert KeepMask(a + b, unwanted) == ma + mb by {
      forall i | 0 <= i < |a + b| ensures KeepMask(a + b, unwanted)[i] == (ma + mb)[i] {
        if i < |a| { assert (a + b)[i] == a[i]; } else { assert (a + b)[i] == b[i - |a|]; }
      }
    }
    SelectAppend(a, ma, b, mb);
  }

  /** Kept in words: the name differs, ignoring case, from every unwanted name. */
  lemma KeptMeansNoFold(x: string, unwanted: seq<string>)
    ensures Kept(x, unwanted) <==> forall u :: 0 <= u < |unwanted| ==> !EqualFold(unwanted[u], VariableName(x))
  {
  }

  /** appendIfValue: add "key=value" only when the value is not empty. */
  function AppendIfValue(environment: seq<string>, key: string, value: string): (r: seq<string>)
    ensures |value| > 0 ==> r == environment + [key + "=" + value]
    ensures |value| == 0 ==> r == environment
  {
    if |value| > 0 then environment + [key + "=" + value] else environment
  }

  /** An entry added by appendIfValue carries its key as its name, for keys without '=' or surrounding space. */
  lemma AppendedNameIsKey(key: string, value: string)
    requires key != "" && '=' !in key && !IsGoSpace(key[0])
    requires value != "" && !IsGoSpace(value[|value| - 1])
    ensures VariableName(key + "=" + value) == key
  {
    var e := key + "=" + value;
    assert TrimLeft(e, GoSpace) == e;
    assert TrimRight(e, GoSpace) == e;
    assert IndexOf(e, '=') == |key| by {
      assert e[|key|] == '=' && '=' !in e[..|key|] by { assert e[..|key|] == key; }
    }
    assert e[..|key|] == key;
  }

  /** ignoreDynamicDirectories: __pycache__ anywhere, and gen inside comtypes, in any case. */
  predicate IgnoreDynamicDirectories(folder: string, entryName: string)
  {
    var base := ToLower(GoPath.Base(folder));
    var name := ToLower(entryName);
    name == "__pycache__" || (name == "gen" && base == "comtypes")
  }

  /** The decision does not depend on the case of the entry name. */
  lemma IgnoreIsCaseInsensitive(folder: string, entryName: string)
    ensures IgnoreDynamicDirectories(folder, entryName) == IgnoreDynamicDirectories(folder, ToLower(entryName))
  {
    ToLowerIdempotent(entryName);
  }

  /** Only the two dynamic names are ever skipped. */
  lemma IgnoredNames(folder: string, entryName: string)
    ensures IgnoreDynamicDirectories(folder, entryName) ==> |entryName| == 11 || |entryName| == 3
    ensures EqualFold(entryName, "__pycache__") ==> IgnoreDynamicDirectories(folder, entryName)
  {
    assert ToLower("__pycache__") == "__pycache__";
  }
}
