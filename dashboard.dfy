/**
 * Two text helpers of the terminal dashboard (pretty/dashboard.go): the estimated time left,
 * written as hours and minutes, minutes and seconds or seconds, and a column padded or cut to
 * a fixed width.
 */
module PrettyDashboard {
  import opened Wrappers
  import opened Text

  /** formatETA: "0s" for nothing left; otherwise the two largest non-zero units, or just seconds. */
  function FormatEta(seconds: int): string
  {
    if seconds <= 0 then "0s"
    else
      var hours := seconds / 3600;
      var minutes := (seconds % 3600) / 60;
      var secs := seconds % 60;
      if hours > 0 then NatToString(hours) + "h" + NatToString(minutes) + "m"
      else if minutes > 0 then NatToString(minutes) + "m" + NatToString(secs) + "s"
      else NatToString(secs) + "s"
  }

  /** Two amounts around a unit letter. */
  function ReadPair(body: string, unit: char): Option<(nat, nat)>
  {
    var k := IndexOf(body, unit);
    if k < 0 then None
    else
      match (ReadAmount(body[..k]), ReadAmount(body[k + 1..]))
      case (Some(a), Some(b)) => Some((a, b))
      case _ => None
  }

  /** Reading an estimate back as a number of seconds: "XhYm", "XmYs" or "Xs". */
  function EtaValue(r: string): Option<nat>
  {
    if r == "" then None
    else
      var body := r[..|r| - 1];
      if r[|r| - 1] == 's' then
        if 'm' in body then
          match ReadPair(body, 'm') case Some((m, s)) => Some(60 * m + s) case None => None
        else ReadAmount(body)
      else if r[|r| - 1] == 'm' then
        match ReadPair(body, 'h') case Some((h, m)) => Some(3600 * h + 60 * m) case None => None
      else None
  }

  /** A rendered number followed by a letter and another rendered number splits at the letter. */
  lemma ReadPairOf(a: nat, b: nat, unit: char)
    requires !IsDigit(unit)
    ensures ReadPair(NatToString(a) + [unit] + NatToString(b), unit) == Some((a, b))
  {
    var x, y := NatToString(a), NatToString(b);
    var body := x + [unit] + y;
    assert unit !in x;
    IndexOfAt(body, unit, |x|);
    assert body[..|x|] == x && body[|x| + 1..] == y;
    NatToStringRoundTrip(a);
    NatToStringRoundTrip(b);
  }

  /** The units of a positive number of seconds. */
  lemma Units(seconds: int)
    requires seconds > 0
    ensures 3600 * (seconds / 3600) + 60 * ((seconds % 3600) / 60) == seconds - seconds % 60
    ensures 60 * ((seconds % 3600) / 60) + seconds % 60 == seconds % 3600
  {
    var h, t := seconds / 3600, seconds % 3600;
    var m, s := t / 60, t % 60;
    assert seconds == 3600 * h + t;
    assert t == 60 * m + s;
    assert seconds == 60 * (60 * h + m) + s;
    assert seconds % 60 == s;
  }

  lemma EtaOfHours(h: nat, m: nat)
    ensures EtaValue(NatToString(h) + "h" + NatToString(m) + "m") == Some(3600 * h + 60 * m)
  {
    var r := NatToString(h) + "h" + NatToString(m) + "m";
    assert r[..|r| - 1] == NatToString(h) + "h" + NatToString(m);
    ReadPairOf(h, m, 'h');
  }

  lemma EtaOfMinutes(m: nat, s: nat)
    ensures EtaValue(NatToString(m) + "m" + NatToString(s) + "s") == Some(60 * m + s)
  {
    var body := NatToString(m) + "m" + NatToString(s);
    assert (body + "s")[..|body + "s"| - 1] == body;
    assert body[|NatToString(m)|] == 'm';
    ReadPairOf(m, s, 'm');
  }

  lemma EtaOfSeconds(s: nat)
    ensures EtaValue(NatToString(s) + "s") == Some(s)
  {
    var r := NatToString(s) + "s";
    assert r[..|r| - 1] == NatToString(s);
    assert 'm' !in NatToString(s);
    NatToStringRoundTrip(s);
  }

  lemma EtaOverAnHour(seconds: int)
    requires seconds >= 3600
    ensures EtaValue(FormatEta(seconds)) == Some(seconds - seconds % 60)
  {
    Units(seconds);
    EtaOfHours(seconds / 3600, (seconds % 3600) / 60);
  }

  lemma EtaUnderAnHour(seconds: int)
    requires 0 < seconds < 3600
    ensures EtaValue(FormatEta(seconds)) == Some(seconds)
  {
    assert seconds / 3600 == 0 && seconds % 3600 == seconds;
    var minutes, secs := seconds / 60, seconds % 60;
    assert 60 * minutes + secs == seconds;
    if minutes > 0 {
      EtaOfMinutes(minutes, secs);
      assert FormatEta(seconds) == NatToString(minutes) + "m" + NatToString(secs) + "s";
    } else {
      EtaOfSeconds(secs);
      assert FormatEta(seconds) == NatToString(secs) + "s";
    }
  }

  /**
   * Reading the estimate back gives the seconds it was made from, to the minute once there are
   * hours (the seconds are then not shown), and 0 when nothing is left.
   */
  lemma EtaRoundTrip(seconds: int)
    ensures EtaValue(FormatEta(seconds))
         == Some(if seconds <= 0 then 0 else if seconds >= 3600 then seconds - seconds % 60 else seconds)
  {
    if seconds <= 0 {
      EtaOfSeconds(0);
      assert FormatEta(seconds) == NatToString(0) + "s";
    } else if seconds >= 3600 {
      EtaOverAnHour(seconds);
    } else {
      EtaUnderAnHour(seconds);
    }
  }

  /** Hours appear from one hour up; below that only minutes and seconds, and below a minute only seconds. */
  lemma FormatEtaShape(seconds: int)
    ensures seconds >= 3600 ==> 'h' in FormatEta(seconds) && FormatEta(seconds)[|FormatEta(seconds)| - 1] == 'm'
    ensures seconds < 3600 ==> 'h' !in FormatEta(seconds) && FormatEta(seconds)[|FormatEta(seconds)| - 1] == 's'
    ensures 60 <= seconds < 3600 ==> 'm' in FormatEta(seconds)
    ensures seconds < 60 ==> 'm' !in FormatEta(seconds)
  {
    var r := FormatEta(seconds);
    if seconds >= 3600 {
      assert r[|NatToString(seconds / 3600)|] == 'h';
    } else if seconds >= 60 {
      var m := NatToString((seconds % 3600) / 60);
      assert r[|m|] == 'm';
      assert r == m + "m" + NatToString(seconds % 60) + "s";
    } else if seconds > 0 {
      assert r == NatToString(seconds % 60) + "s";
    }
  }

  /** padRight: s cut to width bytes, or filled up to width with spaces. A negative width makes Go panic. */
  function PadRight(s: string, width: nat): string
  {
    if |s| >= width then s[..width] else s + Repeat(' ', width - |s|)
  }

  /** The column is exactly width long, starts with as much of s as fits and is blank after it. */
  lemma PadRightCorrect(s: string, width: nat)
    ensures |PadRight(s, width)| == width
    ensures |s| >= width ==> PadRight(s, width) == s[..width]
    ensures |s| < width ==> PadRight(s, width)[..|s|] == s
    ensures forall i :: |s| <= i < width ==> PadRight(s, width)[i] == ' '
    ensures PadRight(PadRight(s, width), width) == PadRight(s, width)
  {
    var r := PadRight(s, width);
    if |s| < width {
      assert r[..|s|] == s;
      assert forall i :: |s| <= i < width ==> r[i] == Repeat(' ', width - |s|)[i - |s|];
    }
    assert r[..width] == r;
  }
}
