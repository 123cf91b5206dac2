/**
 * The identity rcc generates for itself (xviper/tracking.go, AsGuid): the first sixteen bytes of
 * a digest, written as lower-case hex in groups of 4, 2, 2, 2 and 6 bytes joined by '-'.
 */
module Tracking {
  import opened Wrappers
  import opened Text

  const GuidSteps: seq<nat> := [4, 2, 2, 2, 6]

  function Total(steps: seq<nat>): nat
  {
    if steps == [] then 0 else steps[0] + Total(steps[1..])
  }

  /** The hex groups of consecutive slices of content, one per step. */
  function Groups(content: seq<Byte>, steps: seq<nat>): seq<string>
    requires |content| >= Total(steps)
  {
    if steps == [] then []
    else [HexBytes(content[..steps[0]])] + Groups(content[steps[0]..], steps[1..])
  }

  /** The formatted identity. */
  function Guid(content: seq<Byte>): string
    requires |content| >= 16
  {
    Join(Groups(content, GuidSteps), '-')
  }

  /** AsGuid: slicing off each group in turn. Fewer than sixteen bytes make Go panic. */
  method AsGuid(content: seq<Byte>) returns (r: string)
    requires |content| >= 16
    ensures r == Guid(content)
  {
    assert Total(GuidSteps) == 16;
    var result: seq<string> := [];
    var rest := content;
    assert GuidSteps[0..] == GuidSteps;
    for i := 0 to |GuidSteps|
      invariant |rest| >= Total(GuidSteps[i..])
      invariant result + Groups(rest, GuidSteps[i..]) == Groups(content, GuidSteps)
    {
      var step := GuidSteps[i];
      GroupsStep(rest, GuidSteps[i..]);
      assert GuidSteps[i..][0] == step && GuidSteps[i..][1..] == GuidSteps[i + 1..];
      result := result + [HexBytes(rest[..step])];
      rest := rest[step..];
    }
    assert GuidSteps[|GuidSteps|..] == [];
    assert Groups(rest, GuidSteps[|GuidSteps|..]) == [];
    assert result == Groups(content, GuidSteps);
    r := Join(result, '-');
  }

  /** One more group: the hex of the next slice, then the groups of what follows it. */
  lemma GroupsStep(content: seq<Byte>, steps: seq<nat>)
    requires steps != [] && |content| >= Total(steps)
    ensures Total(steps) == steps[0] + Total(steps[1..])
    ensures Groups(content, steps) == [HexBytes(content[..steps[0]])] + Groups(content[steps[0]..], steps[1..])
  {
  }

  /** Reading hex groups of the given sizes back into bytes. */
  function ReadGroups(parts: seq<string>, steps: seq<nat>): Option<seq<Byte>>
    decreases steps
  {
    if parts == [] || steps == [] then (if parts == [] && steps == [] then Some([]) else None)
    else if |parts[0]| == 2 * steps[0] && forall k :: 0 <= k < |parts[0]| ==> IsLowerHex(parts[0][k]) then
      match ReadGroups(parts[1..], steps[1..])
      case Some(tail) => Some(UnhexBytes(parts[0]) + tail)
      case None => None
    else None
  }

  /** Parsing an identity: five groups of 8, 4, 4, 4 and 12 hex digits. */
  function ParseGuid(s: string): Option<seq<Byte>>
  {
    ReadGroups(Split(s, '-'), GuidSteps)
  }

  /** Each group has two digits per byte of its step, all lower-case hex. */
  lemma {:induction false} GroupsShape(content: seq<Byte>, steps: seq<nat>)
    requires |content| >= Total(steps)
    ensures |Groups(content, steps)| == |steps|
    ensures forall k :: 0 <= k < |steps| ==> |Groups(content, steps)[k]| == 2 * steps[k]
    ensures forall k :: 0 <= k < |steps| ==> '-' !in Groups(content, steps)[k]
    ensures Lengths(Groups(content, steps)) == 2 * Total(steps)
    decreases steps
  {
    if steps != [] {
      GroupsShape(content[steps[0]..], steps[1..]);
      var h := HexBytes(content[..steps[0]]);
      assert '-' !in h by {
        assert forall i :: 0 <= i < |h| ==> IsLowerHex(h[i]);
      }
    }
  }

  /** Decoding the groups gives back the bytes they were made from. */
  lemma {:induction false} ReadGroupsRoundTrip(content: seq<Byte>, steps: seq<nat>)
    requires |content| >= Total(steps)
    ensures ReadGroups(Groups(content, steps), steps) == Some(content[..Total(steps)])
    decreases steps
  {
    if steps != [] {
      var head, rest := content[..steps[0]], content[steps[0]..];
      ReadGroupsRoundTrip(rest, steps[1..]);
      GroupsStep(content, steps);
      ReadGroupsCons(HexBytes(head), Groups(rest, steps[1..]), steps, rest[..Total(steps[1..])]);
      HexRoundTrip(head);
      assert head + rest[..Total(steps[1..])] == content[..Total(steps)];
    }
  }

  /** A well-formed first group in front of groups that decode to tail decodes to its bytes, then tail. */
  lemma ReadGroupsCons(h: string, parts: seq<string>, steps: seq<nat>, tail: seq<Byte>)
    requires steps != [] && |h| == 2 * steps[0] && forall k :: 0 <= k < |h| ==> IsLowerHex(h[k])
    requires ReadGroups(parts, steps[1..]) == Some(tail)
    ensures ReadGroups([h] + parts, steps) == Some(UnhexBytes(h) + tail)
  {
    assert ([h] + parts)[0] == h && ([h] + parts)[1..] == parts;
  }

  lemma {:induction false} JoinLength(parts: seq<string>, sep: char)
    requires |parts| >= 1
    ensures |Join(parts, sep)| == Lengths(parts) + |parts| - 1
    decreases |parts|
  {
    if |parts| > 1 {
      JoinLength(parts[1..], sep);
    }
  }

  function Lengths(parts: seq<string>): nat
  {
    if parts == [] then 0 else |parts[0]| + Lengths(parts[1..])
  }

  /**
   * The identity is 36 characters: groups of 8, 4, 4, 4 and 12 lower-case hex digits separated
   * by '-', and parsing it gives back the first sixteen bytes.
   */
  lemma GuidCorrect(content: seq<Byte>)
    requires |content| >= 16
    ensures |Guid(content)| == 36
    ensures |Split(Guid(content), '-')| == 5
    ensures forall k :: 0 <= k < 5 ==> |Split(Guid(content), '-')[k]| == 2 * GuidSteps[k]
    ensures ParseGuid(Guid(content)) == Some(content[..16])
  {
    GuidLength(content);
    GuidParts(content);
    GroupsShape(content, GuidSteps);
    ReadGroupsRoundTrip(content, GuidSteps);
  }

  lemma GuidLength(content: seq<Byte>)
    requires |content| >= 16
    ensures |Guid(content)| == 36
  {
    GroupsShape(content, GuidSteps);
    JoinLength(Groups(content, GuidSteps), '-');
  }

  /** Splitting the identity at '-' gives back its groups. */
  lemma GuidParts(content: seq<Byte>)
    requires |content| >= 16
    ensures Split(Guid(content), '-') == Groups(content, GuidSteps)
  {
    GroupsShape(content, GuidSteps);
    SplitJoin(Groups(content, GuidSteps), '-');
  }

  /** Only the first sixteen bytes matter: the rest of a longer digest is ignored. */
  lemma {:induction false} GroupsPrefix(content: seq<Byte>, steps: seq<nat>, n: nat)
    requires Total(steps) <= n <= |content|
    ensures Groups(content, steps) == Groups(content[..n], steps)
    decreases steps
  {
    if steps != [] {
      var s := steps[0];
      assert content[..n][..s] == content[..s];
      assert content[..n][s..] == content[s..][..n - s];
      GroupsPrefix(content[s..], steps[1..], n - s);
    }
  }

  lemma GuidPrefix(content: seq<Byte>)
    requires |content| >= 16
    ensures Guid(content) == Guid(content[..16])
  {
    GroupsPrefix(content, GuidSteps, 16);
  }
}
