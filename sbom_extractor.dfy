/**
 * The pure parts of the SBOM component extractor (sbom/extractor.go): package URLs for conda and
 * pip packages, the conda channel clean-up, and the parser of a pip METADATA header block.
 */
module SbomExtractor {
  import opened Wrappers
  import opened Text
  import opened GoUrl

  /** Index of the last non-empty element, or -1 when every element is empty. */
  function LastNonEmptyIndex(parts: seq<string>): (k: int)
    ensures -1 <= k < |parts|
    ensures k >= 0 ==> parts[k] != ""
    ensures forall j :: k < j < |parts| ==> parts[j] == ""
  {
    if parts == [] then -1
    else if parts[|parts| - 1] != "" then |parts| - 1
    else LastNonEmptyIndex(parts[..|parts| - 1])
  }

  /** sanitizeChannel: the last non-empty '/'-segment of a channel URL, else the channel itself. */
  function SanitizeChannel(channel: string): string
  {
    if channel == "" then ""
    else if '/' in channel then
      var parts := Split(channel, '/');
      var k := LastNonEmptyIndex(parts);
      if k >= 0 then parts[k] else channel
    else channel
  }

  /** parts[k] is the last non-empty part. */
  predicate LastNonEmptyAt(parts: seq<string>, k: int)
  {
    0 <= k < |parts| && parts[k] != "" && forall j :: k < j < |parts| ==> parts[j] == ""
  }

  /**
   * What sanitizeChannel returns: "" only for "", a plain name unchanged, and for a value with a
   * '/' either its last non-empty segment (which has no '/') or, when there is none, the value.
   */
  lemma SanitizeChannelCases(channel: string)
    ensures SanitizeChannel(channel) == "" <==> channel == ""
    ensures '/' !in channel ==> SanitizeChannel(channel) == channel
    ensures '/' in channel ==>
      (exists k :: LastNonEmptyAt(Split(channel, '/'), k) && SanitizeChannel(channel) == Split(channel, '/')[k])
      || ((forall j :: 0 <= j < |Split(channel, '/')| ==> Split(channel, '/')[j] == "") && SanitizeChannel(channel) == channel)
    ensures SanitizeChannel(channel) == channel || '/' !in SanitizeChannel(channel)
  {
    if '/' in channel {
      var parts := Split(channel, '/');
      var k := LastNonEmptyIndex(parts);
      SplitPieces(channel, '/');
      if k >= 0 {
        assert LastNonEmptyAt(parts, k);
        assert SanitizeChannel(channel) == parts[k] && '/' !in parts[k];
        assert LastNonEmptyAt(Split(channel, '/'), k) && SanitizeChannel(channel) == Split(channel, '/')[k];
        assert exists k0 :: LastNonEmptyAt(Split(channel, '/'), k0) && SanitizeChannel(channel) == Split(channel, '/')[k0];
      } else {
        assert forall j :: 0 <= j < |parts| ==> parts[j] == "";
        assert SanitizeChannel(channel) == channel;
      }
    }
  }

  /** Cleaning a channel twice changes nothing more. */
  lemma SanitizeChannelIdempotent(channel: string)
    ensures SanitizeChannel(SanitizeChannel(channel)) == SanitizeChannel(channel)
  {
    SanitizeChannelCases(channel);
    SanitizeChannelCases(SanitizeChannel(channel));
  }

  /** condaToPurl: pkg:conda/[channel/]name@version, each part path-escaped; the subdir is unused. */
  function CondaToPurl(name: string, version: string, channel: string, subdir: string): string
  {
    ChannelPurl(SanitizeChannel(channel), name, version)
  }

  /** The conda purl once the channel is clean: the channel part only when it is not empty. */
  function ChannelPurl(ch: string, name: string, version: string): string
  {
    if ch == "" then "pkg:conda/" + PathEscape(name) + "@" + PathEscape(version)
    else "pkg:conda/" + PathEscape(ch) + "/" + PathEscape(name) + "@" + PathEscape(version)
  }

  /** pipToPurl: pkg:pypi/name@version with the name lower-cased. */
  function PipToPurl(name: string, version: string): string
  {
    "pkg:pypi/" + PathEscape(ToLower(name)) + "@" + PathEscape(version)
  }

  lemma NoSlashIn(a: string, b: string)
    requires forall i :: 0 <= i < |a| ==> a[i] != '/'
    requires forall i :: 0 <= i < |b| ==> b[i] != '/'
    ensures '/' !in a + "@" + b
  {
    assert forall i :: 0 <= i < |a + "@" + b| ==> (a + "@" + b)[i] != '/';
  }

  /**
   * A conda purl splits at '/' into "pkg:conda", the escaped channel when there is one, and
   * "name@version": escaping keeps '/' out of every part.
   */
  lemma CondaPurlSegments(name: string, version: string, channel: string, subdir: string)
    ensures var ch := SanitizeChannel(channel);
      var last := PathEscape(name) + "@" + PathEscape(version);
      Split(CondaToPurl(name, version, channel, subdir), '/')
        == if ch == "" then ["pkg:conda", last] else ["pkg:conda", PathEscape(ch), last]
  {
    ChannelPurlSegments(SanitizeChannel(channel), name, version);
  }

  lemma ChannelPurlSegments(ch: string, name: string, version: string)
    ensures var last := PathEscape(name) + "@" + PathEscape(version);
      Split(ChannelPurl(ch, name, version), '/')
        == if ch == "" then ["pkg:conda", last] else ["pkg:conda", PathEscape(ch), last]
  {
    var n, v := PathEscape(name), PathEscape(version);
    NoSlashIn(n, v);
    if ch == "" {
      CondaRegroup(n, v);
      SplitTwo("pkg:conda", n + "@" + v, '/');
    } else {
      CondaChannelRegroup(PathEscape(ch), n, v);
      SplitThree("pkg:conda", PathEscape(ch), n + "@" + v, '/');
    }
  }

  lemma CondaRegroup(n: string, v: string)
    ensures "pkg:conda/" + n + "@" + v == "pkg:conda" + ['/'] + (n + "@" + v)
  {
    assert "pkg:conda/" == "pkg:conda" + ['/'];
  }

  lemma CondaChannelRegroup(c: string, n: string, v: string)
    ensures "pkg:conda/" + c + "/" + n + "@" + v == "pkg:conda" + ['/'] + c + ['/'] + (n + "@" + v)
  {
    assert "pkg:conda/" == "pkg:conda" + ['/'];
  }

  lemma PypiRegroup(n: string, v: string)
    ensures "pkg:pypi/" + n + "@" + v == "pkg:pypi" + ['/'] + (n + "@" + v)
  {
    assert "pkg:pypi/" == "pkg:pypi" + ['/'];
  }

  /** A channel URL gives the same purl as its bare channel name. */
  lemma CondaPurlChannelUrl(name: string, version: string, channel: string, subdir: string)
    ensures CondaToPurl(name, version, channel, subdir)
      == CondaToPurl(name, version, SanitizeChannel(channel), subdir)
  {
    SanitizeChannelIdempotent(channel);
  }

  /** Names that differ only in ASCII case give the same pip purl. */
  lemma PipPurlFoldsCase(a: string, b: string, version: string)
    requires EqualFold(a, b)
    ensures PipToPurl(a, version) == PipToPurl(b, version)
  {
    EqualFoldIsLowerEqual(a, b);
  }

  /** A pip purl splits at '/' into "pkg:pypi" and "name@version". */
  lemma PipPurlSegments(name: string, version: string)
    ensures Split(PipToPurl(name, version), '/')
      == ["pkg:pypi", PathEscape(ToLower(name)) + "@" + PathEscape(version)]
  {
    var n, v := PathEscape(ToLower(name)), PathEscape(version);
    NoSlashIn(n, v);
    PypiRegroup(n, v);
    SplitTwo("pkg:pypi", n + "@" + v, '/');
  }

  /** The last segment of a channel URL is its name, with or without a trailing '/'. */
  lemma SanitizeUrlChannel(prefix: string, name: string)
    requires name != "" && '/' !in name
    ensures SanitizeChannel(prefix + "/" + name) == name
    ensures SanitizeChannel(prefix + "/" + name + "/") == name
  {
    var c1 := prefix + "/" + name;
    SplitAppend(prefix, name, '/');
    assert c1[|prefix|] == '/';
    var c2 := c1 + "/";
    SplitAppend(c1, "", '/');
    assert c1 + ['/'] + "" == c2;
    assert c2[|prefix|] == '/';
    var p2 := Split(prefix, '/') + [name] + [""];
    assert p2[..|p2| - 1] == Split(prefix, '/') + [name];
  }

  /** Names, versions and channels made of safe characters appear in the purl verbatim. */
  lemma SafePurls(name: string, version: string, ch: string, subdir: string)
    requires AllSafe(name) && AllSafe(version) && AllSafe(ch)
    ensures ch != "" ==> CondaToPurl(name, version, ch, subdir) == "pkg:conda/" + ch + "/" + name + "@" + version
    ensures CondaToPurl(name, version, "", subdir) == "pkg:conda/" + name + "@" + version
    ensures AllSafe(ToLower(name)) && PipToPurl(name, version) == "pkg:pypi/" + ToLower(name) + "@" + version
  {
    PathEscapeSafe(name);
    PathEscapeSafe(version);
    PathEscapeSafe(ch);
    assert '/' !in ch by { assert !SegmentSafe('/'); }
    SanitizeChannelCases(ch);
    assert AllSafe(ToLower(name)) by {
      forall i | 0 <= i < |name| ensures SegmentSafe(ToLower(name)[i]) { assert ToLower(name)[i] == LowerChar(name[i]); }
    }
    PathEscapeSafe(ToLower(name));
  }

  // ---------------------------------------------------------------- METADATA headers

  datatype PipPackageMeta = PipPackageMeta(name: string, version: string, license: string, author: string, homepage: string)

  const NoMeta := PipPackageMeta("", "", "", "", "")

  /**
   * bufio.Scanner with ScanLines over the whole input: lines end at '\n', a '\r' right before
   * it is dropped, and a final line without '\n' still counts.
   */
  function ScanLines(content: string): (lines: seq<string>)
  {
    var pieces := Split(content, '\n');
    DropCR(if pieces[|pieces| - 1] == "" then pieces[..|pieces| - 1] else pieces)
  }

  /** Each line without the '\r' that may end it. */
  function DropCR(body: seq<string>): (lines: seq<string>)
    ensures |lines| == |body|
    ensures forall i :: 0 <= i < |body| ==> lines[i] == TrimSuffix(body[i], "\r")
  {
    seq(|body|, i requires 0 <= i < |body| => TrimSuffix(body[i], "\r"))
  }

  lemma DropCRKeeps(lines: seq<string>)
    requires forall i :: 0 <= i < |lines| ==> !HasSuffix(lines[i], "\r")
    ensures DropCR(lines) == lines
  {
    var r := DropCR(lines);
    forall i | 0 <= i < |lines| ensures r[i] == lines[i] { assert !HasSuffix(lines[i], "\r"); }
  }

  lemma JoinedLinesSplit(lines: seq<string>)
    requires forall i :: 0 <= i < |lines| ==> '\n' !in lines[i]
    ensures Split(Join(lines + [""], '\n'), '\n') == lines + [""]
  {
    var parts := lines + [""];
    forall i | 0 <= i < |parts| ensures '\n' !in parts[i] {
      if i < |lines| { assert parts[i] == lines[i]; }
    }
    SplitJoin(parts, '\n');
  }

  lemma ScanLinesOfPieces(content: string, lines: seq<string>)
    requires Split(content, '\n') == lines + [""]
    requires forall i :: 0 <= i < |lines| ==> !HasSuffix(lines[i], "\r")
    ensures ScanLines(content) == lines
  {
    var pieces := lines + [""];
    assert pieces[..|pieces| - 1] == lines;
    DropCRKeeps(lines);
  }

  /** Lines written out with a '\n' after each are scanned back as the same lines. */
  lemma ScanLinesRoundTrip(lines: seq<string>)
    requires forall i :: 0 <= i < |lines| ==> '\n' !in lines[i] && !HasSuffix(lines[i], "\r")
    ensures ScanLines(Join(lines + [""], '\n')) == lines
  {
    JoinedLinesSplit(lines);
    ScanLinesOfPieces(Join(lines + [""], '\n'), lines);
  }

  predicate SeparatorAt(line: string, j: int) { 0 <= j && j + 1 < |line| && line[j] == ':' && line[j + 1] == ' ' }

  /** Index of the first ": " in the line, or -1. */
  function SeparatorIndex(line: string): (k: int)
    ensures -1 <= k < |line|
    ensures k >= 0 ==> SeparatorAt(line, k)
    ensures forall j :: 0 <= j < |line| && (k < 0 || j < k) ==> !SeparatorAt(line, j)
  {
    if |line| < 2 then -1
    else if line[0] == ':' && line[1] == ' ' then 0
    else
      var k := SeparatorIndex(line[1..]);
      assert forall j :: 1 <= j < |line| ==> (SeparatorAt(line, j) <==> SeparatorAt(line[1..], j - 1));
      if k < 0 then -1 else k + 1
  }

  /** strings.SplitN(line, ": ", 2) when it gives two parts: the key and the value. */
  function HeaderField(line: string): (r: Option<(string, string)>)
    ensures r.Some? ==> line == r.value.0 + ": " + r.value.1
    ensures r.None? <==> forall j :: 0 <= j < |line| ==> !SeparatorAt(line, j)
  {
    var k := SeparatorIndex(line);
    if k < 0 then None
    else
      assert line == line[..k] + ": " + line[k + 2..];
      Some((line[..k], line[k + 2..]))
  }

  /** One header line's effect on the metadata. */
  function Apply(meta: PipPackageMeta, line: string): PipPackageMeta
  {
    match HeaderField(line)
    case None => meta
    case Some((key, value)) =>
      if key == "Name" then meta.(name := value)
      else if key == "Version" then meta.(version := value)
      else if key == "License" then meta.(license := value)
      else if key == "Author" then meta.(author := value)
      else if key == "Author-email" then (if meta.author == "" then meta.(author := value) else meta)
      else if key == "Home-page" then meta.(homepage := value)
      else meta
  }

  /** The header lines applied in order, stopping at the first empty line. */
  function Headers(meta: PipPackageMeta, lines: seq<string>): PipPackageMeta
    decreases |lines|
  {
    if lines == [] || lines[0] == "" then meta else Headers(Apply(meta, lines[0]), lines[1..])
  }

  /** parsePipMetadata on the scanned lines: Name and Version must both be present. */
  function PipMetadata(lines: seq<string>): Result<PipPackageMeta>
  {
    var meta := Headers(NoMeta, lines);
    if meta.name == "" || meta.version == "" then Err("incomplete metadata") else Ok(meta)
  }

  /** parsePipMetadata: read the header block line by line, then demand Name and Version. */
  method ParsePipMetadata(content: string) returns (r: Result<PipPackageMeta>)
    ensures r == PipMetadata(ScanLines(content))
    ensures r.Ok? ==> r.value.name != "" && r.value.version != ""
  {
    var lines := ScanLines(content);
    var meta := NoMeta;
    var i := 0;
    while i < |lines|
      invariant 0 <= i <= |lines|
      invariant Headers(meta, lines[i..]) == Headers(NoMeta, lines)
    {
      var line := lines[i];
      if line == "" {
        break;
      }
      assert lines[i..][1..] == lines[i + 1..];
      var field := HeaderField(line);
      if field.Some? {
        var (key, value) := field.value;
        if key == "Name" {
          meta := meta.(name := value);
        } else if key == "Version" {
          meta := meta.(version := value);
        } else if key == "License" {
          meta := meta.(license := value);
        } else if key == "Author" {
          meta := meta.(author := value);
        } else if key == "Author-email" {
          if meta.author == "" {
            meta := meta.(author := value);
          }
        } else if key == "Home-page" {
          meta := meta.(homepage := value);
        }
      }
      i := i + 1;
    }
    if meta.name == "" || meta.version == "" {
      r := Err("incomplete metadata");
    } else {
      r := Ok(meta);
    }
  }

  /** Nothing after the first empty line is read. */
  lemma {:induction false} HeadersStopAtBlankLine(meta: PipPackageMeta, head: seq<string>, rest: seq<string>)
    ensures Headers(meta, head + [""] + rest) == Headers(meta, head)
    decreases |head|
  {
    if head != [] && head[0] != "" {
      assert (head + [""] + rest)[1..] == head[1..] + [""] + rest;
      HeadersStopAtBlankLine(Apply(meta, head[0]), head[1..], rest);
    } else if head == [] {
      assert (head + [""] + rest)[0] == "";
    }
  }

  /** The value of the last line with this key, if any. */
  function LastValue(lines: seq<string>, key: string): Option<string>
  {
    if lines == [] then None
    else match LastValue(lines[1..], key)
      case Some(v) => Some(v)
      case None =>
        match HeaderField(lines[0])
        case Some((k, v)) => if k == key then Some(v) else None
        case None => None
  }

  /** The first non-empty value of a line with this key, if any. */
  function FirstNonEmptyValue(lines: seq<string>, key: string): Option<string>
  {
    if lines == [] then None
    else match HeaderField(lines[0])
      case Some((k, v)) => if k == key && v != "" then Some(v) else FirstNonEmptyValue(lines[1..], key)
      case None => FirstNonEmptyValue(lines[1..], key)
  }

  function OrElse(o: Option<string>, d: string): string { if o.Some? then o.value else d }

  predicate NoBlankLine(lines: seq<string>) { forall i :: 0 <= i < |lines| ==> lines[i] != "" }

  /** Name, Version, License and Home-page carry the value of their last header line. */
  lemma {:induction false} PlainFieldsAreLastValues(meta: PipPackageMeta, lines: seq<string>)
    requires NoBlankLine(lines)
    ensures var m := Headers(meta, lines);
      m.name == OrElse(LastValue(lines, "Name"), meta.name)
      && m.version == OrElse(LastValue(lines, "Version"), meta.version)
      && m.license == OrElse(LastValue(lines, "License"), meta.license)
      && m.homepage == OrElse(LastValue(lines, "Home-page"), meta.homepage)
    decreases |lines|
  {
    if lines != [] {
      assert NoBlankLine(lines[1..]) by {
        forall i | 0 <= i < |lines| - 1 ensures lines[1..][i] != "" { assert lines[1..][i] == lines[i + 1]; }
      }
      PlainFieldsAreLastValues(Apply(meta, lines[0]), lines[1..]);
    }
  }

  /** Once the author is set, lines without an Author key keep it. */
  lemma {:induction false} AuthorKept(meta: PipPackageMeta, lines: seq<string>)
    requires meta.author != "" && LastValue(lines, "Author").None?
    ensures Headers(meta, lines).author == meta.author
    decreases |lines|
  {
    if lines != [] && lines[0] != "" {
      AuthorKept(Apply(meta, lines[0]), lines[1..]);
    }
  }

  /** A non-empty value on the last Author line wins over every Author-email line. */
  lemma {:induction false} AuthorLineWins(meta: PipPackageMeta, lines: seq<string>, v: string)
    requires NoBlankLine(lines)
    requires LastValue(lines, "Author") == Some(v) && v != ""
    ensures Headers(meta, lines).author == v
    decreases |lines|
  {
    assert lines != [];
    assert NoBlankLine(lines[1..]) by {
      forall i | 0 <= i < |lines| - 1 ensures lines[1..][i] != "" { assert lines[1..][i] == lines[i + 1]; }
    }
    if LastValue(lines[1..], "Author").Some? {
      AuthorLineWins(Apply(meta, lines[0]), lines[1..], v);
    } else {
      AuthorKept(Apply(meta, lines[0]), lines[1..]);
    }
  }

  /** Without an Author line the author is the first non-empty Author-email, if it was not already set. */
  lemma {:induction false} AuthorEmailFallback(meta: PipPackageMeta, lines: seq<string>)
    requires NoBlankLine(lines)
    requires LastValue(lines, "Author").None?
    ensures Headers(meta, lines).author
      == if meta.author != "" then meta.author else OrElse(FirstNonEmptyValue(lines, "Author-email"), "")
    decreases |lines|
  {
    if lines != [] {
      assert NoBlankLine(lines[1..]) by {
        forall i | 0 <= i < |lines| - 1 ensures lines[1..][i] != "" { assert lines[1..][i] == lines[i + 1]; }
      }
      assert LastValue(lines[1..], "Author").None?;
      AuthorEmailFallback(Apply(meta, lines[0]), lines[1..]);
    }
  }

  /** A header line written as "key: value" is read back as that key and value. */
  lemma HeaderFieldRoundTrip(key: string, value: string)
    requires forall j :: 0 <= j < |key| ==> !SeparatorAt(key, j)
    ensures HeaderField(key + ": " + value) == Some((key, value))
  {
    var line := key + ": " + value;
    forall j | 0 <= j < |key| ensures !SeparatorAt(line, j) {
      assert line[j] == key[j];
      if j + 1 < |key| { assert line[j + 1] == key[j + 1]; assert !SeparatorAt(key, j); }
    }
    assert SeparatorAt(line, |key|);
    assert line[..|key|] == key && line[|key| + 2..] == value;
  }

  /** parsePipMetadata fails exactly when Name or Version is missing. */
  lemma PipMetadataIncomplete(lines: seq<string>)
    ensures PipMetadata(lines).Err? <==> Headers(NoMeta, lines).name == "" || Headers(NoMeta, lines).version == ""
    ensures PipMetadata(lines).Ok? ==> PipMetadata(lines).value == Headers(NoMeta, lines)
  {
  }

  /** The test's block with only a Name is rejected. */
  lemma PipMetadataIncompleteExample(mv: string, n: string)
    ensures PipMetadata(["Metadata-Version" + ": " + mv, "Name" + ": " + n]).Err?
  {
    var l0, l1 := "Metadata-Version" + ": " + mv, "Name" + ": " + n;
    HeaderFieldRoundTrip("Metadata-Version", mv);
    HeaderFieldRoundTrip("Name", n);
    var named := NoMeta.(name := n);
    assert Apply(NoMeta, l0) == NoMeta;
    assert Apply(NoMeta, l1) == named;
    assert Headers(NoMeta, [l1]) == named by {
      assert l1 != "" && [l1][1..] == [];
    }
    assert Headers(NoMeta, [l0, l1]) == named by {
      assert l0 != "" && [l0, l1][1..] == [l1];
    }
  }
}
