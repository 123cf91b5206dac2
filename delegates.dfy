/**
 * How the holotree library recognises how a stored file is compressed (htfs/delegates.go,
 * detectFormat): by the magic bytes at its start, zstd's four before gzip's two.
 */
module Delegates {
  import opened Wrappers
  import opened Text

  const GzipMagic: seq<Byte> := [0x1f, 0x8b]
  const ZstdMagic: seq<Byte> := [0x28, 0xb5, 0x2f, 0xfd]

  function StartsWith(s: seq<Byte>, p: seq<Byte>): bool
  {
    |p| <= |s| && s[..|p|] == p
  }

  /** The decision on the n <= 4 bytes the read delivered. */
  function FormatOf(header: seq<Byte>): string
  {
    if |header| >= 4 && header[0] == 0x28 && header[1] == 0xb5 && header[2] == 0x2f && header[3] == 0xfd then "zstd"
    else if |header| >= 2 && header[0] == 0x1f && header[1] == 0x8b then "gzip"
    else "raw"
  }

  /**
   * detectFormat: a failed read (io.EOF is not a failure) or a failed seek back to the start is
   * returned as the error; otherwise the format the delivered bytes show. The reader is out of
   * view: what it delivered and the errors it reported are parameters.
   */
  function DetectFormat(header: seq<Byte>, readError: Option<string>, seekError: Option<string>): Result<string>
  {
    if readError.Some? then Err(readError.value)
    else if seekError.Some? then Err(seekError.value)
    else Ok(FormatOf(header))
  }

  /** The first bytes a full read of a file delivers into the four-byte header. */
  function Header(file: seq<Byte>): seq<Byte>
  {
    if |file| <= 4 then file else file[..4]
  }

  /** The format named by the file itself: zstd's magic first, then gzip's, otherwise raw. */
  function FileFormat(file: seq<Byte>): string
  {
    if StartsWith(file, ZstdMagic) then "zstd" else if StartsWith(file, GzipMagic) then "gzip" else "raw"
  }

  /** Reading the first bytes makes the same decision as looking at the whole file. */
  lemma DetectFormatOfFile(file: seq<Byte>)
    ensures DetectFormat(Header(file), None, None) == Ok(FileFormat(file))
  {
    var h := Header(file);
    assert |file| >= 4 ==> h == file[..4] && file[..4][..2] == file[..2];
    assert |file| >= 2 ==> h[..2] == file[..2];
    assert |file| >= 4 ==> (StartsWith(file, ZstdMagic) <==> h[..4] == ZstdMagic);
  }

  /**
   * The result is always one of the three names; errors come from the read first and the seek
   * second, and never depend on the bytes.
   */
  lemma DetectFormatCases(header: seq<Byte>, readError: Option<string>, seekError: Option<string>)
    ensures DetectFormat(header, readError, seekError).Err? <==> readError.Some? || seekError.Some?
    ensures readError.Some? ==> DetectFormat(header, readError, seekError) == Err(readError.value)
    ensures readError.None? && seekError.Some? ==> DetectFormat(header, readError, seekError) == Err(seekError.value)
    ensures FormatOf(header) in {"zstd", "gzip", "raw"}
    ensures FormatOf(header) == "zstd" <==> StartsWith(header, ZstdMagic)
    ensures FormatOf(header) == "gzip" <==> !StartsWith(header, ZstdMagic) && StartsWith(header, GzipMagic)
  {
    if |header| >= 4 {
      assert StartsWith(header, ZstdMagic) <==> header[..4] == ZstdMagic;
    }
    if |header| >= 2 {
      assert StartsWith(header, GzipMagic) <==> header[..2] == GzipMagic;
    }
  }

  /** A header shorter than two bytes is raw, whatever it holds; a gzip magic can never be mistaken for zstd. */
  lemma ShortHeaderIsRaw(header: seq<Byte>, rest: seq<Byte>)
    ensures |header| < 2 ==> FormatOf(header) == "raw"
    ensures FormatOf(GzipMagic + rest) == "gzip"
    ensures FormatOf(ZstdMagic + rest) == "zstd"
  {
    var g, z := GzipMagic + rest, ZstdMagic + rest;
    assert g[0] == 0x1f && g[1] == 0x8b;
    assert z[0] == 0x28 && z[1] == 0xb5 && z[2] == 0x2f && z[3] == 0xfd;
  }
}
