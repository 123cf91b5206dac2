/**
 * The bundle helpers of `holotree build-from-bundle` (cmd/holotreeBundle.go): locating a ZIP
 * archive appended to another file through its end-of-central-directory record (section 4.3.16
 * of PKWARE's APPNOTE.TXT), and picking the environment definitions and the hololib archive out
 * of the archive's entry names.
 */
module Bundle {
  import opened Wrappers
  import opened Text

  // ------------------------------------------------------------ findZipStart

  const EocdHeaderSize: nat := 22
  const MaxCommentSize: nat := 65535
  const EocdNotFound: string := "EOCD not found"

  /** binary.LittleEndian.Uint16 and Uint32 of the two or four bytes at i. */
  function Uint16At(b: seq<Byte>, i: nat): nat
    requires i + 2 <= |b|
  {
    b[i] as int + 256 * b[i + 1] as int
  }

  function Uint32At(b: seq<Byte>, i: nat): nat
    requires i + 4 <= |b|
  {
    Uint16At(b, i) + 65536 * Uint16At(b, i + 2)
  }

  /** How much of the file's end is read: room for the record and the longest comment. */
  function ReadSize(size: nat): nat
  {
    if MaxCommentSize + EocdHeaderSize > size then size else MaxCommentSize + EocdHeaderSize
  }

  /** The bytes that are read: the last ReadSize(|file|) of the file. */
  function Tail(file: seq<Byte>): seq<Byte>
  {
    file[|file| - ReadSize(|file|)..]
  }

  /** The record signature 50 4B 05 06 at position i. */
  predicate Signature(buf: seq<Byte>, i: nat)
    requires i + 4 <= |buf|
  {
    buf[i] == 0x50 && buf[i + 1] == 0x4B && buf[i + 2] == 0x05 && buf[i + 3] == 0x06
  }

  /** A record at i whose comment length field makes it end exactly at the end of the buffer. */
  predicate IsEocd(buf: seq<Byte>, i: nat)
    requires i + EocdHeaderSize <= |buf|
  {
    Signature(buf, i) && i + EocdHeaderSize + Uint16At(buf, i + 20) == |buf|
  }

  /** Where the archive starts if the record at i is the real one: the record's position in the file minus the central directory's size and offset. */
  function StartFor(file: seq<Byte>, i: nat): int
    requires i + EocdHeaderSize <= |Tail(file)|
  {
    var buf := Tail(file);
    |file| - |buf| + i - Uint32At(buf, i + 12) - Uint32At(buf, i + 16)
  }

  /** A candidate findZipStart takes: a record at i that ends the file and gives a start that is not negative. */
  predicate Accepted(file: seq<Byte>, i: int)
  {
    0 <= i && i + EocdHeaderSize <= |Tail(file)| && IsEocd(Tail(file), i) && StartFor(file, i) >= 0
  }

  /** The backward scan from position i down to 0. */
  function ScanFrom(file: seq<Byte>, i: int): Result<int>
    requires i + EocdHeaderSize <= |Tail(file)|
    decreases i + 1
  {
    if i < 0 then Err(EocdNotFound)
    else if Accepted(file, i) then Ok(StartFor(file, i))
    else ScanFrom(file, i - 1)
  }

  /** The outcome of findZipStart on a file with the given contents. */
  function ZipStart(file: seq<Byte>): Result<int>
  {
    ScanFrom(file, |Tail(file)| - EocdHeaderSize)
  }

  /**
   * findZipStart, with the file's contents in place of the open file and its size (the read
   * itself is I/O): scan the buffer backwards for a record signature whose comment length
   * reaches the end of the buffer and whose start is not negative.
   */
  method FindZipStart(file: seq<Byte>) returns (r: Result<int>)
    ensures r == ZipStart(file)
  {
    var readSize := MaxCommentSize + EocdHeaderSize;
    if readSize > |file| {
      readSize := |file|;
    }
    var buf := file[|file| - readSize..];
    assert buf == Tail(file);
    var i := |buf| - EocdHeaderSize;
    while i >= 0
      invariant i + EocdHeaderSize <= |buf|
      invariant ScanFrom(file, i) == ZipStart(file)
      decreases i + 1
    {
      if buf[i] == 0x50 && buf[i + 1] == 0x4B && buf[i + 2] == 0x05 && buf[i + 3] == 0x06 {
        var commentLen := Uint16At(buf, i + 20);
        var expectedEnd := i + EocdHeaderSize + commentLen;
        if expectedEnd == |buf| {
          var sizeCD := Uint32At(buf, i + 12);
          var offsetCD := Uint32At(buf, i + 16);
          var eocdStart := |file| - readSize + i;
          var zipStart := eocdStart - sizeCD - offsetCD;
          if zipStart >= 0 {
            return Ok(zipStart);
          }
        }
      }
      i := i - 1;
    }
    return Err(EocdNotFound);
  }

  /** The scan from i finds the highest accepted position at or below i, or reports none. */
  lemma ScanFromCorrect(file: seq<Byte>, i: int)
    requires i + EocdHeaderSize <= |Tail(file)|
    ensures ScanFrom(file, i).Err? <==> forall j :: 0 <= j <= i ==> !Accepted(file, j)
    ensures ScanFrom(file, i).Err? ==> ScanFrom(file, i).message == EocdNotFound
    ensures ScanFrom(file, i).Ok? ==>
      exists j :: 0 <= j <= i && Accepted(file, j) && ScanFrom(file, i).value == StartFor(file, j)
                  && forall k :: j < k <= i ==> !Accepted(file, k)
  {
    ScanFromFails(file, i);
    if ScanFrom(file, i).Ok? {
      var j := ScanFromFound(file, i);
    }
  }

  /** The scan fails, with "EOCD not found", iff no position at or below i is accepted. */
  lemma {:induction false} ScanFromFails(file: seq<Byte>, i: int)
    requires i + EocdHeaderSize <= |Tail(file)|
    ensures ScanFrom(file, i).Err? <==> forall j :: 0 <= j <= i ==> !Accepted(file, j)
    ensures ScanFrom(file, i).Err? ==> ScanFrom(file, i).message == EocdNotFound
    decreases i + 1
  {
    if i >= 0 && !Accepted(file, i) {
      ScanFromFails(file, i - 1);
    }
  }

  /** A successful scan answers with the start of the highest accepted position j at or below i. */
  lemma {:induction false} ScanFromFound(file: seq<Byte>, i: int) returns (j: int)
    requires i + EocdHeaderSize <= |Tail(file)| && ScanFrom(file, i).Ok?
    ensures 0 <= j <= i && Accepted(file, j) && ScanFrom(file, i).value == StartFor(file, j)
    ensures forall k :: j < k <= i ==> !Accepted(file, k)
    decreases i + 1
  {
    if Accepted(file, i) {
      j := i;
    } else {
      j := ScanFromFound(file, i - 1);
    }
  }

  /**
   * findZipStart succeeds exactly when some accepted record exists, and then answers with the
   * start given by the last one in the file; the start lies inside the file.
   */
  lemma ZipStartCorrect(file: seq<Byte>)
    ensures ZipStart(file).Err? <==> forall j :: !Accepted(file, j)
    ensures ZipStart(file).Err? ==> ZipStart(file).message == EocdNotFound
    ensures ZipStart(file).Ok? ==>
      exists j :: Accepted(file, j) && ZipStart(file).value == StartFor(file, j)
                  && forall k :: j < k ==> !Accepted(file, k)
    ensures ZipStart(file).Ok? ==> 0 <= ZipStart(file).value < |file|
  {
    var n := |Tail(file)| - EocdHeaderSize;
    ScanFromCorrect(file, n);
    assert forall j :: Accepted(file, j) ==> j <= n;
  }

  /** A file shorter than one record has no archive in it. */
  lemma ShortFileHasNoArchive(file: seq<Byte>)
    requires |file| < EocdHeaderSize
    ensures ZipStart(file) == Err(EocdNotFound)
  {
  }

  function LE16(n: nat): (b: seq<Byte>)
    requires n < 0x1_0000
    ensures |b| == 2 && Uint16At(b, 0) == n
  {
    [(n % 256) as Byte, (n / 256) as Byte]
  }

  function LE32(n: nat): (b: seq<Byte>)
    requires n < 0x1_0000_0000
    ensures |b| == 4 && Uint32At(b, 0) == n
  {
    var lo, hi := LE16(n % 0x1_0000), LE16(n / 0x1_0000);
    var b := lo + hi;
    assert Uint16At(b, 0) == Uint16At(lo, 0) && Uint16At(b, 2) == Uint16At(hi, 0);
    b
  }

  /** An end-of-central-directory record of a single-disk archive, without a comment. */
  function Eocd(entries: nat, sizeCD: nat, offsetCD: nat): (r: seq<Byte>)
    requires entries < 0x1_0000 && sizeCD < 0x1_0000_0000 && offsetCD < 0x1_0000_0000
    ensures |r| == EocdHeaderSize
  {
    [0x50, 0x4B, 0x05, 0x06] + [0, 0, 0, 0] + LE16(entries) + LE16(entries)
    + LE32(sizeCD) + LE32(offsetCD) + LE16(0)
  }

  lemma EocdFields(entries: nat, sizeCD: nat, offsetCD: nat)
    requires entries < 0x1_0000 && sizeCD < 0x1_0000_0000 && offsetCD < 0x1_0000_0000
    ensures var e := Eocd(entries, sizeCD, offsetCD);
      Signature(e, 0) && Uint32At(e, 12) == sizeCD && Uint32At(e, 16) == offsetCD && Uint16At(e, 20) == 0
  {
    var e := Eocd(entries, sizeCD, offsetCD);
    var a, b, c := LE32(sizeCD), LE32(offsetCD), LE16(0);
    assert forall k :: 0 <= k < 4 ==> e[12 + k] == a[k] && e[16 + k] == b[k];
    assert e[20] == c[0] && e[21] == c[1];
  }

  /**
   * A bundle made by appending an archive (its entries, its central directory and a record
   * without a comment, offsets counted from the archive's start) to any prefix: findZipStart
   * finds where the archive begins.
   */
  lemma ZipStartOfAppendedArchive(prefix: seq<Byte>, data: seq<Byte>, cd: seq<Byte>, entries: nat)
    requires entries < 0x1_0000 && |cd| < 0x1_0000_0000 && |data| < 0x1_0000_0000
    ensures ZipStart(prefix + data + cd + Eocd(entries, |cd|, |data|)) == Ok(|prefix|)
  {
    var e := Eocd(entries, |cd|, |data|);
    var body := prefix + data + cd;
    EocdFields(entries, |cd|, |data|);
    RecordAtEnd(body, e);
    var file := body + e;
    var i := |Tail(file)| - EocdHeaderSize;
    assert Accepted(file, i);
    assert ZipStart(file) == Ok(StartFor(file, i));
  }

  /** A comment-less record that ends the file is read where it lies, with its own fields. */
  lemma RecordAtEnd(body: seq<Byte>, e: seq<Byte>)
    requires |e| == EocdHeaderSize && Signature(e, 0) && Uint16At(e, 20) == 0
    ensures var file := body + e; var i := |Tail(file)| - EocdHeaderSize;
      i >= 0 && IsEocd(Tail(file), i) && StartFor(file, i) == |body| - Uint32At(e, 12) - Uint32At(e, 16)
  {
    var buf := Tail(body + e);
    TailEndsWith(body, e);
    FieldsAt(buf, |buf| - EocdHeaderSize, e);
  }

  /** The bytes read end with the record that ends the file. */
  lemma TailEndsWith(body: seq<Byte>, e: seq<Byte>)
    requires |e| == EocdHeaderSize
    ensures var t := Tail(body + e); |t| >= |e| && |body + e| - |t| + |t| - |e| == |body| && t[|t| - |e|..] == e
  {
    var file := body + e;
    var t := Tail(file);
    assert forall j :: |t| - |e| <= j < |t| ==> t[j] == e[j - (|t| - |e|)];
  }

  /** A record at i of the buffer has, at i, the fields it has itself. */
  lemma FieldsAt(buf: seq<Byte>, i: nat, e: seq<Byte>)
    requires i <= |buf| && buf[i..] == e && |e| == EocdHeaderSize
    ensures Uint32At(buf, i + 12) == Uint32At(e, 12) && Uint32At(buf, i + 16) == Uint32At(e, 16)
    ensures Uint16At(buf, i + 20) == Uint16At(e, 20) && Signature(buf, i) == Signature(e, 0)
  {
    assert forall k :: 0 <= k < |e| ==> buf[i + k] == e[k];
  }

  // ------------------------------------------------------------ entry names

  /** filepath.ToSlash: the platform's separator becomes '/' (nothing changes where it is '/'). */
  function ToSlash(name: string, separator: char): (r: string)
    ensures |r| == |name|
    ensures forall i :: 0 <= i < |name| ==> r[i] == if name[i] == separator then '/' else name[i]
  {
    seq(|name|, i requires 0 <= i < |name| => if name[i] == separator then '/' else name[i])
  }

  /** An environment definition found in the bundle: its name and the index of its entry. */
  datatype EnvFileInfo = EnvFileInfo(name: string, entry: nat)

  /** The environment an entry name defines, if it is envs/<name>/.../conda.yaml. */
  function EnvNameOf(name: string): Option<string>
  {
    if HasPrefix(name, "envs/") && HasSuffix(name, "/conda.yaml") && |Split(name, '/')| >= 3
    then Some(Split(name, '/')[1])
    else None
  }

  /** The definitions among the entries from index `from` on, in entry order. */
  function EnvFilesFrom(names: seq<string>, separator: char, from: nat): seq<EnvFileInfo>
    requires from <= |names|
    decreases |names| - from
  {
    if from == |names| then []
    else
      var rest := EnvFilesFrom(names, separator, from + 1);
      match EnvNameOf(ToSlash(names[from], separator))
      case Some(env) => [EnvFileInfo(env, from)] + rest
      case None => rest
  }

  /** findEnvFiles over the archive's entry names. */
  method FindEnvFiles(names: seq<string>, separator: char) returns (files: seq<EnvFileInfo>)
    ensures files == EnvFilesFrom(names, separator, 0)
  {
    files := [];
    var i := 0;
    while i < |names|
      invariant 0 <= i <= |names|
      invariant files + EnvFilesFrom(names, separator, i) == EnvFilesFrom(names, separator, 0)
    {
      var name := ToSlash(names[i], separator);
      if HasPrefix(name, "envs/") && HasSuffix(name, "/conda.yaml") {
        var parts := Split(name, '/');
        if |parts| >= 3 {
          var envName := parts[1];
          files := files + [EnvFileInfo(envName, i)];
        }
      }
      i := i + 1;
    }
  }

  /** Each definition found points at a later entry whose name defines that environment. */
  lemma {:induction false} EnvFilesFromSound(names: seq<string>, separator: char, from: nat)
    requires from <= |names|
    ensures forall k :: 0 <= k < |EnvFilesFrom(names, separator, from)| ==>
      var f := EnvFilesFrom(names, separator, from)[k];
      from <= f.entry < |names| && EnvNameOf(ToSlash(names[f.entry], separator)) == Some(f.name)
    decreases |names| - from
  {
    if from < |names| {
      EnvFilesFromSound(names, separator, from + 1);
    }
  }

  /** The definitions come in entry order. */
  lemma {:induction false} EnvFilesFromOrdered(names: seq<string>, separator: char, from: nat)
    requires from <= |names|
    ensures forall k, l :: 0 <= k < l < |EnvFilesFrom(names, separator, from)| ==>
      EnvFilesFrom(names, separator, from)[k].entry < EnvFilesFrom(names, separator, from)[l].entry
    decreases |names| - from
  {
    if from < |names| {
      EnvFilesFromSound(names, separator, from + 1);
      EnvFilesFromOrdered(names, separator, from + 1);
    }
  }

  /** Every entry whose name defines an environment is found. */
  lemma {:induction false} EnvFilesFromComplete(names: seq<string>, separator: char, from: nat, e: nat)
    requires from <= e < |names| && EnvNameOf(ToSlash(names[e], separator)).Some?
    ensures exists k :: 0 <= k < |EnvFilesFrom(names, separator, from)|
                        && EnvFilesFrom(names, separator, from)[k] == EnvFileInfo(EnvNameOf(ToSlash(names[e], separator)).value, e)
    decreases |names| - from
  {
    var all := EnvFilesFrom(names, separator, from);
    var f := EnvFileInfo(EnvNameOf(ToSlash(names[e], separator)).value, e);
    if e == from {
      assert all[0] == f;
    } else {
      EnvFilesFromComplete(names, separator, from + 1, e);
      var rest := EnvFilesFrom(names, separator, from + 1);
      var k :| 0 <= k < |rest| && rest[k] == f;
      if EnvNameOf(ToSlash(names[from], separator)).Some? {
        assert all[k + 1] == f;
      } else {
        assert all[k] == f;
      }
    }
  }

  /**
   * An entry envs/<dir>/conda.yaml (with <dir> free of '/') defines <dir>.
   */
  lemma EnvNameOfDefinition(dir: string)
    requires '/' !in dir
    ensures EnvNameOf("envs/" + dir + "/conda.yaml") == Some(dir)
  {
    var name := "envs/" + dir + "/conda.yaml";
    assert name == "envs" + "/" + dir + "/" + "conda.yaml";
    SplitThree("envs", dir, "conda.yaml", '/');
    assert name[..5] == "envs/";
    assert name[|name| - 11..] == "/conda.yaml";
  }

  /** envs/conda.yaml has both the prefix and the suffix but only two segments: it defines nothing. */
  lemma EnvNameOfTopLevel()
    ensures EnvNameOf("envs/conda.yaml") == None
  {
    assert "envs/conda.yaml" == "envs" + "/" + "conda.yaml";
    SplitTwo("envs", "conda.yaml", '/');
  }

  const HololibZip: string := "hololib/hololib.zip"

  /** hasHololibZip over the archive's entry names. */
  method HasHololibZip(names: seq<string>, separator: char) returns (found: bool)
    ensures found <==> exists i :: 0 <= i < |names| && ToSlash(names[i], separator) == HololibZip
  {
    var i := 0;
    while i < |names|
      invariant 0 <= i <= |names|
      invariant forall j :: 0 <= j < i ==> ToSlash(names[j], separator) != HololibZip
    {
      if ToSlash(names[i], separator) == HololibZip {
        return true;
      }
      i := i + 1;
    }
    return false;
  }
}
