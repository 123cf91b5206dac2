/**
 * Two helpers of htfs/functions.go: recognising the temporary "NAME.part#N" files an atomic write
 * leaves behind, and the three-level hub path a digest is stored under.
 */
module HtfsFunctions {
  import opened Text
  import GoPath

  /** Everything after the last '#' is a digit and the five characters before it are ".part". */
  predicate PartFileName(name: string)
  {
    var i := LastIndexOf(name, '#');
    i >= 5 && name[i - 5..i] == ".part" && AllDigits(name[i + 1..])
  }

  /** isTemporaryPartFile: scan back to the last '#', then check the ".part" before it and the digits after it. */
  method IsTemporaryPartFile(name: string) returns (r: bool)
    ensures r <==> PartFileName(name)
  {
    var i := |name| - 1;
    while i >= 0
      invariant -1 <= i < |name|
      invariant '#' !in name[i + 1..]
    {
      if name[i] == '#' {
        assert LastIndexOf(name, '#') == i;
        if i >= 5 && name[i - 5..i] == ".part" {
          var j := i + 1;
          while j < |name|
            invariant i + 1 <= j <= |name|
            invariant AllDigits(name[i + 1..j])
          {
            if name[j] < '0' || name[j] > '9' {
              assert name[i + 1..][j - i - 1] == name[j];
              return false;
            }
            assert name[i + 1..j + 1] == name[i + 1..j] + [name[j]];
            j := j + 1;
          }
          return true;
        }
        return false;
      }
      assert name[i..] == [name[i]] + name[i + 1..];
      i := i - 1;
    }
    assert name[0..] == name;
    return false;
  }

  /** A name split at its last '#': a part file iff ".part" ends what comes before and only digits follow. */
  lemma PartFileAt(pre: string, post: string)
    requires '#' !in post
    ensures PartFileName(pre + "#" + post) <==> |pre| >= 5 && pre[|pre| - 5..] == ".part" && AllDigits(post)
  {
    var name := pre + "#" + post;
    assert name[|pre|] == '#' && name[|pre| + 1..] == post;
    LastIndexOfAt(name, '#', |pre|);
    assert name[..|pre|] == pre;
  }

  /** The names htfs/batching_test.go expects isTemporaryPartFile to accept. */
  lemma PartFileAccepted()
    ensures PartFileName("error.py.part#6599")
    ensures PartFileName("file.txt.part#1")
    ensures PartFileName(".part#1")
  {
    AcceptsPythonPart();
    AcceptsTextPart();
    AcceptsBarePart();
  }

  /** The names htfs/batching_test.go expects isTemporaryPartFile to reject. */
  lemma PartFileRejected()
    ensures !PartFileName("error.py")
    ensures !PartFileName("file#123.txt")
    ensures !PartFileName("file.part")
    ensures !PartFileName("file.part#abc")
    ensures !PartFileName("file.part#123abc")
    ensures !PartFileName("")
    ensures !PartFileName("pt#1")
  {
    assert '#' !in "error.py" && '#' !in "file.part";
    RejectsHashInName();
    RejectsLetters();
    RejectsTrailingLetters();
    RejectsShortPrefix();
  }

  lemma AcceptsPythonPart()
    ensures PartFileName("error.py.part#6599")
  {
    PartFileAt("error.py.part", "6599");
    assert "error.py.part" + "#" + "6599" == "error.py.part#6599";
  }

  lemma AcceptsTextPart()
    ensures PartFileName("file.txt.part#1")
  {
    PartFileAt("file.txt.part", "1");
    assert "file.txt.part" + "#" + "1" == "file.txt.part#1";
  }

  lemma AcceptsBarePart()
    ensures PartFileName(".part#1")
  {
    PartFileAt(".part", "1");
    assert ".part" + "#" + "1" == ".part#1";
  }

  lemma RejectsHashInName()
    ensures !PartFileName("file#123.txt")
  {
    PartFileAt("file", "123.txt");
    assert "file" + "#" + "123.txt" == "file#123.txt";
  }

  lemma RejectsLetters()
    ensures !PartFileName("file.part#abc")
  {
    PartFileAt("file.part", "abc");
    assert "file.part" + "#" + "abc" == "file.part#abc";
    assert !IsDigit("abc"[0]);
  }

  lemma RejectsTrailingLetters()
    ensures !PartFileName("file.part#123abc")
  {
    PartFileAt("file.part", "123abc");
    assert "file.part" + "#" + "123abc" == "file.part#123abc";
    assert !IsDigit("123abc"[3]);
  }

  lemma RejectsShortPrefix()
    ensures !PartFileName("pt#1")
  {
    PartFileAt("pt", "1");
    assert "pt" + "#" + "1" == "pt#1";
  }

  /** guessLocation: digest[:2]/digest[2:4]/digest[4:6]/digest, joined and cleaned. */
  function GuessLocation(digest: string): string
    requires |digest| >= 6
  {
    GoPath.JoinPath([digest[..2], digest[2..4], digest[4..6], digest])
  }

  /** For a digest without '/' or '.' (hex), the location is the plain three-level path. */
  lemma GuessLocationOfDigest(digest: string)
    requires |digest| >= 6
    requires forall i :: 0 <= i < |digest| ==> digest[i] != '/' && digest[i] != '.'
    ensures GuessLocation(digest) == digest[..2] + "/" + digest[2..4] + "/" + digest[4..6] + "/" + digest
  {
    var elems := [digest[..2], digest[2..4], digest[4..6], digest];
    forall k | 0 <= k < 4 ensures GoPath.PlainElement(elems[k]) {
      assert forall c :: c in elems[k] ==> c in digest;
      assert elems[k][0] != '.' && elems[k] != "";
    }
    Text.NonEmptyKeepsNonEmpty(elems);
    GoPath.CleanOfPlainPath(elems);
    var e1, e2, e3 := elems[1..], elems[1..][1..], elems[1..][1..][1..];
    assert e3 == [digest] && Join(e3, '/') == digest;
    assert Join(e2, '/') == digest[4..6] + "/" + digest;
    assert Join(e1, '/') == digest[2..4] + "/" + digest[4..6] + "/" + digest;
    assert Join(elems, '/') == digest[..2] + "/" + digest[2..4] + "/" + digest[4..6] + "/" + digest;
  }
}
