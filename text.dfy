/**
 * String helpers shared by the models: the parts of Go's `strings`/`strconv`/`fmt` and of
 * Python's `str` that the modelled code relies on. Case mapping and "word" characters are
 * ASCII-only; white space follows the Unicode White_Space characters that Go's
 * unicode.IsSpace and Python's str.isspace accept.
 */
module Text {
  import opened Wrappers

  predicate IsDigit(c: char) { '0' <= c <= '9' }

  predicate IsUpper(c: char) { 'A' <= c <= 'Z' }

  predicate IsLower(c: char) { 'a' <= c <= 'z' }

  /** A character matched by `\w` (ASCII letters, digits and underscore). */
  predicate IsWordChar(c: char) { IsDigit(c) || IsUpper(c) || IsLower(c) || c == '_' }

  /** Go's unicode.IsSpace. */
  predicate IsGoSpace(c: char) {
    c == ' ' || c == '\t' || c == '\n' || c == '\r' || c == '\U{000B}' || c == '\U{000C}'
    || c == '\U{0085}' || c == '\U{00A0}' || c == '\U{1680}' || ('\U{2000}' <= c <= '\U{200A}')
    || c == '\U{2028}' || c == '\U{2029}' || c == '\U{202F}' || c == '\U{205F}' || c == '\U{3000}'
  }

  /** Python's str.isspace, which is also what `\s` matches: Go's set plus the separators 1C-1F. */
  predicate IsPySpace(c: char) { IsGoSpace(c) || ('\U{001C}' <= c <= '\U{001F}') }

  function LowerChar(c: char): (r: char)
    ensures IsUpper(c) ==> IsLower(r)
    ensures !IsUpper(c) ==> r == c
  {
    if IsUpper(c) then (c as int + 32) as char else c
  }

  /** strings.ToLower restricted to ASCII. */
  function ToLower(s: string): (r: string)
    ensures |r| == |s|
    ensures forall i :: 0 <= i < |s| ==> r[i] == LowerChar(s[i])
  {
    seq(|s|, i requires 0 <= i < |s| => LowerChar(s[i]))
  }

  /** strings.EqualFold restricted to ASCII. */
  predicate EqualFold(a: string, b: string)
  {
    |a| == |b| && forall i :: 0 <= i < |a| ==> LowerChar(a[i]) == LowerChar(b[i])
  }

  /** Two strings fold equal exactly when their lower-case forms are equal. */
  lemma EqualFoldIsLowerEqual(a: string, b: string)
    ensures EqualFold(a, b) <==> ToLower(a) == ToLower(b)
  {
    if ToLower(a) == ToLower(b) {
      forall i | 0 <= i < |a| ensures LowerChar(a[i]) == LowerChar(b[i]) {
        assert ToLower(a)[i] == ToLower(b)[i];
      }
    }
  }

  predicate HasPrefix(s: string, p: string) { |p| <= |s| && s[..|p|] == p }

  predicate HasSuffix(s: string, p: string) { |p| <= |s| && s[|s| - |p|..] == p }

  function TrimPrefix(s: string, p: string): (r: string)
    ensures HasPrefix(s, p) ==> s == p + r
    ensures !HasPrefix(s, p) ==> r == s
  {
    if HasPrefix(s, p) then s[|p|..] else s
  }

  function TrimSuffix(s: string, p: string): (r: string)
    ensures HasSuffix(s, p) ==> s == r + p
    ensures !HasSuffix(s, p) ==> r == s
  {
    if HasSuffix(s, p) then s[..|s| - |p|] else s
  }

  /** strings.Contains: some window of `s` equals `sub`. */
  predicate Contains(s: string, sub: string)
  {
    exists i :: 0 <= i <= |s| && HasPrefix(s[i..], sub)
  }

  /** The characters the trimming functions remove. */
  datatype CharClass = GoSpace | PySpace | Slash

  predicate InClass(c: char, cls: CharClass)
  {
    match cls
    case GoSpace => IsGoSpace(c)
    case PySpace => IsPySpace(c)
    case Slash => c == '/'
  }

  /** Drop the leading characters of the class: the longest such prefix goes. */
  function TrimLeft(s: string, cls: CharClass): string
    decreases |s|
  {
    if |s| > 0 && InClass(s[0], cls) then TrimLeft(s[1..], cls) else s
  }

  /** TrimLeft leaves a suffix that does not start with a character of the class. */
  lemma {:induction false} TrimLeftShape(s: string, cls: CharClass)
    ensures |TrimLeft(s, cls)| <= |s| && TrimLeft(s, cls) == s[|s| - |TrimLeft(s, cls)|..]
    ensures TrimLeft(s, cls) == [] || !InClass(TrimLeft(s, cls)[0], cls)
    decreases |s|
  {
    if |s| > 0 && InClass(s[0], cls) {
      TrimLeftShape(s[1..], cls);
    }
  }

  /** Drop the trailing characters of the class: the longest such suffix goes. */
  function TrimRight(s: string, cls: CharClass): string
    decreases |s|
  {
    if |s| > 0 && InClass(s[|s| - 1], cls) then TrimRight(s[..|s| - 1], cls) else s
  }

  /** TrimRight leaves a prefix that does not end with a character of the class. */
  lemma {:induction false} TrimRightShape(s: string, cls: CharClass)
    ensures |TrimRight(s, cls)| <= |s| && TrimRight(s, cls) == s[..|TrimRight(s, cls)|]
    ensures TrimRight(s, cls) == [] || !InClass(TrimRight(s, cls)[|TrimRight(s, cls)| - 1], cls)
    decreases |s|
  {
    if |s| > 0 && InClass(s[|s| - 1], cls) {
      TrimRightShape(s[..|s| - 1], cls);
    }
  }

  /** Go's strings.TrimSpace. */
  function TrimSpace(s: string): string { TrimRight(TrimLeft(s, GoSpace), GoSpace) }

  /** Trimming both ends twice trims nothing more. */
  lemma TrimIdempotent(s: string, cls: CharClass)
    ensures TrimRight(TrimLeft(TrimRight(TrimLeft(s, cls), cls), cls), cls) == TrimRight(TrimLeft(s, cls), cls)
  {
    var l := TrimLeft(s, cls);
    var t := TrimRight(l, cls);
    TrimLeftShape(s, cls);
    TrimRightShape(l, cls);
    TrimLeftShape(t, cls);
    if t != [] {
      assert t[0] == l[0];
      assert TrimLeft(t, cls) == t;
      TrimRightShape(t, cls);
      assert TrimRight(t, cls) == t;
    }
  }

  /** strings.TrimSpace is idempotent. */
  lemma TrimSpaceIdempotent(s: string)
    ensures TrimSpace(TrimSpace(s)) == TrimSpace(s)
  {
    TrimIdempotent(s, GoSpace);
  }

  /** Lower-casing twice changes nothing more. */
  lemma ToLowerIdempotent(s: string)
    ensures ToLower(ToLower(s)) == ToLower(s)
  {
  }

  /** Python's str.strip() with no argument. */
  function PyStrip(s: string): string { TrimRight(TrimLeft(s, PySpace), PySpace) }

  /** Index of the first `c` in `s`, or -1. */
  function IndexOf<T(==)>(s: seq<T>, c: T): (r: int)
    ensures -1 <= r < |s|
    ensures r >= 0 ==> s[r] == c && c !in s[..r]
    ensures r < 0 ==> c !in s
  {
    if |s| == 0 then -1
    else if s[0] == c then 0
    else
      var k := IndexOf(s[1..], c);
      if k < 0 then -1
      else
        assert s[..k + 1] == [s[0]] + s[1..][..k];
        k + 1
  }

  /** Index of the last `c` in `s`, or -1 (strings.LastIndex with a one-element needle). */
  function LastIndexOf<T(==)>(s: seq<T>, c: T): (r: int)
    ensures -1 <= r < |s|
    ensures r >= 0 ==> s[r] == c && c !in s[r + 1..]
    ensures r < 0 ==> c !in s
  {
    if |s| == 0 then -1
    else if s[|s| - 1] == c then |s| - 1
    else
      var k := LastIndexOf(s[..|s| - 1], c);
      assert k >= 0 ==> s[k + 1..] == s[..|s| - 1][k + 1..] + [s[|s| - 1]];
      assert k < 0 ==> s == s[..|s| - 1] + [s[|s| - 1]];
      k
  }

  /** strings.Split with a one-element separator: never empty, pieces free of `sep`. */
  function Split<T(==)>(s: seq<T>, sep: T): (parts: seq<seq<T>>)
    ensures |parts| >= 1
    decreases |s|
  {
    var k := IndexOf(s, sep);
    if k < 0 then [s] else [s[..k]] + Split(s[k + 1..], sep)
  }

  /** No part of a split holds the separator. */
  lemma {:induction false} SplitPieces<T>(s: seq<T>, sep: T)
    ensures forall i :: 0 <= i < |Split(s, sep)| ==> sep !in Split(s, sep)[i]
    decreases |s|
  {
    var k := IndexOf(s, sep);
    if k >= 0 {
      SplitPieces(s[k + 1..], sep);
      assert Split(s, sep) == [s[..k]] + Split(s[k + 1..], sep);
    }
  }

  /** strings.SplitN with a one-element separator and n >= 1: at most n pieces, the last one unsplit. */
  function SplitN<T(==)>(s: seq<T>, sep: T, n: nat): (parts: seq<seq<T>>)
    requires n >= 1
    ensures 1 <= |parts| <= n
    decreases n
  {
    var k := IndexOf(s, sep);
    if n == 1 || k < 0 then [s] else [s[..k]] + SplitN(s[k + 1..], sep, n - 1)
  }

  /** strings.Join with a one-element separator. */
  function Join<T(==)>(parts: seq<seq<T>>, sep: T): seq<T>
  {
    if |parts| == 0 then []
    else if |parts| == 1 then parts[0]
    else parts[0] + [sep] + Join(parts[1..], sep)
  }

  lemma JoinPair<T>(a: seq<T>, b: seq<T>, sep: T)
    ensures Join([a, b], sep) == a + [sep] + b
  {
    assert [a, b][1..] == [b];
  }

  lemma JoinTriple<T>(a: seq<T>, b: seq<T>, c: seq<T>, sep: T)
    ensures Join([a, b, c], sep) == a + [sep] + b + [sep] + c
  {
    assert [a, b, c][1..] == [b, c];
    JoinPair(b, c, sep);
  }

  /** The first `c` is at k when s[k] is `c` and no `c` comes before it. */
  lemma IndexOfAt<T>(s: seq<T>, c: T, k: nat)
    requires k < |s| && s[k] == c && c !in s[..k]
    ensures IndexOf(s, c) == k
  {
    assert s[k] in s;
    assert forall j :: 0 <= j < k ==> s[..k][j] == s[j];
  }

  /** A piece appended after a separator becomes one more part of the split. */
  lemma {:induction false} SplitAppend<T>(a: seq<T>, b: seq<T>, sep: T)
    requires sep !in b
    ensures Split(a + [sep] + b, sep) == Split(a, sep) + [b]
    decreases |a|
  {
    var s := a + [sep] + b;
    var k := IndexOf(a, sep);
    assert s[..|a|] == a;
    if k < 0 {
      IndexOfAt(s, sep, |a|);
      assert s[|a| + 1..] == b;
    } else {
      assert s[..k] == a[..k];
      IndexOfAt(s, sep, k);
      assert s[k + 1..] == a[k + 1..] + [sep] + b;
      SplitAppend(a[k + 1..], b, sep);
    }
  }

  /** Splitting "a<sep>b" with no separator in a or b gives the two pieces. */
  lemma SplitTwo<T>(a: seq<T>, b: seq<T>, sep: T)
    requires sep !in a && sep !in b
    ensures Split(a + [sep] + b, sep) == [a, b]
  {
    JoinPair(a, b, sep);
    SplitJoin([a, b], sep);
  }

  /** Splitting "a<sep>b<sep>c" with no separator in the pieces gives the three pieces. */
  lemma SplitThree<T>(a: seq<T>, b: seq<T>, c: seq<T>, sep: T)
    requires sep !in a && sep !in b && sep !in c
    ensures Split(a + [sep] + b + [sep] + c, sep) == [a, b, c]
  {
    JoinTriple(a, b, c, sep);
    SplitJoin([a, b, c], sep);
  }

  /** The last `c` is at k when s[k] is `c` and no `c` comes after it. */
  lemma LastIndexOfAt<T>(s: seq<T>, c: T, k: nat)
    requires k < |s| && s[k] == c && c !in s[k + 1..]
    ensures LastIndexOf(s, c) == k
  {
    assert s[k] in s;
    assert forall j :: k < j < |s| ==> s[j] == s[k + 1..][j - k - 1];
  }

  /** One more separator opens a new empty part. */
  lemma SplitSnocSep<T>(s: seq<T>, sep: T)
    ensures Split(s + [sep], sep) == Split(s, sep) + [[]]
  {
    assert s + [sep] == s + [sep] + [];
    SplitAppend(s, [], sep);
  }

  /** One more character that is not the separator extends the last part. */
  lemma SplitSnocOther<T>(s: seq<T>, c: T, sep: T)
    requires c != sep
    ensures var parts := Split(s, sep);
      Split(s + [c], sep) == parts[..|parts| - 1] + [parts[|parts| - 1] + [c]]
  {
    var k := LastIndexOf(s, sep);
    if k < 0 {
      assert sep !in s + [c];
      SplitFree(s, sep);
      SplitFree(s + [c], sep);
    } else {
      var a, last := s[..k], s[k + 1..];
      Reassemble(s, k);
      SplitAppend(a, last, sep);
      assert s + [c] == a + [sep] + (last + [c]);
      SplitAppend(a, last + [c], sep);
      ExtendLast(Split(a, sep), last, c);
    }
  }

  /** Extending the last of pre + [last] gives pre + [last + [c]]. */
  lemma ExtendLast<T>(pre: seq<seq<T>>, last: seq<T>, c: T)
    ensures var parts := pre + [last]; parts[..|parts| - 1] + [parts[|parts| - 1] + [c]] == pre + [last + [c]]
  {
    var parts := pre + [last];
    assert parts[..|parts| - 1] == pre;
  }

  /** One more character: a separator opens a new empty part, anything else extends the last one. */
  lemma SplitSnoc<T>(s: seq<T>, c: T, sep: T)
    ensures c == sep ==> Split(s + [c], sep) == Split(s, sep) + [[]]
    ensures c != sep ==>
      var parts := Split(s, sep);
      Split(s + [c], sep) == parts[..|parts| - 1] + [parts[|parts| - 1] + [c]]
  {
    if c == sep {
      SplitSnocSep(s, sep);
    } else {
      SplitSnocOther(s, c, sep);
    }
  }

  /** A split of x + y: the parts of x but the last, then the split of x's last part followed by y. */
  lemma {:induction false} SplitConcat<T>(x: seq<T>, y: seq<T>, sep: T)
    ensures Split(x + y, sep) == Split(x, sep)[..|Split(x, sep)| - 1] + Split(Split(x, sep)[|Split(x, sep)| - 1] + y, sep)
    decreases |x|
  {
    var k := IndexOf(x, sep);
    if k >= 0 {
      var rest := x[k + 1..];
      SplitConcat(rest, y, sep);
      SplitFirstPiece(x, y, sep, k);
      var pr, px := Split(rest, sep), Split(x, sep);
      assert px[..|px| - 1] == [x[..k]] + pr[..|pr| - 1] && px[|px| - 1] == pr[|pr| - 1];
    }
  }

  /** When the first separator of x is at k, x + y splits there too. */
  lemma SplitFirstPiece<T>(x: seq<T>, y: seq<T>, sep: T, k: int)
    requires k == IndexOf(x, sep) && k >= 0
    ensures Split(x, sep) == [x[..k]] + Split(x[k + 1..], sep)
    ensures Split(x + y, sep) == [x[..k]] + Split(x[k + 1..] + y, sep)
  {
    IndexOfConcat(x, y, sep, k);
    assert (x + y)[k + 1..] == x[k + 1..] + y && (x + y)[..k] == x[..k];
  }

  /** The first separator of x is the first one of x + y. */
  lemma IndexOfConcat<T>(x: seq<T>, y: seq<T>, sep: T, k: int)
    requires k == IndexOf(x, sep) && k >= 0
    ensures IndexOf(x + y, sep) == k
  {
    var s := x + y;
    assert s[..k] == x[..k];
    IndexOfAt(s, sep, k);
  }

  lemma SplitFree<T>(s: seq<T>, sep: T)
    requires sep !in s
    ensures Split(s, sep) == [s]
  {
  }

  /** The pieces that are not empty, in order. */
  function NonEmpty<T>(elems: seq<seq<T>>): (r: seq<seq<T>>)
    ensures forall i :: 0 <= i < |r| ==> r[i] != []
  {
    if elems == [] then []
    else if elems[0] == [] then NonEmpty(elems[1..])
    else [elems[0]] + NonEmpty(elems[1..])
  }

  lemma {:induction false} NonEmptyKeepsNonEmpty<T>(elems: seq<seq<T>>)
    requires forall i :: 0 <= i < |elems| ==> elems[i] != []
    ensures NonEmpty(elems) == elems
  {
    if elems != [] {
      NonEmptyKeepsNonEmpty(elems[1..]);
      assert elems == [elems[0]] + elems[1..];
    }
  }

  /** Dropping the empty pieces distributes over concatenation. */
  lemma {:induction false} NonEmptyAppend<T>(a: seq<seq<T>>, b: seq<seq<T>>)
    ensures NonEmpty(a + b) == NonEmpty(a) + NonEmpty(b)
  {
    if a != [] {
      NonEmptyAppend(a[1..], b);
      assert (a + b)[1..] == a[1..] + b;
    } else {
      assert a + b == b;
    }
  }

  /** Dropping the empty pieces of a sequence with one more piece at its end. */
  lemma NonEmptySnoc<T>(parts: seq<seq<T>>, x: seq<T>)
    ensures NonEmpty(parts + [x]) == if x == [] then NonEmpty(parts) else NonEmpty(parts) + [x]
  {
    NonEmptyAppend(parts, [x]);
    assert [x][1..] == [];
  }

  /** Joining the pieces of a split gives the input back. */
  lemma {:induction false} JoinSplit<T>(s: seq<T>, sep: T)
    ensures Join(Split(s, sep), sep) == s
    decreases |s|
  {
    var k := IndexOf(s, sep);
    if k >= 0 {
      var head, tail := s[..k], s[k + 1..];
      var rest := Split(tail, sep);
      JoinSplit(tail, sep);
      var parts := [head] + rest;
      assert Split(s, sep) == parts;
      assert |parts| >= 2 && parts[0] == head && parts[1..] == rest;
      assert Join(parts, sep) == head + [sep] + tail;
      Reassemble(s, k);
    }
  }

  lemma Reassemble<T>(s: seq<T>, k: nat)
    requires k < |s|
    ensures s == s[..k] + [s[k]] + s[k + 1..]
  {
    assert s[k..] == [s[k]] + s[k + 1..];
    assert s == s[..k] + s[k..];
  }

  /** A piece without the separator, then the separator: the split starts with that piece. */
  lemma SplitAtFirst<T>(head: seq<T>, tail: seq<T>, sep: T)
    requires sep !in head
    ensures Split(head + [sep] + tail, sep) == [head] + Split(tail, sep)
  {
    var s := head + [sep] + tail;
    IndexOfAt(s, sep, |head|);
    assert s[..|head|] == head && s[|head| + 1..] == tail;
  }

  /** Splitting a join of separator-free pieces gives the pieces back. */
  lemma {:induction false} SplitJoin<T>(parts: seq<seq<T>>, sep: T)
    requires |parts| >= 1
    requires forall i :: 0 <= i < |parts| ==> sep !in parts[i]
    ensures Split(Join(parts, sep), sep) == parts
    decreases |parts|
  {
    if |parts| > 1 {
      SplitJoin(parts[1..], sep);
      SplitAtFirst(parts[0], Join(parts[1..], sep), sep);
      assert parts == [parts[0]] + parts[1..];
    } else {
      assert Join(parts, sep) == parts[0];
    }
  }

  function Repeat(c: char, n: nat): (r: string)
    ensures |r| == n
    ensures forall i :: 0 <= i < n ==> r[i] == c
  {
    if n == 0 then "" else Repeat(c, n - 1) + [c]
  }

  function DigitChar(d: nat): (c: char)
    requires d < 10
    ensures IsDigit(c)
  {
    ('0' as int + d) as char
  }

  function DigitValue(c: char): (d: nat)
    requires IsDigit(c)
    ensures d < 10 && DigitChar(d) == c
  {
    c as int - '0' as int
  }

  predicate AllDigits(s: string) { forall i :: 0 <= i < |s| ==> IsDigit(s[i]) }

  /** Decimal rendering of a natural number, as `%d` and strconv.Itoa print it. */
  function NatToString(n: nat): (r: string)
    ensures |r| >= 1 && AllDigits(r)
    ensures r[0] != '0' || n == 0
    decreases n
  {
    if n < 10 then [DigitChar(n)] else NatToString(n / 10) + [DigitChar(n % 10)]
  }

  /** Decimal rendering of an integer: a minus sign before the magnitude when negative. */
  function IntToString(i: int): string
  {
    if i < 0 then "-" + NatToString(-i) else NatToString(i)
  }

  /** The value of a string of decimal digits. */
  function DigitsValue(s: string): nat
    requires AllDigits(s)
  {
    if s == [] then 0 else DigitsValue(s[..|s| - 1]) * 10 + DigitValue(s[|s| - 1])
  }

  /** A decimal amount, when s is one. */
  function ReadAmount(s: string): Option<nat>
  {
    if s != "" && AllDigits(s) then Some(DigitsValue(s)) else None
  }

  /** Reading back a rendered natural number gives the number. */
  lemma {:induction false} NatToStringRoundTrip(n: nat)
    ensures DigitsValue(NatToString(n)) == n
    decreases n
  {
    if n >= 10 {
      NatToStringRoundTrip(n / 10);
      var r := NatToString(n);
      assert r[..|r| - 1] == NatToString(n / 10);
    }
  }

  /** Distinct numbers render differently. */
  lemma NatToStringInjective(a: nat, b: nat)
    requires NatToString(a) == NatToString(b)
    ensures a == b
  {
    NatToStringRoundTrip(a);
    NatToStringRoundTrip(b);
  }

  /** A byte, as a number. */
  newtype Byte = x: int | 0 <= x < 256

  predicate IsLowerHex(c: char) { '0' <= c <= '9' || 'a' <= c <= 'f' }

  /** The lower-case hex digit of a value below 16. */
  function LowerHexDigit(d: nat): (c: char)
    requires d < 16
    ensures IsLowerHex(c)
  {
    if d < 10 then ('0' as int + d) as char else ('a' as int + d - 10) as char
  }

  function LowerHexValue(c: char): (d: nat)
    requires IsLowerHex(c)
    ensures d < 16 && LowerHexDigit(d) == c
  {
    if '0' <= c <= '9' then c as int - '0' as int else c as int - 'a' as int + 10
  }

  /** `%02x` of one byte: two lower-case hex digits. */
  function HexByte(b: Byte): (r: string)
    ensures |r| == 2 && IsLowerHex(r[0]) && IsLowerHex(r[1])
  {
    [LowerHexDigit(b as int / 16), LowerHexDigit(b as int % 16)]
  }

  /** `%02x` (or `%x`) of a byte slice: the bytes' hex pairs in order. */
  function HexBytes(bs: seq<Byte>): (r: string)
    ensures |r| == 2 * |bs|
    ensures forall i :: 0 <= i < |r| ==> IsLowerHex(r[i])
  {
    if bs == [] then "" else HexByte(bs[0]) + HexBytes(bs[1..])
  }

  /** Decoding a string of hex digit pairs back to bytes. */
  function UnhexBytes(s: string): seq<Byte>
    requires |s| % 2 == 0
    requires forall i :: 0 <= i < |s| ==> IsLowerHex(s[i])
  {
    if s == [] then [] else [(LowerHexValue(s[0]) * 16 + LowerHexValue(s[1])) as Byte] + UnhexBytes(s[2..])
  }

  lemma LowerHexDigitValue(d: nat)
    requires d < 16
    ensures LowerHexValue(LowerHexDigit(d)) == d
  {
  }

  /** Hex encoding is undone by decoding. */
  lemma {:induction false} HexRoundTrip(bs: seq<Byte>)
    ensures UnhexBytes(HexBytes(bs)) == bs
  {
    if bs != [] {
      HexRoundTrip(bs[1..]);
      var h := HexBytes(bs);
      assert h[2..] == HexBytes(bs[1..]);
      var hi, lo := bs[0] as int / 16, bs[0] as int % 16;
      LowerHexDigitValue(hi);
      LowerHexDigitValue(lo);
    }
  }
}
