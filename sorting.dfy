/**
 * Sorting as Python's sorted() does it for values with a strict total order, and the two
 * orders the dead-code detector sorts by: strings by code point and paths by their parts.
 */
module Sorting {

  ghost predicate Irreflexive<T(!new)>(lt: (T, T) -> bool) { forall x :: !lt(x, x) }

  ghost predicate Transitive<T(!new)>(lt: (T, T) -> bool) {
    forall x, y, z :: lt(x, y) && lt(y, z) ==> lt(x, z)
  }

  ghost predicate Connected<T(!new)>(lt: (T, T) -> bool) {
    forall x, y :: x != y ==> lt(x, y) || lt(y, x)
  }

  ghost predicate StrictTotalOrder<T(!new)>(lt: (T, T) -> bool) {
    Irreflexive(lt) && Transitive(lt) && Connected(lt)
  }

  /** No element is smaller than one before it. */
  ghost predicate SortedBy<T>(s: seq<T>, lt: (T, T) -> bool) {
    forall i, j :: 0 <= i < j < |s| ==> !lt(s[j], s[i])
  }

  /** Put x before the first element that is not smaller than it. */
  function Insert<T>(x: T, s: seq<T>, lt: (T, T) -> bool): seq<T>
  {
    if s == [] || !lt(s[0], x) then [x] + s else [s[0]] + Insert(x, s[1..], lt)
  }

  /** Insertion sort. */
  function Sort<T>(s: seq<T>, lt: (T, T) -> bool): seq<T>
  {
    if s == [] then [] else Insert(s[0], Sort(s[1..], lt), lt)
  }

  lemma {:induction false} InsertPermutes<T>(x: T, s: seq<T>, lt: (T, T) -> bool)
    ensures multiset(Insert(x, s, lt)) == multiset{x} + multiset(s)
  {
    if s != [] && lt(s[0], x) {
      InsertPermutes(x, s[1..], lt);
      assert s == [s[0]] + s[1..];
    }
  }

  /** "Not smaller than" is transitive under a strict total order. */
  lemma NotBelowChain<T(!new)>(a: T, b: T, c: T, lt: (T, T) -> bool)
    requires StrictTotalOrder(lt)
    requires !lt(b, a) && !lt(c, b)
    ensures !lt(c, a)
  {
  }

  lemma Asymmetric<T(!new)>(a: T, b: T, lt: (T, T) -> bool)
    requires StrictTotalOrder(lt)
    requires lt(a, b)
    ensures !lt(b, a)
  {
  }

  /** Every element of the insertion is x or an element of s. */
  lemma {:induction false} InsertElements<T>(x: T, s: seq<T>, lt: (T, T) -> bool, j: nat)
    requires j < |Insert(x, s, lt)|
    ensures Insert(x, s, lt)[j] == x || exists k :: 0 <= k < |s| && s[k] == Insert(x, s, lt)[j]
  {
    InsertPermutes(x, s, lt);
    var y := Insert(x, s, lt)[j];
    assert y in multiset(Insert(x, s, lt));
    if y != x {
      assert y in multiset(s);
      assert y in s;
    }
  }

  lemma {:induction false} InsertSorted<T(!new)>(x: T, s: seq<T>, lt: (T, T) -> bool)
    requires StrictTotalOrder(lt)
    requires SortedBy(s, lt)
    ensures SortedBy(Insert(x, s, lt), lt)
  {
    if s == [] {
    } else if !lt(s[0], x) {
      forall j | 0 < j < |s| ensures !lt(s[j], x) { NotBelowChain(x, s[0], s[j], lt); }
      assert forall j :: 0 < j < |s| + 1 ==> ([x] + s)[j] == s[j - 1];
    } else {
      var t := s[1..];
      assert SortedBy(t, lt);
      InsertSorted(x, t, lt);
      var r := Insert(x, t, lt);
      forall j | 0 <= j < |r| ensures !lt(r[j], s[0]) {
        InsertElements(x, t, lt, j);
        if r[j] == x {
          Asymmetric(s[0], x, lt);
        } else {
          var k :| 0 <= k < |t| && t[k] == r[j];
          assert s[k + 1] == r[j];
        }
      }
      assert Insert(x, s, lt) == [s[0]] + r;
    }
  }

  /** Sort orders its input: the result is sorted and a permutation of the input. */
  lemma {:induction false} SortCorrect<T(!new)>(s: seq<T>, lt: (T, T) -> bool)
    requires StrictTotalOrder(lt)
    ensures SortedBy(Sort(s, lt), lt)
    ensures multiset(Sort(s, lt)) == multiset(s)
  {
    if s != [] {
      SortCorrect(s[1..], lt);
      InsertSorted(s[0], Sort(s[1..], lt), lt);
      InsertPermutes(s[0], Sort(s[1..], lt), lt);
      assert s == [s[0]] + s[1..];
    }
  }

  /** Lexicographic order of sequences built from an order of their elements. */
  function Lex<T(==)>(a: seq<T>, b: seq<T>, lt: (T, T) -> bool): bool
  {
    if a == [] then b != []
    else if b == [] then false
    else if a[0] != b[0] then lt(a[0], b[0])
    else Lex(a[1..], b[1..], lt)
  }

  lemma {:induction false} LexIrreflexive<T>(a: seq<T>, lt: (T, T) -> bool)
    requires forall x :: !lt(x, x)
    ensures !Lex(a, a, lt)
  {
    if a != [] { LexIrreflexive(a[1..], lt); }
  }

  lemma {:induction false} LexTransitive<T>(a: seq<T>, b: seq<T>, c: seq<T>, lt: (T, T) -> bool)
    requires forall x, y, z :: lt(x, y) && lt(y, z) ==> lt(x, z)
    requires forall x, y :: lt(x, y) ==> !lt(y, x)
    requires Lex(a, b, lt) && Lex(b, c, lt)
    ensures Lex(a, c, lt)
  {
    if a != [] && b != [] && c != [] && a[0] == b[0] && b[0] == c[0] {
      LexTransitive(a[1..], b[1..], c[1..], lt);
    }
  }

  lemma {:induction false} LexConnected<T>(a: seq<T>, b: seq<T>, lt: (T, T) -> bool)
    requires forall x, y :: x != y ==> lt(x, y) || lt(y, x)
    requires a != b
    ensures Lex(a, b, lt) || Lex(b, a, lt)
  {
    if a != [] && b != [] && a[0] == b[0] {
      assert a == [a[0]] + a[1..] && b == [b[0]] + b[1..];
      LexConnected(a[1..], b[1..], lt);
    }
  }

  predicate CharLt(x: char, y: char) { x < y }

  /** Python's `<` on str: code point by code point, a proper prefix first. */
  predicate StrLt(a: string, b: string) { Lex(a, b, CharLt) }

  /** Python's `<` on pure paths: part by part. */
  predicate PathLt(p: seq<string>, q: seq<string>) { Lex(p, q, StrLt) }

  lemma StrLtIsStrictTotal()
    ensures StrictTotalOrder(StrLt)
  {
    forall a: string ensures !StrLt(a, a) { LexIrreflexive(a, CharLt); }
    forall a: string, b: string, c: string | StrLt(a, b) && StrLt(b, c) ensures StrLt(a, c) {
      LexTransitive(a, b, c, CharLt);
    }
    forall a: string, b: string | a != b ensures StrLt(a, b) || StrLt(b, a) {
      LexConnected(a, b, CharLt);
    }
  }

  lemma PathLtIsStrictTotal()
    ensures StrictTotalOrder(PathLt)
  {
    StrLtIsStrictTotal();
    forall a: string, b: string | StrLt(a, b) ensures !StrLt(b, a) {
      if StrLt(b, a) { LexTransitive(a, b, a, CharLt); LexIrreflexive(a, CharLt); }
    }
    forall p: seq<string> ensures !PathLt(p, p) { LexIrreflexive(p, StrLt); }
    forall p: seq<string>, q: seq<string>, r: seq<string> | PathLt(p, q) && PathLt(q, r)
      ensures PathLt(p, r)
    {
      LexTransitive(p, q, r, StrLt);
    }
    forall p: seq<string>, q: seq<string> | p != q ensures PathLt(p, q) || PathLt(q, p) {
      LexConnected(p, q, StrLt);
    }
  }
}
