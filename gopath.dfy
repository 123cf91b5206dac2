/**
 * Go's path/filepath on a Unix host: Clean, Base, Dir and Join, which the modelled code uses to
 * take names out of paths. The separator is '/'; volume names do not exist.
 */
module GoPath {
  import opened Text

  /** A path element that Clean keeps as it is. */
  predicate PlainElement(s: string) { s != "" && s != "." && s != ".." && '/' !in s }

  /**
   * The element stack Clean builds: empty and "." elements vanish, ".." removes the previous
   * real element, is dropped at the root of a rooted path and is kept at the front otherwise.
   */
  function CleanElements(elems: seq<string>, rooted: bool, stack: seq<string>): seq<string>
    decreases |elems|
  {
    if elems == [] then stack
    else
      var e := elems[0];
      var next :=
        if e == "" || e == "." then stack
        else if e == ".." then
          (if |stack| > 0 && stack[|stack| - 1] != ".." then stack[..|stack| - 1]
           else if rooted then stack
           else stack + [".."])
        else stack + [e];
      CleanElements(elems[1..], rooted, next)
  }

  /** filepath.Clean: the shortest lexically equivalent path; "." for an empty result. */
  function Clean(p: string): (r: string)
    ensures r != ""
  {
    if p == "" then "."
    else
      var rooted := p[0] == '/';
      var body := Join(CleanElements(Split(p, '/'), rooted, []), '/');
      if rooted then "/" + body else if body == "" then "." else body
  }

  /** filepath.Base: the last element after trailing slashes are removed; "." for "", "/" for all slashes. */
  function Base(p: string): (r: string)
    ensures r != ""
    ensures r == "/" || r == "." || '/' !in r
  {
    if p == "" then "."
    else
      var q := TrimRight(p, Slash);
      var i := LastIndexOf(q, '/');
      var tail := if i >= 0 then q[i + 1..] else q;
      if tail == "" then "/" else tail
  }

  /** filepath.Dir: everything up to the last slash, cleaned. */
  function Dir(p: string): (r: string)
    ensures r != ""
  {
    Clean(p[..LastIndexOf(p, '/') + 1])
  }

  /** filepath.Join: the non-empty elements joined by slashes and cleaned; "" when all are empty. */
  function JoinPath(elems: seq<string>): string
  {
    var ne := NonEmpty(elems);
    if ne == [] then "" else Clean(Join(ne, '/'))
  }

  /** Clean pushes every plain element and keeps the stack it started with. */
  lemma {:induction false} CleanElementsPlain(elems: seq<string>, rooted: bool, stack: seq<string>)
    requires forall i :: 0 <= i < |elems| ==> PlainElement(elems[i])
    ensures CleanElements(elems, rooted, stack) == stack + elems
    decreases |elems|
  {
    if elems != [] {
      CleanElementsPlain(elems[1..], rooted, stack + [elems[0]]);
      assert stack + [elems[0]] + elems[1..] == stack + elems;
    }
  }

  lemma {:induction false} JoinStartsWith(elems: seq<string>, sep: char)
    requires |elems| >= 1 && elems[0] != ""
    ensures Join(elems, sep) != "" && Join(elems, sep)[0] == elems[0][0]
  {
    if |elems| > 1 {
      assert Join(elems, sep) == elems[0] + ([sep] + Join(elems[1..], sep));
    }
  }

  /** A relative path made of plain elements is already clean. */
  lemma CleanOfPlainPath(elems: seq<string>)
    requires |elems| >= 1
    requires forall i :: 0 <= i < |elems| ==> PlainElement(elems[i])
    ensures Clean(Join(elems, '/')) == Join(elems, '/')
  {
    var p := Join(elems, '/');
    JoinStartsWith(elems, '/');
    assert p[0] != '/' by { assert p[0] == elems[0][0]; assert elems[0][0] in elems[0]; }
    SplitJoin(elems, '/');
    CleanElementsPlain(elems, false, []);
    assert [] + elems == elems;
  }

  /** The last element of a path whose final piece follows a slash (or stands alone). */
  lemma BaseAfterSlash(dir: string, file: string)
    requires file != "" && '/' !in file
    requires dir == "" || dir[|dir| - 1] == '/'
    ensures Base(dir + file) == file
  {
    var p := dir + file;
    assert p[|p| - 1] == file[|file| - 1];
    assert TrimRight(p, Slash) == p;
    if dir == "" {
      assert p == file;
    } else {
      assert p[|dir| + 1..] == file[1..];
      LastIndexOfAt(p, '/', |dir| - 1);
    }
  }

  /** Clean works through the elements one after the other. */
  lemma {:induction false} CleanElementsAppend(a: seq<string>, b: seq<string>, rooted: bool, stack: seq<string>)
    ensures CleanElements(a + b, rooted, stack) == CleanElements(b, rooted, CleanElements(a, rooted, stack))
    decreases |a|
  {
    if a == [] {
      assert a + b == b;
    } else {
      assert (a + b)[0] == a[0] && (a + b)[1..] == a[1..] + b;
      var e := a[0];
      var next :=
        if e == "" || e == "." then stack
        else if e == ".." then
          (if |stack| > 0 && stack[|stack| - 1] != ".." then stack[..|stack| - 1]
           else if rooted then stack
           else stack + [".."])
        else stack + [e];
      CleanElementsAppend(a[1..], b, rooted, next);
    }
  }

  lemma {:induction false} JoinSnoc(parts: seq<string>, x: string, sep: char)
    ensures Join(parts + [x], sep) == if parts == [] then x else Join(parts, sep) + [sep] + x
  {
    if |parts| == 1 {
      assert parts + [x] == [parts[0], x];
      JoinPair(parts[0], x, sep);
    } else if |parts| > 1 {
      JoinSnoc(parts[1..], x, sep);
      assert (parts + [x])[1..] == parts[1..] + [x];
    }
  }

  /** A directory path ending in a plain element and a slash splits into earlier parts, the element and "". */
  lemma SplitDirectory(prefix: string, dir: string) returns (elems: seq<string>)
    requires '/' !in dir
    requires prefix == "" || prefix[|prefix| - 1] == '/'
    ensures Split(prefix + dir + "/", '/') == elems + [dir, ""]
  {
    var q := prefix + dir + "/";
    if prefix == "" {
      assert q == dir + "/" + "";
      SplitTwo(dir, "", '/');
      elems := [];
    } else {
      var pre := prefix[..|prefix| - 1];
      assert q == pre + "/" + dir + "/" + "";
      SplitAppend(pre + "/" + dir, "", '/');
      SplitAppend(pre, dir, '/');
      elems := Split(pre, '/');
    }
  }

  lemma CleanLastTwo(dir: string, rooted: bool, stack: seq<string>)
    requires PlainElement(dir)
    ensures CleanElements([dir, ""], rooted, stack) == stack + [dir]
  {
    assert [dir, ""][1..] == [""];
    assert [""][1..] == [];
  }

  /** Clean of such a path: the cleaned earlier parts with the element after them. */
  lemma CleanOfDirectory(q: string, elems: seq<string>, dir: string)
    requires q != "" && PlainElement(dir) && Split(q, '/') == elems + [dir, ""]
    ensures Clean(q) == (if q[0] == '/' then "/" else "") + Join(CleanElements(elems, q[0] == '/', []) + [dir], '/')
  {
    var rooted := q[0] == '/';
    CleanElementsAppend(elems, [dir, ""], rooted, []);
    CleanLastTwo(dir, rooted, CleanElements(elems, rooted, []));
    var stack := CleanElements(elems, rooted, []);
    JoinSnoc(stack, dir, '/');
  }

  /**
   * Cleaning a directory path that ends in a plain element and a slash: the element stays the
   * last one, after an empty text or a slash.
   */
  lemma CleanDirectory(prefix: string, dir: string) returns (d: string)
    requires PlainElement(dir)
    requires prefix == "" || prefix[|prefix| - 1] == '/'
    ensures Clean(prefix + dir + "/") == d + dir && (d == "" || d[|d| - 1] == '/')
  {
    var q := prefix + dir + "/";
    var elems := SplitDirectory(prefix, dir);
    CleanOfDirectory(q, elems, dir);
    var rooted := q[0] == '/';
    var stack := CleanElements(elems, rooted, []);
    JoinSnoc(stack, dir, '/');
    var lead := if rooted then "/" else "";
    d := if stack == [] then lead else lead + Join(stack, '/') + "/";
    assert Clean(q) == d + dir;
  }

  /** An element Clean leaves in its result: not empty, not "." and without a slash. */
  predicate KeptElement(s: string) { s != "" && s != "." && '/' !in s }

  /** Clean keeps only such elements when the input elements are free of slashes. */
  lemma {:induction false} CleanElementsKept(elems: seq<string>, rooted: bool, stack: seq<string>)
    requires forall i :: 0 <= i < |elems| ==> '/' !in elems[i]
    requires forall i :: 0 <= i < |stack| ==> KeptElement(stack[i])
    ensures forall i :: 0 <= i < |CleanElements(elems, rooted, stack)| ==> KeptElement(CleanElements(elems, rooted, stack)[i])
    decreases |elems|
  {
    if elems != [] {
      var e := elems[0];
      var next :=
        if e == "" || e == "." then stack
        else if e == ".." then
          (if |stack| > 0 && stack[|stack| - 1] != ".." then stack[..|stack| - 1]
           else if rooted then stack
           else stack + [".."])
        else stack + [e];
      assert forall i :: 0 <= i < |elems[1..]| ==> elems[1..][i] == elems[i + 1];
      CleanElementsKept(elems[1..], rooted, next);
    }
  }

  /** The base name of a path of kept elements, after an empty text or a slash, is its last element. */
  lemma BaseOfElements(lead: string, init: seq<string>, last: string)
    requires lead == "" || lead == "/"
    requires KeptElement(last)
    ensures Base(lead + Join(init + [last], '/')) == last
  {
    JoinSnoc(init, last, '/');
    var d := if init == [] then lead else lead + Join(init, '/') + "/";
    LeadJoin(lead, init, last, d);
    BaseAfterSlash(d, last);
  }

  lemma LeadJoin(lead: string, init: seq<string>, last: string, d: string)
    requires lead == "" || lead == "/"
    requires Join(init + [last], '/') == if init == [] then last else Join(init, '/') + ['/'] + last
    requires d == if init == [] then lead else lead + Join(init, '/') + "/"
    ensures lead + Join(init + [last], '/') == d + last
    ensures d == "" || d[|d| - 1] == '/'
  {
  }

  /** The root's base name is the root. */
  lemma BaseOfRoot()
    ensures Base("/") == "/"
  {
    assert TrimRight("/"[..0], Slash) == "";
  }

  /** A cleaned path other than "." does not end in a "." element: its base name is never ".". */
  lemma CleanBaseNotDot(p: string)
    requires Clean(p) != "."
    ensures Base(Clean(p)) != "."
  {
    var rooted := p[0] == '/';
    SplitPieces(p, '/');
    CleanElementsKept(Split(p, '/'), rooted, []);
    var es := CleanElements(Split(p, '/'), rooted, []);
    var lead := if rooted then "/" else "";
    CleanIsLeadAndElements(p, es, lead);
    if es == [] {
      BaseOfRoot();
    } else {
      var init, last := es[..|es| - 1], es[|es| - 1];
      assert es == init + [last];
      BaseOfElements(lead, init, last);
    }
  }

  /** Clean other than ".": the root slash, if any, before the cleaned elements; a relative one has some. */
  lemma CleanIsLeadAndElements(p: string, es: seq<string>, lead: string)
    requires Clean(p) != "."
    requires p != "" && es == CleanElements(Split(p, '/'), p[0] == '/', [])
    requires lead == if p[0] == '/' then "/" else ""
    ensures Clean(p) == lead + Join(es, '/')
    ensures es == [] ==> lead == "/"
  {
  }
}
