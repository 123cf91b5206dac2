/**
 * The dead-code detector for Go trees: select the *.go files of the walk, extract the names
 * declared by `func` lines, count how often each name occurs as a word token, classify every
 * name as Dead, LowUsage, Excluded or Normal, and render the text report.
 *
 * The file system is a map from relative paths to the lines the reader yields (a file that
 * cannot be read or decoded yields the lines before the failure, possibly none); the walk is
 * the sequence of paths the recursive glob enumerates, in its own order.
 */
module DeadCode {
  import opened Wrappers
  import opened Text
  import opened Sorting

  /** A path relative to the working directory, as its parts. */
  type Path = seq<string>

  datatype File = File(lines: seq<string>)

  type Tree = map<Path, File>

  /** A definition site: the file (as printed) and the 1-based line number. */
  datatype Site = Site(file: string, line: nat)

  /** A reference record: "file:line" and the stripped line cut to 80 characters. */
  datatype Reference = Reference(location: string, context: string)

  /** One line of one file, as the two passes see it. */
  datatype Located = Located(file: string, number: nat, text: string)

  /** The command-line options. `maxRefs` is not range-checked by the tool. */
  datatype Options = Options(
    maxRefs: int, includeExported: bool, includeTests: bool,
    summary: bool, showRefs: bool, allLowUsage: bool)

  /** A Python dict from names to lists: its keys in insertion order and its contents. */
  datatype Dict<V> = Dict(order: seq<string>, entries: map<string, seq<V>>)

  datatype Category = Excluded | Dead | LowUsage | Normal

  datatype DeadItem = DeadItem(name: string, refCount: nat, definitions: seq<Site>)

  datatype LowItem = LowItem(name: string, refCount: nat, defCount: nat, definitions: seq<Site>)

  datatype RunResult =
    | NoGoFiles     // "[ERROR] No Go files found in current directory" on stderr, nothing on stdout
    | NoFunctions   // "[ERROR] No functions found" on stderr, nothing on stdout
    | Report(lines: seq<string>)  // the arguments of the successive print() calls

  const ExcludedDirs: set<string> := {"vendor", ".git", "testdata", "mocks"}

  const MaxLowUsageShown: nat := 20

  // ---------------------------------------------------------------- Tree walker

  /** The glob "*.go" applied to an entry name. */
  predicate IsGoName(p: Path) { |p| > 0 && HasSuffix(p[|p| - 1], ".go") }

  predicate NoExcludedPart(parts: seq<string>) { forall i :: 0 <= i < |parts| ==> parts[i] !in ExcludedDirs }

  /** The walk entries kept, in walk order: Go names without an excluded directory in their relative path. */
  function Select(walk: seq<Path>): (r: seq<Path>)
    ensures forall i :: 0 <= i < |r| ==> IsGoName(r[i]) && NoExcludedPart(r[i])
    ensures forall p :: p in r <==> p in walk && IsGoName(p) && NoExcludedPart(p)
  {
    if walk == [] then []
    else
      var rest := Select(walk[..|walk| - 1]);
      var p := walk[|walk| - 1];
      assert walk == walk[..|walk| - 1] + [p];
      if IsGoName(p) && NoExcludedPart(p) then rest + [p] else rest
  }

  /**
   * The selection exactly as the script writes it: the excluded names are looked for among the
   * parts of the ABSOLUTE path, so the directories above the working directory count too.
   */
  function SelectAsWritten(root: seq<string>, walk: seq<Path>): (r: seq<Path>)
    ensures forall p :: p in r <==> p in walk && IsGoName(p) && NoExcludedPart(root + p)
  {
    if walk == [] then []
    else
      var rest := SelectAsWritten(root, walk[..|walk| - 1]);
      var p := walk[|walk| - 1];
      assert walk == walk[..|walk| - 1] + [p];
      if IsGoName(p) && NoExcludedPart(root + p) then rest + [p] else rest
  }

  /** Working in a project below a directory called "mocks" loses every file. */
  lemma SelectAsWrittenLosesFilesUnderExcludedAncestor()
    ensures SelectAsWritten(["/", "home", "mocks", "project"], [["main.go"]]) == []
    ensures Select([["main.go"]]) == [["main.go"]]
  {
    var root := ["/", "home", "mocks", "project"];
    assert (root + ["main.go"])[2] == "mocks";
    assert HasSuffix("main.go", ".go");
  }

  /** find_files: the selected paths, sorted by parts. */
  method FindFiles(walk: seq<Path>) returns (files: seq<Path>)
    ensures files == Sort(Select(walk), PathLt)
    ensures SortedBy(files, PathLt)
    ensures multiset(files) == multiset(Select(walk))
    ensures forall p :: p in files <==> p in walk && IsGoName(p) && NoExcludedPart(p)
  {
    var results: seq<Path> := [];
    var i := 0;
    while i < |walk|
      invariant 0 <= i <= |walk|
      invariant results == Select(walk[..i])
    {
      var path := walk[i];
      assert walk[..i + 1] == walk[..i] + [path];
      if IsGoName(path) && NoExcludedPart(path) {
        results := results + [path];
      }
      i := i + 1;
    }
    assert walk[..i] == walk;
    files := Sort(results, PathLt);
    PathLtIsStrictTotal();
    SortCorrect(results, PathLt);
    forall p ensures p in files <==> p in results {
      assert p in files <==> p in multiset(files);
      assert p in results <==> p in multiset(results);
    }
  }

  /** str() of a relative path. */
  function PathString(p: Path): string { Join(p, '/') }

  // ---------------------------------------------------------------- File reader

  function FileLines(path: Path, lines: seq<string>): (r: seq<Located>)
    ensures |r| == |lines|
    ensures forall k :: 0 <= k < |lines| ==> r[k] == Located(PathString(path), k + 1, lines[k])
  {
    seq(|lines|, k requires 0 <= k < |lines| => Located(PathString(path), k + 1, lines[k]))
  }

  /** Every line of every file, files in the given order, lines in file order. */
  function Lines(files: seq<Path>, tree: Tree): seq<Located>
    requires forall i :: 0 <= i < |files| ==> files[i] in tree
  {
    if files == [] then []
    else
      var last := files[|files| - 1];
      Lines(files[..|files| - 1], tree) + FileLines(last, tree[last].lines)
  }

  // ---------------------------------------------------------------- Definition extractor

  /** The first index at or after i that is not white space (`\s*`). */
  function SkipSpaces(s: string, i: nat): (j: nat)
    requires i <= |s|
    ensures i <= j <= |s|
    ensures forall k :: i <= k < j ==> IsPySpace(s[k])
    ensures j == |s| || !IsPySpace(s[j])
    decreases |s| - i
  {
    if i < |s| && IsPySpace(s[i]) then SkipSpaces(s, i + 1) else i
  }

  /** Length of the longest prefix made of word characters. */
  function WordPrefixLen(s: string): (k: nat)
    ensures k <= |s|
    ensures forall i :: 0 <= i < k ==> IsWordChar(s[i])
    ensures k == |s| || !IsWordChar(s[k])
  {
    if s != [] && IsWordChar(s[0]) then 1 + WordPrefixLen(s[1..]) else 0
  }

  /** What `\w+` matches at i, or "" when it does not match. */
  function WordAt(s: string, i: nat): string
    requires i <= |s|
  {
    s[i..i + WordPrefixLen(s[i..])]
  }

  /** `\w+` at m: the name it captures, or None when no word character is there. */
  function NameAt(line: string, m: nat): (r: Option<string>)
    requires m <= |line|
    ensures r.Some? ==> r.value == WordAt(line, m) && r.value != ""
  {
    var w := WordAt(line, m);
    if w == "" then None else Some(w)
  }

  /** After "(": at least one non-")" character, ")", white space, then the name. */
  function MatchAfterReceiver(line: string, k: nat): Option<string>
    requires k < |line| && line[k] == '('
  {
    var c := CloseParen(line, k + 1);
    if c <= k + 1 then None else NameAfterBlanks(line, c + 1)
  }

  /** The position of the first ')' from i on, or -1. */
  function CloseParen(line: string, i: nat): (r: int)
    requires i <= |line|
    ensures r == -1 || (i <= r < |line| && line[r] == ')')
    ensures forall j :: i <= j < (if r < 0 then |line| else r) ==> line[j] != ')'
    decreases |line| - i
  {
    if i == |line| then -1 else if line[i] == ')' then i else CloseParen(line, i + 1)
  }

  /** At least one blank from `after` on, then the name. */
  function NameAfterBlanks(line: string, after: nat): Option<string>
    requires after <= |line|
  {
    var m := SkipSpaces(line, after);
    if m == after then None else NameAt(line, m)
  }

  /** After "func": white space, then either a receiver group or directly the name. */
  function MatchAfterKeyword(line: string, j: nat): Option<string>
    requires j <= |line|
  {
    var k := SkipSpaces(line, j);
    if k == j then None
    else if k < |line| && line[k] == '(' then MatchAfterReceiver(line, k)
    else NameAt(line, k)
  }

  /**
   * FUNC_PATTERN.match(line): optional white space, "func", white space, optionally a receiver
   * "(" + at least one non-")" character + ")" followed by white space, then the name `\w+`.
   * None when the line does not match. No backtracking alternative can succeed where this
   * fails: every optional part is followed by something its absence cannot supply.
   */
  function MatchFuncName(line: string): Option<string>
  {
    var i := SkipSpaces(line, 0);
    if !HasPrefix(line[i..], "func") then None else MatchAfterKeyword(line, i + 4)
  }

  function LineDef(l: Located): seq<(string, Site)>
  {
    match MatchFuncName(l.text)
    case Some(n) => [(n, Site(l.file, l.number))]
    case None => []
  }

  /** The (name, site) pairs of the definitions, in scan order. */
  function Defs(ls: seq<Located>): seq<(string, Site)>
  {
    if ls == [] then [] else Defs(ls[..|ls| - 1]) + LineDef(ls[|ls| - 1])
  }

  // ---------------------------------------------------------------- Reference scanner

  /** WORD_BOUNDARY.finditer(line): the maximal runs of word characters, left to right. */
  function Words(s: string): seq<string>
    decreases |s|
  {
    if s == [] then []
    else if !IsWordChar(s[0]) then Words(s[1..])
    else
      var k := WordPrefixLen(s);
      [s[..k]] + Words(s[k..])
  }

  function Take(s: string, n: nat): string { if |s| <= n then s else s[..n] }

  function RefsIn(words: seq<string>, names: set<string>, ref: Reference): seq<(string, Reference)>
  {
    if words == [] then []
    else (if words[0] in names then [(words[0], ref)] else []) + RefsIn(words[1..], names, ref)
  }

  function LineRefs(l: Located, names: set<string>): seq<(string, Reference)>
  {
    RefsIn(Words(l.text), names, LineReference(l))
  }

  /** The (name, reference) pairs of every known name's token occurrences, in scan order. */
  function Refs(ls: seq<Located>, names: set<string>): seq<(string, Reference)>
  {
    if ls == [] then [] else Refs(ls[..|ls| - 1], names) + LineRefs(ls[|ls| - 1], names)
  }

  // ---------------------------------------------------------------- Accumulators

  /** `d[k].append(v)` on a defaultdict(list): a new key goes to the end of the key order. */
  function Add<V>(d: Dict<V>, k: string, v: V): Dict<V>
  {
    if k in d.entries then Dict(d.order, d.entries[k := d.entries[k] + [v]])
    else Dict(d.order + [k], d.entries[k := [v]])
  }

  /** A defaultdict(list) filled by appending each pair's value under its key, in order. */
  function Collect<V>(ds: seq<(string, V)>): Dict<V>
  {
    if ds == [] then Dict([], map[])
    else Add(Collect(ds[..|ds| - 1]), ds[|ds| - 1].0, ds[|ds| - 1].1)
  }

  lemma CollectSnoc<V>(ds: seq<(string, V)>, k: string, v: V)
    ensures Collect(ds + [(k, v)]) == Add(Collect(ds), k, v)
  {
    assert (ds + [(k, v)])[..|ds|] == ds;
  }

  /** One more occurrence adds one to the key's count and leaves the other counts alone. */
  lemma CountsAdd<V>(d: Dict<V>, k: string, v: V)
    ensures Counts(Add(d, k, v)) == Counts(d)[k := RefCount(Counts(d), k) + 1]
  {
  }

  /** The values recorded under key k, in order. */
  function ValuesOf<V>(k: string, ds: seq<(string, V)>): seq<V>
  {
    if ds == [] then []
    else ValuesOf(k, ds[..|ds| - 1]) + (if ds[|ds| - 1].0 == k then [ds[|ds| - 1].1] else [])
  }

  function Hits<V>(k: string, ds: seq<(string, V)>): nat { |ValuesOf(k, ds)| }

  function Counts<V>(d: Dict<V>): map<string, nat>
  {
    map k | k in d.entries :: |d.entries[k]|
  }

  ghost predicate NoDuplicates<T>(s: seq<T>) { forall i, j :: 0 <= i < j < |s| ==> s[i] != s[j] }

  /** A collected dict holds, under each key that occurs, exactly the values of that key, and lists each key once. */
  lemma {:induction false} CollectContents<V>(ds: seq<(string, V)>)
    ensures forall k :: k in Collect(ds).entries <==> ValuesOf(k, ds) != []
    ensures forall k :: k in Collect(ds).entries ==> Collect(ds).entries[k] == ValuesOf(k, ds)
    ensures forall k :: k in Collect(ds).order <==> k in Collect(ds).entries
    ensures NoDuplicates(Collect(ds).order)
  {
    if ds != [] {
      var init, k, v := ds[..|ds| - 1], ds[|ds| - 1].0, ds[|ds| - 1].1;
      CollectContents(init);
      AddKeepsKeys(Collect(init), k, v);
      var d, e := Collect(init), Collect(ds).entries;
      forall key ensures (key in e <==> ValuesOf(key, ds) != []) && (key in e ==> e[key] == ValuesOf(key, ds)) {
        assert ValuesOf(key, ds) == ValuesOf(key, init) + (if key == k then [v] else []);
      }
    }
  }

  /** Adding a value keeps the key order listing exactly the keys, each once. */
  lemma AddKeepsKeys<V>(d: Dict<V>, k: string, v: V)
    requires forall key :: key in d.order <==> key in d.entries
    requires NoDuplicates(d.order)
    ensures forall key :: key in Add(d, k, v).order <==> key in Add(d, k, v).entries
    ensures NoDuplicates(Add(d, k, v).order)
  {
    if k !in d.entries {
      var o := d.order + [k];
      assert forall i :: 0 <= i < |d.order| ==> o[i] == d.order[i];
    }
  }

  /** Each recorded value list is non-empty: every symbol has at least one definition site. */
  lemma EveryCollectedKeyHasValues<V>(ds: seq<(string, V)>, k: string)
    requires k in Collect(ds).entries
    ensures |Collect(ds).entries[k]| >= 1
  {
    CollectContents(ds);
  }

  lemma {:induction false} ValuesOfAppend<V>(k: string, a: seq<(string, V)>, b: seq<(string, V)>)
    ensures ValuesOf(k, a + b) == ValuesOf(k, a) + ValuesOf(k, b)
    decreases |b|
  {
    if b == [] {
      assert a + b == a;
    } else {
      ValuesOfAppend(k, a, b[..|b| - 1]);
      assert (a + b)[..|a + b| - 1] == a + b[..|b| - 1];
    }
  }

  // ---------------------------------------------------------------- Definitions are references

  /** The word at m is the same when looked up in a suffix that still contains m. */
  lemma WordAtSuffix(s: string, k: nat, m: nat)
    requires k <= m <= |s|
    ensures WordAt(s[k..], m - k) == WordAt(s, m)
  {
    assert s[k..][m - k..] == s[m..];
    var l := WordPrefixLen(s[m..]);
    assert s[k..][m - k..m - k + l] == s[m..m + l];
  }

  /** A maximal word starting after a non-word character is one of the line's tokens. */
  lemma {:induction false} WordsContainRun(s: string, m: nat)
    requires m < |s| && IsWordChar(s[m])
    requires m == 0 || !IsWordChar(s[m - 1])
    ensures WordAt(s, m) in Words(s)
    decreases |s|
  {
    if !IsWordChar(s[0]) {
      WordAtSuffix(s, 1, m);
      WordsContainRun(s[1..], m - 1);
      assert Words(s) == Words(s[1..]);
    } else if m > 0 {
      var k := WordPrefixLen(s);
      assert k <= m - 1;
      WordAtSuffix(s, k, m);
      WordsContainRun(s[k..], m - k);
      assert Words(s) == [s[..k]] + Words(s[k..]);
    } else {
      assert Words(s) == [s[..WordPrefixLen(s)]] + Words(s[WordPrefixLen(s)..]);
    }
  }

  /** A name found right after white space is a word token of the line. */
  lemma NameAtIsWord(line: string, m: nat)
    requires 0 < m <= |line| && IsPySpace(line[m - 1])
    requires NameAt(line, m).Some?
    ensures NameAt(line, m).value in Words(line)
  {
    WordsContainRun(line, m);
  }

  lemma ReceiverNameIsWord(line: string, k: nat)
    requires k < |line| && line[k] == '('
    requires MatchAfterReceiver(line, k).Some?
    ensures MatchAfterReceiver(line, k).value in Words(line)
  {
    NameAfterBlanksIsWord(line, CloseParen(line, k + 1) + 1);
  }

  /** A name found after at least one blank is a word token of the line. */
  lemma NameAfterBlanksIsWord(line: string, after: nat)
    requires after <= |line| && NameAfterBlanks(line, after).Some?
    ensures NameAfterBlanks(line, after).value in Words(line)
  {
    var m := SkipSpaces(line, after);
    assert IsPySpace(line[m - 1]);
    NameAtIsWord(line, m);
  }

  lemma KeywordNameIsWord(line: string, j: nat)
    requires j <= |line|
    requires MatchAfterKeyword(line, j).Some?
    ensures MatchAfterKeyword(line, j).value in Words(line)
  {
    var k := SkipSpaces(line, j);
    if k < |line| && line[k] == '(' {
      ReceiverNameIsWord(line, k);
    } else {
      assert IsPySpace(line[k - 1]);
      NameAtIsWord(line, k);
    }
  }

  /** A name the extractor finds on a line is also a word token of that line. */
  lemma MatchIsWord(line: string)
    requires MatchFuncName(line).Some?
    ensures MatchFuncName(line).value in Words(line)
  {
    KeywordNameIsWord(line, SkipSpaces(line, 0) + 4);
  }

  lemma {:induction false} RefsInCountsWord(words: seq<string>, names: set<string>, ref: Reference, n: string)
    requires n in names && n in words
    ensures Hits(n, RefsIn(words, names, ref)) >= 1
  {
    var head: seq<(string, Reference)> := if words[0] in names then [(words[0], ref)] else [];
    ValuesOfAppend(n, head, RefsIn(words[1..], names, ref));
    if words[0] != n {
      RefsInCountsWord(words[1..], names, ref, n);
    } else {
      assert ValuesOf(n, head) == ValuesOf(n, []) + [ref];
    }
  }

  /**
   * For every known name, its token occurrences are at least its definitions: each
   * declaration line also contains the name as a token.
   */
  lemma {:induction false} ReferencesCoverDefinitions(ls: seq<Located>, names: set<string>, n: string)
    requires n in names
    ensures Hits(n, Refs(ls, names)) >= Hits(n, Defs(ls))
  {
    if ls != [] {
      var init, l := ls[..|ls| - 1], ls[|ls| - 1];
      ReferencesCoverDefinitions(init, names, n);
      ValuesOfAppend(n, Defs(init), LineDef(l));
      ValuesOfAppend(n, Refs(init, names), LineRefs(l, names));
      var d := MatchFuncName(l.text);
      if d.Some? && d.value == n {
        MatchIsWord(l.text);
        RefsInCountsWord(Words(l.text), names, LineReference(l), n);
        assert ValuesOf(n, LineDef(l)) == ValuesOf(n, []) + [Site(l.file, l.number)];
      } else {
        assert ValuesOf(n, LineDef(l)) == [] by {
          if d.Some? { assert ValuesOf(n, LineDef(l)) == ValuesOf(n, []) + []; }
        }
      }
    }
  }

  /** Scanning file i appends its lines after those of the earlier files. */
  lemma FileStep(files: seq<Path>, tree: Tree, i: nat)
    requires i < |files|
    requires forall k :: 0 <= k < |files| ==> files[k] in tree
    ensures Lines(files[..i + 1], tree) == Lines(files[..i], tree) + FileLines(files[i], tree[files[i]].lines)
  {
    assert files[..i + 1][..i] == files[..i];
  }

  lemma FileDone(before: seq<Located>, filename: Path, lines: seq<string>)
    ensures before + FileLines(filename, lines[..0]) == before
    ensures before + FileLines(filename, lines[..|lines|]) == before + FileLines(filename, lines)
  {
    assert lines[..|lines|] == lines;
  }

  /** Scanning line j of a file adds that line's definition after those of the earlier lines. */
  lemma DefLineStep(before: seq<Located>, filename: Path, lines: seq<string>, j: nat)
    requires j < |lines|
    ensures Defs(before + FileLines(filename, lines[..j + 1]))
      == Defs(before + FileLines(filename, lines[..j])) + LineDef(Located(PathString(filename), j + 1, lines[j]))
  {
    var l := Located(PathString(filename), j + 1, lines[j]);
    var ls := before + FileLines(filename, lines[..j]);
    assert FileLines(filename, lines[..j + 1]) == FileLines(filename, lines[..j]) + [l];
    assert before + FileLines(filename, lines[..j + 1]) == ls + [l];
    assert (ls + [l])[..|ls + [l]| - 1] == ls;
  }

  /** find_function_definitions: the collected definition sites of the files. */
  method FindFunctionDefinitions(files: seq<Path>, tree: Tree) returns (functions: Dict<Site>)
    requires forall i :: 0 <= i < |files| ==> files[i] in tree
    ensures functions == Collect(Defs(Lines(files, tree)))
  {
    functions := Dict([], map[]);
    var i := 0;
    while i < |files|
      invariant 0 <= i <= |files|
      invariant functions == Collect(Defs(Lines(files[..i], tree)))
    {
      var filename := files[i];
      functions := FileDefinitions(filename, tree[filename].lines, functions, Lines(files[..i], tree));
      FileStep(files, tree, i);
      i := i + 1;
    }
    assert files[..i] == files;
  }

  /** The line loop of find_function_definitions for one file. */
  method FileDefinitions(filename: Path, lines: seq<string>, functions0: Dict<Site>, ghost before: seq<Located>)
    returns (functions: Dict<Site>)
    requires functions0 == Collect(Defs(before))
    ensures functions == Collect(Defs(before + FileLines(filename, lines)))
  {
    functions := functions0;
    FileDone(before, filename, lines);
    var j := 0;
    while j < |lines|
      invariant 0 <= j <= |lines|
      invariant functions == Collect(Defs(before + FileLines(filename, lines[..j])))
    {
      ghost var ds := Defs(before + FileLines(filename, lines[..j]));
      DefLineStep(before, filename, lines, j);
      match MatchFuncName(lines[j]) {
        case Some(name) =>
          var site := Site(PathString(filename), j + 1);
          functions := Add(functions, name, site);
          CollectSnoc(ds, name, site);
        case None =>
          assert ds + [] == ds;
      }
      j := j + 1;
    }
  }

  /** The reference record of one line. */
  function LineReference(l: Located): Reference
  {
    Reference(l.file + ":" + NatToString(l.number), Take(PyStrip(l.text), 80))
  }

  /** The token loop of count_references for one line: count and record each known name. */
  method CountLineReferences(words: seq<string>, names: set<string>, ref: Reference,
                             counters0: map<string, nat>, references0: Dict<Reference>,
                             ghost prefix: seq<(string, Reference)>)
    returns (counters: map<string, nat>, references: Dict<Reference>)
    requires references0 == Collect(prefix) && counters0 == Counts(references0)
    ensures references == Collect(prefix + RefsIn(words, names, ref))
    ensures counters == Counts(references)
  {
    counters, references := counters0, references0;
    assert prefix + RefsIn(words[..0], names, ref) == prefix;
    var w := 0;
    while w < |words|
      invariant 0 <= w <= |words|
      invariant references == Collect(prefix + RefsIn(words[..w], names, ref))
      invariant counters == Counts(references)
    {
      var word := words[w];
      ghost var acc := prefix + RefsIn(words[..w], names, ref);
      WordStep(prefix, words, w, names, ref);
      if word in names {
        counters := counters[word := RefCount(counters, word) + 1];
        CountsAdd(references, word, ref);
        references := Add(references, word, ref);
        CollectSnoc(acc, word, ref);
      }
      w := w + 1;
    }
    assert words[..w] == words;
  }

  /** count_references: the collected reference records of the known names, and their counts. */
  method CountReferences(files: seq<Path>, tree: Tree, names: set<string>)
    returns (counters: map<string, nat>, references: Dict<Reference>)
    requires forall i :: 0 <= i < |files| ==> files[i] in tree
    ensures references == Collect(Refs(Lines(files, tree), names))
    ensures counters == Counts(references)
  {
    references := Dict([], map[]);
    counters := map[];
    var i := 0;
    while i < |files|
      invariant 0 <= i <= |files|
      invariant references == Collect(Refs(Lines(files[..i], tree), names))
      invariant counters == Counts(references)
    {
      var filename := files[i];
      var lines := tree[filename].lines;
      ghost var before := Lines(files[..i], tree);
      FileDone(before, filename, lines);
      var j := 0;
      while j < |lines|
        invariant 0 <= j <= |lines|
        invariant references == Collect(Refs(before + FileLines(filename, lines[..j]), names))
        invariant counters == Counts(references)
      {
        var ref := LineReference(Located(PathString(filename), j + 1, lines[j]));
        LineStep(before, filename, lines, j, names);
        counters, references := CountLineReferences(Words(lines[j]), names, ref, counters, references,
                                                    Refs(before + FileLines(filename, lines[..j]), names));
        j := j + 1;
      }
      FileStep(files, tree, i);
      i := i + 1;
    }
    assert files[..i] == files;
  }

  /** Scanning line j adds that line's references after those of the earlier lines. */
  lemma LineStep(before: seq<Located>, filename: Path, lines: seq<string>, j: nat, names: set<string>)
    requires j < |lines|
    ensures var l := Located(PathString(filename), j + 1, lines[j]);
      Refs(before + FileLines(filename, lines[..j + 1]), names)
      == Refs(before + FileLines(filename, lines[..j]), names) + RefsIn(Words(lines[j]), names, LineReference(l))
  {
    var l := Located(PathString(filename), j + 1, lines[j]);
    var ls := before + FileLines(filename, lines[..j]);
    assert FileLines(filename, lines[..j + 1]) == FileLines(filename, lines[..j]) + [l];
    assert before + FileLines(filename, lines[..j + 1]) == ls + [l];
    assert (ls + [l])[..|ls + [l]| - 1] == ls;
  }

  /** Scanning token w of a line adds its reference when it is a known name. */
  lemma WordStep(prefix: seq<(string, Reference)>, words: seq<string>, w: nat, names: set<string>, ref: Reference)
    requires w < |words|
    ensures words[w] in names ==>
      (prefix + RefsIn(words[..w + 1], names, ref) == prefix + RefsIn(words[..w], names, ref) + [(words[w], ref)])
    ensures words[w] !in names ==>
      (prefix + RefsIn(words[..w + 1], names, ref) == prefix + RefsIn(words[..w], names, ref))
  {
    assert words[..w + 1] == words[..w] + [words[w]];
    RefsInSnoc(words[..w], words[w], names, ref);
    assert RefsIn(words[..w], names, ref) + [] == RefsIn(words[..w], names, ref);
  }

  lemma {:induction false} RefsInSnoc(words: seq<string>, word: string, names: set<string>, ref: Reference)
    ensures RefsIn(words + [word], names, ref)
         == RefsIn(words, names, ref) + (if word in names then [(word, ref)] else [])
  {
    if words == [] {
      assert [] + [word] == [word];
    } else {
      assert (words + [word])[1..] == words[1..] + [word];
      RefsInSnoc(words[1..], word, names, ref);
    }
  }

  // ---------------------------------------------------------------- Classifier

  predicate IsExcluded(name: string, opts: Options)
    requires name != ""
  {
    (!opts.includeTests && HasPrefix(name, "Test"))
    || (!opts.includeExported && IsUpper(name[0]))
    || name in {"init", "main", "String", "Error"}
  }

  /** The category of one symbol from its definition and occurrence counts. */
  function Classify(name: string, defCount: nat, refCount: nat, opts: Options): (c: Category)
    requires name != ""
    ensures c == Excluded <==> IsExcluded(name, opts)
    ensures c == Dead <==> !IsExcluded(name, opts) && refCount <= defCount
    ensures c == LowUsage <==> !IsExcluded(name, opts) && defCount < refCount <= defCount + opts.maxRefs
    ensures c == Normal <==> !IsExcluded(name, opts) && refCount > defCount && refCount > defCount + opts.maxRefs
  {
    if !opts.includeTests && HasPrefix(name, "Test") then Excluded
    else if !opts.includeExported && IsUpper(name[0]) then Excluded
    else if name in {"init", "main", "String", "Error"} then Excluded
    else if refCount <= defCount then Dead
    else if refCount <= opts.maxRefs + defCount then LowUsage
    else Normal
  }

  /** The boundary cases with at most one extra reference allowed. */
  lemma ThresholdBoundary(opts: Options)
    requires opts.maxRefs == 1
    ensures Classify("helper", 1, 1, opts) == Dead
    ensures Classify("helper", 1, 2, opts) == LowUsage
    ensures Classify("helper", 1, 3, opts) == Normal
  {
    assert "helper"[0] == 'h';
  }

  /** Names that the extractor can produce are non-empty. */
  lemma {:induction false} DefinedNamesNonEmpty(ls: seq<Located>)
    ensures forall i :: 0 <= i < |Defs(ls)| ==> Defs(ls)[i].0 != ""
  {
    if ls != [] { DefinedNamesNonEmpty(ls[..|ls| - 1]); }
  }

  function RefCount(counters: map<string, nat>, name: string): nat
  {
    if name in counters then counters[name] else 0
  }

  ghost predicate ValidNames(names: seq<string>, functions: Dict<Site>)
  {
    forall i :: 0 <= i < |names| ==> names[i] in functions.entries && names[i] != ""
  }

  function DeadList(names: seq<string>, functions: Dict<Site>, counters: map<string, nat>, opts: Options): seq<DeadItem>
    requires ValidNames(names, functions)
  {
    if names == [] then []
    else
      var rest := DeadList(names[..|names| - 1], functions, counters, opts);
      var n := names[|names| - 1];
      var defs := functions.entries[n];
      if Classify(n, |defs|, RefCount(counters, n), opts) == Dead
      then rest + [DeadItem(n, RefCount(counters, n), defs)] else rest
  }

  function LowList(names: seq<string>, functions: Dict<Site>, counters: map<string, nat>, opts: Options): seq<LowItem>
    requires ValidNames(names, functions)
  {
    if names == [] then []
    else
      var rest := LowList(names[..|names| - 1], functions, counters, opts);
      var n := names[|names| - 1];
      var defs := functions.entries[n];
      if Classify(n, |defs|, RefCount(counters, n), opts) == LowUsage
      then rest + [LowItem(n, RefCount(counters, n), |defs|, defs)] else rest
  }

  /** The classification loop of process(): names in sorted order, dead and low-usage lists filled in that order. */
  method ClassifySymbols(names: seq<string>, functions: Dict<Site>, counters: map<string, nat>, opts: Options)
    returns (dead: seq<DeadItem>, low: seq<LowItem>)
    requires ValidNames(names, functions)
    ensures dead == DeadList(names, functions, counters, opts)
    ensures low == LowList(names, functions, counters, opts)
  {
    dead, low := [], [];
    var i := 0;
    while i < |names|
      invariant 0 <= i <= |names|
      invariant dead == DeadList(names[..i], functions, counters, opts)
      invariant low == LowList(names[..i], functions, counters, opts)
    {
      var name := names[i];
      assert names[..i + 1][..i] == names[..i];
      var definitions := functions.entries[name];
      var refCount := RefCount(counters, name);
      var defCount := |definitions|;
      if !opts.includeTests && HasPrefix(name, "Test") {
      } else if !opts.includeExported && IsUpper(name[0]) {
      } else if name in {"init", "main", "String", "Error"} {
      } else if refCount <= defCount {
        dead := dead + [DeadItem(name, refCount, definitions)];
      } else if refCount <= opts.maxRefs + defCount {
        low := low + [LowItem(name, refCount, defCount, definitions)];
      }
      i := i + 1;
    }
    assert names[..i] == names;
  }

  /** Every listed symbol passed the exclusions and its category's threshold test. */
  lemma {:induction false} ListsAreClassified(names: seq<string>, functions: Dict<Site>, counters: map<string, nat>, opts: Options)
    requires ValidNames(names, functions)
    ensures forall d :: d in DeadList(names, functions, counters, opts) ==>
      d.name in names && d.name != "" && !IsExcluded(d.name, opts)
      && d.definitions == functions.entries[d.name] && d.refCount == RefCount(counters, d.name)
      && d.refCount <= |d.definitions|
    ensures forall d :: d in LowList(names, functions, counters, opts) ==>
      d.name in names && d.name != "" && !IsExcluded(d.name, opts)
      && d.definitions == functions.entries[d.name] && d.refCount == RefCount(counters, d.name)
      && d.defCount == |d.definitions| && d.defCount < d.refCount <= d.defCount + opts.maxRefs
  {
    if names != [] {
      ListsAreClassified(names[..|names| - 1], functions, counters, opts);
    }
  }

  /** Every non-excluded symbol whose counts say Dead (or LowUsage) is listed. */
  lemma {:induction false} ListsAreComplete(names: seq<string>, functions: Dict<Site>, counters: map<string, nat>, opts: Options, n: string)
    requires ValidNames(names, functions)
    requires n in names
    ensures Classify(n, |functions.entries[n]|, RefCount(counters, n), opts) == Dead ==>
      DeadItem(n, RefCount(counters, n), functions.entries[n]) in DeadList(names, functions, counters, opts)
    ensures Classify(n, |functions.entries[n]|, RefCount(counters, n), opts) == LowUsage ==>
      LowItem(n, RefCount(counters, n), |functions.entries[n]|, functions.entries[n]) in LowList(names, functions, counters, opts)
  {
    if names[|names| - 1] != n {
      ListsAreComplete(names[..|names| - 1], functions, counters, opts, n);
    }
  }

  /** In a sorted list of distinct names, every earlier name is smaller than the last one. */
  lemma EarlierNamesSmaller(names: seq<string>, m: string)
    requires |names| >= 1 && SortedBy(names, StrLt) && NoDuplicates(names)
    requires m in names[..|names| - 1]
    ensures StrLt(m, names[|names| - 1])
  {
    StrLtIsStrictTotal();
    var k :| 0 <= k < |names| - 1 && names[..|names| - 1][k] == m;
    assert names[k] == m;
    assert !StrLt(names[|names| - 1], names[k]);
  }

  ghost predicate DeadInNameOrder(dl: seq<DeadItem>) {
    forall i, j :: 0 <= i < j < |dl| ==> StrLt(dl[i].name, dl[j].name)
  }

  ghost predicate LowInNameOrder(ll: seq<LowItem>) {
    forall i, j :: 0 <= i < j < |ll| ==> StrLt(ll[i].name, ll[j].name)
  }

  /** The dead list keeps the order of the names it was built from. */
  lemma {:induction false} DeadListInNameOrder(names: seq<string>, functions: Dict<Site>, counters: map<string, nat>, opts: Options)
    requires ValidNames(names, functions)
    requires SortedBy(names, StrLt) && NoDuplicates(names)
    ensures DeadInNameOrder(DeadList(names, functions, counters, opts))
  {
    if names != [] {
      var init := names[..|names| - 1];
      DeadListInNameOrder(init, functions, counters, opts);
      ListsAreClassified(init, functions, counters, opts);
      var dl := DeadList(names, functions, counters, opts);
      var rest := DeadList(init, functions, counters, opts);
      var n := names[|names| - 1];
      assert |dl| <= |rest| + 1 && dl[..|rest|] == rest && (|dl| > |rest| ==> dl[|rest|].name == n);
      forall i, j | 0 <= i < j < |dl| ensures StrLt(dl[i].name, dl[j].name) {
        assert dl[i] == rest[i];
        if j == |rest| {
          assert rest[i] in rest;
          EarlierNamesSmaller(names, dl[i].name);
          assert dl[j].name == n;
          assert StrLt(dl[i].name, n);
        } else {
          assert dl[j] == rest[j];
          assert StrLt(rest[i].name, rest[j].name);
        }
      }
    }
  }

  /** The low-usage list keeps the order of the names it was built from. */
  lemma {:induction false} LowListInNameOrder(names: seq<string>, functions: Dict<Site>, counters: map<string, nat>, opts: Options)
    requires ValidNames(names, functions)
    requires SortedBy(names, StrLt) && NoDuplicates(names)
    ensures LowInNameOrder(LowList(names, functions, counters, opts))
  {
    if names != [] {
      var init := names[..|names| - 1];
      LowListInNameOrder(init, functions, counters, opts);
      ListsAreClassified(init, functions, counters, opts);
      var ll := LowList(names, functions, counters, opts);
      var rest := LowList(init, functions, counters, opts);
      var n := names[|names| - 1];
      assert |ll| <= |rest| + 1 && ll[..|rest|] == rest && (|ll| > |rest| ==> ll[|rest|].name == n);
      forall i, j | 0 <= i < j < |ll| ensures StrLt(ll[i].name, ll[j].name) {
        assert ll[i] == rest[i];
        if j == |rest| {
          assert rest[i] in rest;
          EarlierNamesSmaller(names, ll[i].name);
        } else {
          assert ll[j] == rest[j];
        }
      }
    }
  }

  // ---------------------------------------------------------------- Report renderer

  const Rule: string := Repeat('=', 70)
  const Thin: string := Repeat('─', 70)

  /** `{n:<6}`: the number left-aligned in a field of six. */
  function LeftAligned(n: nat): (r: string)
    ensures |r| >= 6
  {
    var s := NatToString(n);
    if |s| >= 6 then s else s + Repeat(' ', 6 - |s|)
  }

  function SiteLines(defs: seq<Site>, name: string, suffix: string): (r: seq<string>)
    ensures |r| == |defs|
  {
    if defs == [] then []
    else ["  " + defs[0].file + ":" + LeftAligned(defs[0].line) + " " + name + suffix] + SiteLines(defs[1..], name, suffix)
  }

  function ReferenceLines(refs: seq<Reference>): seq<string>
  {
    if refs == [] then []
    else ["      " + refs[0].location, "        → " + refs[0].context] + ReferenceLines(refs[1..])
  }

  function ReferenceListing(name: string, heading: string, references: Dict<Reference>, opts: Options): seq<string>
  {
    if opts.showRefs && name in references.entries then
      ["    " + heading + " (" + NatToString(|references.entries[name]|) + "):"]
      + ReferenceLines(references.entries[name]) + [""]
    else []
  }

  function DeadLines(dead: seq<DeadItem>, references: Dict<Reference>, opts: Options): seq<string>
  {
    if dead == [] then []
    else
      SiteLines(dead[0].definitions, dead[0].name, "")
      + ReferenceListing(dead[0].name, "References", references, opts)
      + DeadLines(dead[1..], references, opts)
  }

  function LowLines(low: seq<LowItem>, references: Dict<Reference>, opts: Options): seq<string>
  {
    if low == [] then []
    else
      var extra := if low[0].refCount >= low[0].defCount then low[0].refCount - low[0].defCount else 0;
      SiteLines(low[0].definitions, low[0].name, " (" + NatToString(extra) + " refs)")
      + ReferenceListing(low[0].name, "All references", references, opts)
      + LowLines(low[1..], references, opts)
  }

  const FilesLabel: string := "  - Go files scanned:      "
  const FunctionsLabel: string := "  - Functions found:       "
  const DeadLabel: string := "  - Potentially dead:      "

  function LowLabel(opts: Options): string { "  - Low usage (≤" + IntToString(opts.maxRefs) + " refs): " }

  function Banner(files: nat, functions: nat, dead: nat, low: nat, opts: Options): (r: seq<string>)
    ensures |r| == 8
  {
    [ "\n" + Rule, "DEAD CODE ANALYSIS REPORT", Rule, "\nStatistics:",
      FilesLabel + NatToString(files),
      FunctionsLabel + NatToString(functions),
      DeadLabel + NatToString(dead),
      LowLabel(opts) + NatToString(low) ]
  }

  /** The number a statistics line shows after its label, when the rest of the line is a decimal number. */
  function StatValue(line: string, caption: string): Option<nat>
  {
    if HasPrefix(line, caption) && |line| > |caption| && AllDigits(line[|caption|..])
    then Some(DigitsValue(line[|caption|..])) else None
  }

  /** A label followed by a rendered number reads back as that number. */
  lemma StatValueOf(caption: string, n: nat)
    ensures StatValue(caption + NatToString(n), caption) == Some(n)
  {
    var line := caption + NatToString(n);
    assert line[..|caption|] == caption;
    assert line[|caption|..] == NatToString(n);
    NatToStringRoundTrip(n);
  }

  /**
   * In every report, full or summary, lines 5 to 8 are the statistics: the files scanned, the
   * symbols found, the dead and the low-usage counts, each reading back under its label.
   */
  lemma ReportStatistics(files: nat, functions: nat, dead: seq<DeadItem>, low: seq<LowItem>,
                         references: Dict<Reference>, opts: Options)
    ensures |Render(files, functions, dead, low, references, opts)| >= 8
    ensures StatValue(Render(files, functions, dead, low, references, opts)[4], FilesLabel) == Some(files)
    ensures StatValue(Render(files, functions, dead, low, references, opts)[5], FunctionsLabel) == Some(functions)
    ensures StatValue(Render(files, functions, dead, low, references, opts)[6], DeadLabel) == Some(|dead|)
    ensures StatValue(Render(files, functions, dead, low, references, opts)[7], LowLabel(opts)) == Some(|low|)
  {
    var b := Banner(files, functions, |dead|, |low|, opts);
    var rest := if opts.summary then []
                else DeadSection(dead, references, opts) + LowSection(low, references, opts) + Caveat;
    var r := Render(files, functions, dead, low, references, opts);
    assert r == b + rest;
    assert r[4] == b[4] && r[5] == b[5] && r[6] == b[6] && r[7] == b[7];
    StatValueOf(FilesLabel, files);
    StatValueOf(FunctionsLabel, functions);
    StatValueOf(DeadLabel, |dead|);
    StatValueOf(LowLabel(opts), |low|);
  }

  const Caveat: seq<string> := [
    "\n" + Rule,
    "NOTE: Exported functions (capitalized) are excluded by default.",
    "      Use --include-exported to include them.",
    "      False positives may occur for reflection, interfaces, or external usage.",
    Rule + "\n"]

  function DeadSection(dead: seq<DeadItem>, references: Dict<Reference>, opts: Options): seq<string>
  {
    if dead != [] then
      ["\n" + Thin, "POTENTIALLY DEAD CODE (only referenced at definition)", Thin] + DeadLines(dead, references, opts)
    else ["\n✓ No dead code candidates found!"]
  }

  function ShownLowCount(low: seq<LowItem>, opts: Options): (n: nat)
    ensures n <= |low|
    ensures opts.allLowUsage ==> n == |low|
    ensures !opts.allLowUsage ==> n == if |low| < MaxLowUsageShown then |low| else MaxLowUsageShown
  {
    if opts.allLowUsage then |low| else if |low| < MaxLowUsageShown then |low| else MaxLowUsageShown
  }

  function MoreNote(low: seq<LowItem>, opts: Options): seq<string>
  {
    if !opts.allLowUsage && |low| > MaxLowUsageShown then
      ["  ... and " + NatToString(|low| - MaxLowUsageShown) + " more (use --all-low-usage to show all)"]
    else []
  }

  function LowSection(low: seq<LowItem>, references: Dict<Reference>, opts: Options): seq<string>
  {
    if low != [] then
      ["\n" + Thin, "LOW USAGE FUNCTIONS (≤" + IntToString(opts.maxRefs) + " references beyond definition)", Thin]
      + LowLines(low[..ShownLowCount(low, opts)], references, opts) + MoreNote(low, opts)
    else []
  }

  /** The printed report for the classification results. */
  function Render(files: nat, functions: nat, dead: seq<DeadItem>, low: seq<LowItem>,
                  references: Dict<Reference>, opts: Options): seq<string>
  {
    Banner(files, functions, |dead|, |low|, opts)
    + (if opts.summary then []
       else DeadSection(dead, references, opts) + LowSection(low, references, opts) + Caveat)
  }

  // ---------------------------------------------------------------- The whole run

  /** The files the detector scans, in scan order. */
  function GoFiles(walk: seq<Path>): seq<Path> { Sort(Select(walk), PathLt) }

  /** The scanned files are the selected walk entries, so each one is in the tree. */
  lemma GoFilesInTree(walk: seq<Path>, tree: Tree)
    requires forall p :: p in walk ==> p in tree
    ensures forall i :: 0 <= i < |GoFiles(walk)| ==> GoFiles(walk)[i] in tree
  {
    var files := GoFiles(walk);
    PathLtIsStrictTotal();
    SortCorrect(Select(walk), PathLt);
    forall i | 0 <= i < |files| ensures files[i] in tree {
      assert files[i] in multiset(files);
      assert files[i] in multiset(Select(walk));
    }
  }

  /** The name order of the classification loop: the defined names, sorted. */
  function SortedNames(ls: seq<Located>): seq<string> { Sort(Collect(Defs(ls)).order, StrLt) }

  /** A key with recorded values is the key of some pair. */
  lemma {:induction false} NameOfValue<V>(k: string, ds: seq<(string, V)>)
    requires ValuesOf(k, ds) != []
    ensures exists i :: 0 <= i < |ds| && ds[i].0 == k
  {
    if ds[|ds| - 1].0 != k {
      NameOfValue(k, ds[..|ds| - 1]);
      var i :| 0 <= i < |ds| - 1 && ds[..|ds| - 1][i].0 == k;
      assert ds[i].0 == k;
    }
  }

  lemma CountAtLeastTwo<T>(t: seq<T>, i: nat, j: nat)
    requires i < j < |t| && t[i] == t[j]
    ensures multiset(t)[t[i]] >= 2
  {
    assert t == t[..j] + t[j..];
    assert t[i] in t[..j];
    assert t[j..][0] == t[j];
  }

  lemma {:induction false} DistinctCountOne<T>(s: seq<T>, x: T)
    requires NoDuplicates(s)
    ensures multiset(s)[x] <= 1
  {
    if s != [] {
      DistinctCountOne(s[1..], x);
      assert s == [s[0]] + s[1..];
      if s[0] == x { assert x !in s[1..]; }
    }
  }

  /** A rearrangement of a sequence without duplicates has the same elements and no duplicates either. */
  lemma SameElementsDistinct<T>(a: seq<T>, b: seq<T>)
    requires multiset(a) == multiset(b) && NoDuplicates(b)
    ensures forall x :: x in a <==> x in b
    ensures NoDuplicates(a)
  {
    forall x ensures x in a <==> x in b {
      assert x in a <==> x in multiset(a);
      assert x in b <==> x in multiset(b);
    }
    forall i, j | 0 <= i < j < |a| ensures a[i] != a[j] {
      if a[i] == a[j] {
        CountAtLeastTwo(a, i, j);
        DistinctCountOne(b, a[i]);
      }
    }
  }

  /** No defined name is empty. */
  lemma DefinedKeysNonEmpty(ls: seq<Located>)
    ensures forall k :: k in Collect(Defs(ls)).entries ==> k != ""
  {
    CollectContents(Defs(ls));
    DefinedNamesNonEmpty(ls);
    forall k | k in Collect(Defs(ls)).entries ensures k != "" {
      NameOfValue(k, Defs(ls));
    }
  }

  /** The sorted names are the defined names, each once, in increasing order. */
  lemma SortedNamesValid(ls: seq<Located>)
    ensures ValidNames(SortedNames(ls), Collect(Defs(ls)))
    ensures SortedBy(SortedNames(ls), StrLt) && NoDuplicates(SortedNames(ls))
    ensures forall n :: n in SortedNames(ls) <==> n in Collect(Defs(ls)).entries
  {
    var functions := Collect(Defs(ls));
    CollectContents(Defs(ls));
    DefinedKeysNonEmpty(ls);
    SortedKeys(functions.order, functions.entries.Keys);
  }

  /** Sorting a duplicate-free listing of a key set gives each key once, in increasing order. */
  lemma SortedKeys(order: seq<string>, keys: set<string>)
    requires forall k :: k in order <==> k in keys
    requires NoDuplicates(order)
    ensures SortedBy(Sort(order, StrLt), StrLt) && NoDuplicates(Sort(order, StrLt))
    ensures forall n :: n in Sort(order, StrLt) <==> n in keys
  {
    StrLtIsStrictTotal();
    SortCorrect(order, StrLt);
    SameElementsDistinct(Sort(order, StrLt), order);
  }

  /** The run, stage by stage, as one function of the walk, the tree and the options. */
  function Run(walk: seq<Path>, tree: Tree, opts: Options): RunResult
    requires forall p :: p in walk ==> p in tree
  {
    var files := GoFiles(walk);
    if files == [] then NoGoFiles
    else
      assert forall i :: 0 <= i < |files| ==> files[i] in tree by { GoFilesInTree(walk, tree); }
      var ls := Lines(files, tree);
      var functions := Collect(Defs(ls));
      if functions.entries == map[] then NoFunctions
      else
        var references := Collect(Refs(ls, functions.entries.Keys));
        var names := SortedNames(ls);
        assert ValidNames(names, functions) by { SortedNamesValid(ls); }
        var dead := DeadList(names, functions, Counts(references), opts);
        var low := LowList(names, functions, Counts(references), opts);
        Report(Render(|files|, |functions.entries|, dead, low, references, opts))
  }

  /** process(): the three stages, the classification loop and the report. */
  method Process(walk: seq<Path>, tree: Tree, opts: Options) returns (r: RunResult)
    requires forall p :: p in walk ==> p in tree
    ensures r == Run(walk, tree, opts)
  {
    var files := FindFiles(walk);
    if |files| == 0 {
      return NoGoFiles;
    }
    GoFilesInTree(walk, tree);
    var functions := FindFunctionDefinitions(files, tree);
    if |functions.entries| == 0 {
      return NoFunctions;
    }
    var counters, references := CountReferences(files, tree, functions.entries.Keys);
    var names := Sort(functions.order, StrLt);
    SortedNamesValid(Lines(files, tree));
    var dead, low := ClassifySymbols(names, functions, counters, opts);
    r := Report(Render(|files|, |functions.entries|, dead, low, references, opts));
  }

  // ---------------------------------------------------------------- Properties of a run

  /** With no selected file the run reports the error and prints no report. */
  lemma NoFilesNoReport(walk: seq<Path>, tree: Tree, opts: Options)
    requires forall p :: p in walk ==> p in tree
    ensures Run(walk, tree, opts) == NoGoFiles <==> Select(walk) == []
  {
    var s := Select(walk);
    PathLtIsStrictTotal();
    SortCorrect(s, PathLt);
    if s != [] {
      assert s[0] in multiset(s);
      assert GoFiles(walk) != [];
    }
  }

  /** Summary mode prints the banner and statistics only. */
  lemma SummaryStopsAfterStatistics(files: nat, functions: nat, dead: seq<DeadItem>, low: seq<LowItem>,
                                   references: Dict<Reference>, opts: Options)
    requires opts.summary
    ensures Render(files, functions, dead, low, references, opts) == Banner(files, functions, |dead|, |low|, opts)
  {
  }

  /** Without the "all" flag at most 20 low-usage symbols are listed, and a note counts the rest. */
  lemma LowUsageCapped(low: seq<LowItem>, references: Dict<Reference>, opts: Options)
    requires !opts.allLowUsage && |low| > MaxLowUsageShown
    ensures LowSection(low, references, opts)
      == ["\n" + Thin, "LOW USAGE FUNCTIONS (≤" + IntToString(opts.maxRefs) + " references beyond definition)", Thin]
         + LowLines(low[..20], references, opts)
         + ["  ... and " + NatToString(|low| - 20) + " more (use --all-low-usage to show all)"]
  {
  }

  /** A defined symbol occurs as a token at least as often as it is defined, and is defined at least once. */
  lemma RefCountCoversDefinitions(ls: seq<Located>, n: string)
    requires n in Collect(Defs(ls)).entries
    ensures var functions := Collect(Defs(ls));
      RefCount(Counts(Collect(Refs(ls, functions.entries.Keys))), n) >= |functions.entries[n]| >= 1
  {
    var functions := Collect(Defs(ls));
    var names := functions.entries.Keys;
    var refs := Collect(Refs(ls, names));
    CollectContents(Defs(ls));
    CollectContents(Refs(ls, names));
    ReferencesCoverDefinitions(ls, names, n);
    assert |ValuesOf(n, Refs(ls, names))| >= 1;
    assert n in refs.entries;
  }

  /**
   * In a run, every dead symbol occurs only at its definitions (its count equals its
   * definition count and it has at least one), no dead symbol is excluded, and the dead
   * list is in name order.
   */
  lemma DeadSymbolsOccurOnlyAtDefinitions(ls: seq<Located>, opts: Options)
    ensures var functions := Collect(Defs(ls));
      var counters := Counts(Collect(Refs(ls, functions.entries.Keys)));
      var names := SortedNames(ls);
      ValidNames(names, functions)
      && (forall d :: d in DeadList(names, functions, counters, opts) ==>
            d.name != "" && !IsExcluded(d.name, opts) && |d.definitions| >= 1 && d.refCount == |d.definitions|)
      && DeadInNameOrder(DeadList(names, functions, counters, opts))
  {
    var functions := Collect(Defs(ls));
    var counters := Counts(Collect(Refs(ls, functions.entries.Keys)));
    var names := SortedNames(ls);
    SortedNamesValid(ls);
    ListsAreClassified(names, functions, counters, opts);
    DeadListInNameOrder(names, functions, counters, opts);
    forall d | d in DeadList(names, functions, counters, opts)
      ensures |d.definitions| >= 1 && d.refCount == |d.definitions|
    {
      RefCountCoversDefinitions(ls, d.name);
    }
  }

  /**
   * In a run, every low-usage symbol has between 1 and max-refs occurrences beyond its
   * definitions, none is excluded, and the low-usage list is in name order.
   */
  lemma LowUsageSymbolsWithinThreshold(ls: seq<Located>, opts: Options)
    ensures var functions := Collect(Defs(ls));
      var counters := Counts(Collect(Refs(ls, functions.entries.Keys)));
      var names := SortedNames(ls);
      ValidNames(names, functions)
      && (forall d :: d in LowList(names, functions, counters, opts) ==>
            d.name != "" && !IsExcluded(d.name, opts) && 1 <= d.refCount - d.defCount <= opts.maxRefs)
      && LowInNameOrder(LowList(names, functions, counters, opts))
  {
    var functions := Collect(Defs(ls));
    var counters := Counts(Collect(Refs(ls, functions.entries.Keys)));
    var names := SortedNames(ls);
    SortedNamesValid(ls);
    ListsAreClassified(names, functions, counters, opts);
    LowListInNameOrder(names, functions, counters, opts);
  }

  /** The names among `names` that the classifier puts in category c. */
  ghost function NamesIn(names: seq<string>, functions: Dict<Site>, counters: map<string, nat>, opts: Options,
                         c: Category): set<string>
  {
    set n | n in names && n in functions.entries && n != ""
              && Classify(n, |functions.entries[n]|, RefCount(counters, n), opts) == c
  }

  /** Over distinct names, the lists are exactly as long as their categories are large. */
  lemma {:induction false} ListSizes(names: seq<string>, functions: Dict<Site>, counters: map<string, nat>, opts: Options)
    requires ValidNames(names, functions) && NoDuplicates(names)
    ensures |DeadList(names, functions, counters, opts)| == |NamesIn(names, functions, counters, opts, Dead)|
    ensures |LowList(names, functions, counters, opts)| == |NamesIn(names, functions, counters, opts, LowUsage)|
  {
    if names != [] {
      var init, n := names[..|names| - 1], names[|names| - 1];
      assert names == init + [n];
      ListSizes(init, functions, counters, opts);
      assert n !in init;
      NamesInSnoc(init, n, functions, counters, opts, Dead);
      NamesInSnoc(init, n, functions, counters, opts, LowUsage);
    }
  }

  /** One more name adds itself to its own category and nothing to the others. */
  lemma NamesInSnoc(init: seq<string>, n: string, functions: Dict<Site>, counters: map<string, nat>, opts: Options,
                    c: Category)
    requires n in functions.entries && n != ""
    ensures NamesIn(init + [n], functions, counters, opts, c)
      == NamesIn(init, functions, counters, opts, c)
         + (if Classify(n, |functions.entries[n]|, RefCount(counters, n), opts) == c then {n} else {})
  {
    forall m ensures m in init + [n] <==> m in init || m == n {
    }
  }

  /**
   * The statistics of a run: the number of scanned files, the number of distinct defined
   * names, and how many of those names are Dead and how many LowUsage.
   */
  lemma RunStatistics(walk: seq<Path>, tree: Tree, opts: Options, files: seq<Path>, ls: seq<Located>,
                      functions: Dict<Site>, counters: map<string, nat>)
    requires forall p :: p in walk ==> p in tree
    requires files == GoFiles(walk) && forall i :: 0 <= i < |files| ==> files[i] in tree
    requires ls == Lines(files, tree) && functions == Collect(Defs(ls))
    requires counters == Counts(Collect(Refs(ls, functions.entries.Keys)))
    requires Run(walk, tree, opts).Report?
    ensures |Run(walk, tree, opts).lines| >= 8
    ensures StatValue(Run(walk, tree, opts).lines[4], FilesLabel) == Some(|files|)
    ensures StatValue(Run(walk, tree, opts).lines[5], FunctionsLabel) == Some(|functions.entries|)
    ensures StatValue(Run(walk, tree, opts).lines[6], DeadLabel)
      == Some(|NamesIn(functions.order, functions, counters, opts, Dead)|)
    ensures StatValue(Run(walk, tree, opts).lines[7], LowLabel(opts))
      == Some(|NamesIn(functions.order, functions, counters, opts, LowUsage)|)
  {
    var references := Collect(Refs(ls, functions.entries.Keys));
    var names := SortedNames(ls);
    SortedNamesValid(ls);
    var dead := DeadList(names, functions, counters, opts);
    var low := LowList(names, functions, counters, opts);
    assert Run(walk, tree, opts) == Report(Render(|files|, |functions.entries|, dead, low, references, opts));
    ReportStatistics(|files|, |functions.entries|, dead, low, references, opts);
    ListSizes(names, functions, counters, opts);
    CollectContents(Defs(ls));
    assert NamesIn(names, functions, counters, opts, Dead) == NamesIn(functions.order, functions, counters, opts, Dead);
    assert NamesIn(names, functions, counters, opts, LowUsage) == NamesIn(functions.order, functions, counters, opts, LowUsage);
  }
}
