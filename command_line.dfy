/**
 * How the interactive UI turns a command typed as one line into arguments (cmd/ui.go,
 * splitCommand): spaces separate arguments, a double or single quote groups text up to the same
 * quote character, empty arguments are dropped.
 */
module CommandLine {
  import opened Wrappers
  import opened Text

  predicate IsQuote(c: char) { c == '"' || c == '\'' }

  /**
   * The scanner's state: the finished arguments, the one being read, and the quote that is open
   * (the pair inQuote/quoteChar, whose character only matters while a quote is open).
   */
  datatype Lexer = Lexer(args: seq<string>, current: string, quote: Option<char>)

  const Start: Lexer := Lexer([], "", None)

  /** One character of the command. */
  function Step(st: Lexer, r: char): Lexer
  {
    if IsQuote(r) then
      if st.quote == Some(r) then st.(quote := None)
      else if st.quote == None then st.(quote := Some(r))
      else st.(current := st.current + [r])
    else if r == ' ' && st.quote == None then
      if st.current != "" then Lexer(st.args + [st.current], "", None) else st
    else st.(current := st.current + [r])
  }

  /** The state after reading s from st. */
  function LexFrom(st: Lexer, s: string): Lexer
    decreases |s|
  {
    if s == [] then st else Step(LexFrom(st, s[..|s| - 1]), s[|s| - 1])
  }

  /** At the end of the input an argument still being read is kept if it is not empty. */
  function Finish(st: Lexer): seq<string>
  {
    if st.current != "" then st.args + [st.current] else st.args
  }

  /** The arguments of a command line. */
  function Tokens(cmd: string): seq<string>
  {
    Finish(LexFrom(Start, cmd))
  }

  /** splitCommand. */
  method SplitCommand(cmd: string) returns (args: seq<string>)
    ensures args == Tokens(cmd)
  {
    args := [];
    var current := "";
    var inQuote := false;
    var quoteChar := 0 as char;
    for i := 0 to |cmd|
      invariant LexFrom(Start, cmd[..i]) == Lexer(args, current, if inQuote then Some(quoteChar) else None)
    {
      var r := cmd[i];
      assert cmd[..i + 1][..i] == cmd[..i];
      if r == '"' || r == '\'' {
        if inQuote && r == quoteChar {
          inQuote := false;
        } else if !inQuote {
          inQuote := true;
          quoteChar := r;
        } else {
          current := current + [r];
        }
      } else if r == ' ' && !inQuote {
        if current != "" {
          args := args + [current];
          current := "";
        }
      } else {
        current := current + [r];
      }
    }
    assert cmd[..|cmd|] == cmd;
    if current != "" {
      args := args + [current];
    }
  }

  predicate AllNonEmpty(parts: seq<string>) { forall i :: 0 <= i < |parts| ==> parts[i] != "" }

  lemma {:induction false} LexFromArgsNonEmpty(st: Lexer, s: string)
    requires AllNonEmpty(st.args)
    ensures AllNonEmpty(LexFrom(st, s).args)
    decreases |s|
  {
    if s != [] {
      LexFromArgsNonEmpty(st, s[..|s| - 1]);
    }
  }

  /** No argument is empty, whatever the input (two adjacent quotes give nothing). */
  lemma TokensNonEmpty(cmd: string)
    ensures forall i :: 0 <= i < |Tokens(cmd)| ==> Tokens(cmd)[i] != ""
  {
    LexFromArgsNonEmpty(Start, cmd);
  }

  /** Reading a + b is reading a, then b. */
  lemma {:induction false} LexFromAppend(st: Lexer, a: string, b: string)
    ensures LexFrom(st, a + b) == LexFrom(LexFrom(st, a), b)
    decreases |b|
  {
    if b != [] {
      assert (a + b)[..|a + b| - 1] == a + b[..|b| - 1];
      LexFromAppend(st, a, b[..|b| - 1]);
    } else {
      assert a + b == a;
    }
  }

  /** Arguments finished before b is read are only prefixed to those b finishes. */
  lemma {:induction false} LexFromShift(done: seq<string>, s: string)
    ensures LexFrom(Lexer(done, "", None), s)
         == LexFrom(Start, s).(args := done + LexFrom(Start, s).args)
    decreases |s|
  {
    if s != [] {
      LexFromShift(done, s[..|s| - 1]);
      var before := LexFrom(Start, s[..|s| - 1]);
      assert done + (before.args + [before.current]) == (done + before.args) + [before.current];
    }
  }

  /**
   * A space outside quotes ends the arguments of what precedes it: the arguments of a + " " + b
   * are those of a followed by those of b.
   */
  lemma TokensConcat(a: string, b: string)
    requires LexFrom(Start, a).quote == None
    ensures Tokens(a + " " + b) == Tokens(a) + Tokens(b)
  {
    var st := LexFrom(Start, a);
    LexFromAppend(Start, a, " ");
    LexFromAppend(Start, a + " ", b);
    assert " "[..0] == "";
    assert LexFrom(Start, a + " ") == Lexer(Tokens(a), "", None);
    LexFromShift(Tokens(a), b);
  }

  /**
   * A quoted argument loses its quotes and keeps whatever it holds, spaces and the other quote
   * character included.
   */
  lemma QuotedArgument(q: char, inner: string)
    requires IsQuote(q) && q !in inner && inner != ""
    ensures Tokens([q] + inner + [q]) == [inner]
  {
    var open := Lexer([], "", Some(q));
    assert LexFrom(Start, [q]) == open by {
      assert [q][..0] == "";
    }
    InsideQuote(q, inner);
    LexFromAppend(Start, [q], inner);
    LexFromAppend(Start, [q] + inner, [q]);
    assert [q][..0] == "";
  }

  /** Inside a quote everything but its own quote character is taken literally. */
  lemma {:induction false} InsideQuote(q: char, inner: string)
    requires IsQuote(q) && q !in inner
    ensures LexFrom(Lexer([], "", Some(q)), inner) == Lexer([], inner, Some(q))
    decreases |inner|
  {
    if inner != [] {
      var init := inner[..|inner| - 1];
      assert q !in init by {
        assert forall k :: 0 <= k < |init| ==> init[k] == inner[k];
      }
      InsideQuote(q, init);
      assert init + [inner[|inner| - 1]] == inner;
    }
  }

  predicate NoQuotes(s: string) { forall i :: 0 <= i < |s| ==> !IsQuote(s[i]) }

  /** The scanner state for quote-free text, in terms of the text's split on spaces. */
  predicate UnquotedState(st: Lexer, parts: seq<string>)
    requires |parts| >= 1
  {
    st == Lexer(NonEmpty(parts[..|parts| - 1]), parts[|parts| - 1], None)
  }

  /** A space closes the last piece and opens an empty one. */
  lemma UnquotedSpace(st: Lexer, p: seq<string>)
    requires |p| >= 1 && UnquotedState(st, p)
    ensures UnquotedState(Step(st, ' '), p + [""])
  {
    var q := p + [""];
    assert q[..|q| - 1] == p;
    assert p[..|p| - 1] + [p[|p| - 1]] == p;
    NonEmptySnoc(p[..|p| - 1], p[|p| - 1]);
  }

  /** Any other character extends the last piece. */
  lemma UnquotedChar(st: Lexer, p: seq<string>, c: char)
    requires |p| >= 1 && UnquotedState(st, p) && c != ' ' && !IsQuote(c)
    ensures UnquotedState(Step(st, c), p[..|p| - 1] + [p[|p| - 1] + [c]])
  {
    var q := p[..|p| - 1] + [p[|p| - 1] + [c]];
    assert q[..|q| - 1] == p[..|p| - 1];
  }

  /** Without quotes the scanner keeps the non-empty space-separated pieces but the last, and reads the last. */
  lemma {:induction false} LexUnquoted(s: string)
    requires NoQuotes(s)
    ensures UnquotedState(LexFrom(Start, s), Split(s, ' '))
    decreases |s|
  {
    if s == [] {
      assert Split(s, ' ') == [""];
    } else {
      var init, c := s[..|s| - 1], s[|s| - 1];
      assert NoQuotes(init) by {
        assert forall k :: 0 <= k < |init| ==> init[k] == s[k];
      }
      LexUnquoted(init);
      assert init + [c] == s;
      SplitSnoc(init, c, ' ');
      if c == ' ' {
        UnquotedSpace(LexFrom(Start, init), Split(init, ' '));
      } else {
        UnquotedChar(LexFrom(Start, init), Split(init, ' '), c);
      }
    }
  }

  /** On input without quotes splitCommand is a split on single spaces with the empty pieces dropped. */
  lemma TokensUnquoted(s: string)
    requires NoQuotes(s)
    ensures Tokens(s) == NonEmpty(Split(s, ' '))
  {
    LexUnquoted(s);
    var parts := Split(s, ' ');
    NonEmptySnoc(parts[..|parts| - 1], parts[|parts| - 1]);
    assert parts[..|parts| - 1] + [parts[|parts| - 1]] == parts;
  }
}
