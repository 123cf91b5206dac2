/**
 * The robot creation wizard's template search (wizard/templates.go, FilterTemplates): keep, in
 * order, the templates whose name or description contains the query, ignoring case.
 */
module Templates {
  import opened Text

  /** A robot template and what the wizard shows of it. */
  datatype Template = Template(name: string, displayName: string, description: string, files: seq<string>)

  /** A template matches a lower-cased query when its lower-cased name or description contains it. */
  predicate Matches(t: Template, lowerQuery: string)
  {
    Contains(ToLower(t.name), lowerQuery) || Contains(ToLower(t.description), lowerQuery)
  }

  /** The matching templates, in their order. */
  function Filtered(ts: seq<Template>, lowerQuery: string): seq<Template>
    decreases |ts|
  {
    if ts == [] then []
    else
      var last := ts[|ts| - 1];
      Filtered(ts[..|ts| - 1], lowerQuery) + (if Matches(last, lowerQuery) then [last] else [])
  }

  /** What FilterTemplates returns: everything for an empty query, else the matches of its lower-case form. */
  function FilterResult(ts: seq<Template>, query: string): seq<Template>
  {
    if query == "" then ts else Filtered(ts, ToLower(query))
  }

  /** FilterTemplates. */
  method FilterTemplates(templates: seq<Template>, query: string) returns (r: seq<Template>)
    ensures r == FilterResult(templates, query)
  {
    if query == "" {
      return templates;
    }
    var lowerQuery := ToLower(query);
    var filtered: seq<Template> := [];
    for i := 0 to |templates|
      invariant filtered == Filtered(templates[..i], lowerQuery)
    {
      var template := templates[i];
      assert templates[..i + 1][..i] == templates[..i];
      var lowerName := ToLower(template.name);
      var lowerDesc := ToLower(template.description);
      if Contains(lowerName, lowerQuery) || Contains(lowerDesc, lowerQuery) {
        filtered := filtered + [template];
      }
    }
    assert templates[..|templates|] == templates;
    return filtered;
  }

  /** Filtering a concatenation filters each part: the matches keep their relative order. */
  lemma {:induction false} FilteredAppend(a: seq<Template>, b: seq<Template>, q: string)
    ensures Filtered(a + b, q) == Filtered(a, q) + Filtered(b, q)
    decreases |b|
  {
    if b == [] {
      assert a + b == a;
    } else {
      var init := b[..|b| - 1];
      assert (a + b)[..|a + b| - 1] == a + init;
      FilteredAppend(a, init, q);
    }
  }

  /** Exactly the matching templates are kept, and the result is never longer than the input. */
  lemma FilteredCorrect(ts: seq<Template>, q: string)
    ensures forall t :: t in Filtered(ts, q) <==> t in ts && Matches(t, q)
    ensures |Filtered(ts, q)| <= |ts|
    ensures (forall i :: 0 <= i < |ts| ==> Matches(ts[i], q)) ==> Filtered(ts, q) == ts
  {
    FilteredMembers(ts, q);
    FilteredLength(ts, q);
    FilteredAllMatch(ts, q);
  }

  lemma {:induction false} FilteredMembers(ts: seq<Template>, q: string)
    ensures forall t :: t in Filtered(ts, q) <==> t in ts && Matches(t, q)
    decreases |ts|
  {
    if ts != [] {
      var init := ts[..|ts| - 1];
      FilteredMembers(init, q);
      assert ts == init + [ts[|ts| - 1]];
    }
  }

  lemma {:induction false} FilteredLength(ts: seq<Template>, q: string)
    ensures |Filtered(ts, q)| <= |ts|
    decreases |ts|
  {
    if ts != [] {
      FilteredLength(ts[..|ts| - 1], q);
    }
  }

  lemma {:induction false} FilteredAllMatch(ts: seq<Template>, q: string)
    ensures (forall i :: 0 <= i < |ts| ==> Matches(ts[i], q)) ==> Filtered(ts, q) == ts
    decreases |ts|
  {
    if ts != [] && forall i :: 0 <= i < |ts| ==> Matches(ts[i], q) {
      var init := ts[..|ts| - 1];
      assert forall i :: 0 <= i < |init| ==> init[i] == ts[i];
      FilteredAllMatch(init, q);
      assert ts == init + [ts[|ts| - 1]];
    }
  }

  /** An empty query returns the list unchanged; otherwise the query's case does not matter. */
  lemma FilterResultCases(ts: seq<Template>, query: string, other: string)
    ensures FilterResult(ts, "") == ts
    ensures query != "" && other != "" && EqualFold(query, other) ==> FilterResult(ts, query) == FilterResult(ts, other)
    ensures query != "" ==> forall t :: t in FilterResult(ts, query) <==> t in ts && Matches(t, ToLower(query))
  {
    EqualFoldIsLowerEqual(query, other);
    FilteredCorrect(ts, ToLower(query));
  }

  /** A word taken from inside a field of the template finds it. */
  lemma MatchesInside(t: Template, before: string, word: string, after: string)
    requires ToLower(t.name) == before + word + after
    ensures Matches(t, word)
  {
    var s := ToLower(t.name);
    assert s[|before|..][..|word|] == word;
  }
}
