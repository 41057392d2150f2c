/** Branch listing: the parsing half of `ListBranches`, which reads the
    output of `git for-each-ref --format='%(refname)' refs/heads` (or
    `refs/remotes`). The format is passed to git without a shell, so git
    prints every ref name between apostrophes, one per line. */
module RefList {
  import opened Outcomes
  import opened Text

  /** The cut set ListBranches gives `strings.Trim`. */
  const QUOTE: set<char> := {'\''}

  /** One output line cleaned as ListBranches cleans it: white space
      trimmed, then every leading and trailing apostrophe removed. */
  function RefName(line: string): (name: string)
    ensures |name| <= |line| && IsTrimmed(name, QUOTE)
  {
    Trim(TrimSpace(line), QUOTE)
  }

  /** The ref list ListBranches returns for the output `output`: one
      cleaned entry per newline-separated line, in order, the last entry
      dropped when it is empty. */
  function ParseRefs(output: string): seq<string>
  {
    DropEmptyLast(CleanLines(Split(output, '\n')))
  }

  /** `names` without its last entry when that entry is empty: a prefix
      one shorter exactly when the last entry is empty, otherwise all of
      `names`. */
  function DropEmptyLast(names: seq<string>): (kept: seq<string>)
    requires names != []
    ensures |names| - 1 <= |kept| <= |names| && kept == names[..|kept|]
    ensures |kept| < |names| <==> names[|names| - 1] == ""
  {
    if names[|names| - 1] == "" then names[..|names| - 1] else names
  }

  /** RefName applied to every line. */
  function CleanLines(lines: seq<string>): (names: seq<string>)
    ensures |names| == |lines|
    ensures forall i | 0 <= i < |lines| :: names[i] == RefName(lines[i])
  {
    if lines == [] then [] else [RefName(lines[0])] + CleanLines(lines[1..])
  }

  /** ListBranches once git has run: a failed invocation is passed on
      (Go returns it with an empty slice); otherwise a slice with one
      slot per line is filled in a loop and its last slot cut off when it
      is empty. */
  method ListBranches(output: Result<string>) returns (r: Result<seq<string>>)
    ensures output.Err? ==> r == Err(output.error)
    ensures output.Ok? ==> r == Ok(ParseRefs(output.value))
  {
    match output
    case Err(e) =>
      return Err(e);
    case Ok(text) =>
      var refs := ParseOutput(text);
      return Ok(refs);
  }

  /** The body of ListBranches once git has printed `text`: split into
      lines, clean them into a slice, and cut off an empty last entry. */
  method ParseOutput(text: string) returns (refs: seq<string>)
    ensures refs == ParseRefs(text)
  {
    var lines := Split(text, '\n');
    var lineStrings := CleanEach(lines);
    ghost var names := CleanLines(lines);
    var n := lineStrings.Length;
    assert lineStrings[n - 1] == names[n - 1];
    if lineStrings[n - 1] == "" {
      n := n - 1;
    }
    assert lineStrings[..n] == DropEmptyLast(names);
    return lineStrings[..n];
  }

  /** The loop of ListBranches: a fresh slice with one cleaned entry per
      line. */
  method CleanEach(lines: seq<string>) returns (names: array<string>)
    ensures fresh(names)
    ensures names[..] == CleanLines(lines)
  {
    names := new string[|lines|];
    for i := 0 to |lines|
      invariant forall j | 0 <= j < i :: names[j] == RefName(lines[j])
    {
      names[i] := RefName(lines[i]);
    }
  }

  /** The shape of the result: one entry per line, except that a final
      empty entry is dropped (and only that one); entry i is line i
      cleaned, and so never begins or ends with an apostrophe. */
  lemma ParseRefsShape(output: string)
    ensures var lines := Split(output, '\n');
      var refs := ParseRefs(output);
      && |refs| == Count(output, '\n') + (if RefName(lines[|lines| - 1]) == "" then 0 else 1)
      && (forall i | 0 <= i < |refs| :: refs[i] == RefName(lines[i]) && IsTrimmed(refs[i], QUOTE))
  {
    var lines := Split(output, '\n');
    var names := CleanLines(lines);
    assert |names| == Count(output, '\n') + 1;
    assert names[|names| - 1] == RefName(lines[|lines| - 1]);
    var refs := DropEmptyLast(names);
    assert forall i | 0 <= i < |refs| :: refs[i] == names[i];
  }

  /** A ref name as the format prints it. */
  function Quote(name: string): string
  {
    "'" + name + "'"
  }

  /** What for-each-ref prints for `names`: each quoted, each ending a line. */
  function Listing(names: seq<string>): string
  {
    Terminated(QuoteAll(names), '\n')
  }

  /** Cleaning a quoted line gives back a name that does not itself begin
      or end with an apostrophe. */
  lemma RefNameQuote(name: string)
    requires IsTrimmed(name, QUOTE)
    ensures RefName(Quote(name)) == name
  {
    assert Quote(name) == "'" + name + "'";
    Unquote(name, "'");
  }

  /** A line made of an apostrophe, a name, and apostrophes cleans to the
      name. */
  lemma Unquote(name: string, tail: string)
    requires IsTrimmed(name, QUOTE)
    requires tail != [] && AllIn(tail, QUOTE)
    ensures RefName("'" + name + tail) == name
  {
    var q := "'" + name + tail;
    assert Trim(q, WHITESPACE) == q by {
      assert q[0] == '\'' && q[|q| - 1] == tail[|tail| - 1];
      TrimFixedPoint(q, WHITESPACE);
    }
    assert q[..1] == "'" && q[1..|name| + 1] == name && q[|name| + 1..] == tail;
    TrimIsInfix(q, QUOTE, 1, |name| + 1);
  }

  /** Quote applied to every name. */
  function QuoteAll(names: seq<string>): (lines: seq<string>)
    ensures |lines| == |names|
    ensures forall i | 0 <= i < |names| :: lines[i] == Quote(names[i])
  {
    if names == [] then [] else [Quote(names[0])] + QuoteAll(names[1..])
  }

  /** The listing splits into the quoted names and one empty last piece. */
  lemma SplitListing(names: seq<string>)
    requires forall i | 0 <= i < |names| :: '\n' !in names[i]
    ensures Split(Listing(names), '\n') == QuoteAll(names) + [""]
  {
    QuotedLinesFree(names);
    SplitTerminated(QuoteAll(names), '\n', "");
    assert Listing(names) + "" == Listing(names);
  }

  /** Quoting adds no newline. */
  lemma QuotedLinesFree(names: seq<string>)
    requires forall i | 0 <= i < |names| :: '\n' !in names[i]
    ensures forall i | 0 <= i < |names| :: '\n' !in QuoteAll(names)[i]
  {
    var lines := QuoteAll(names);
    forall i | 0 <= i < |names| ensures '\n' !in lines[i] {
      assert lines[i] == "'" + names[i] + "'";
    }
  }

  /** Cleaning the quoted names unquotes every one of them. */
  lemma CleanQuoted(names: seq<string>)
    requires forall i | 0 <= i < |names| :: IsTrimmed(names[i], QUOTE)
    ensures CleanLines(QuoteAll(names)) == names
  {
    var cleaned := CleanLines(QuoteAll(names));
    forall i | 0 <= i < |names| ensures cleaned[i] == names[i] {
      RefNameQuote(names[i]);
    }
  }

  /** Cleaning one more line appends its cleaned form. */
  lemma CleanLinesSnoc(lines: seq<string>, line: string)
    ensures CleanLines(lines + [line]) == CleanLines(lines) + [RefName(line)]
  {
    var both := lines + [line];
    assert forall i | 0 <= i < |lines| :: both[i] == lines[i];
    assert both[|lines|] == line;
  }

  /** ListBranches recovers exactly the listed refs, in the listed order,
      for any ref names that contain no newline and do not begin or end
      with an apostrophe; no listing gives no refs. */
  lemma ParseListing(names: seq<string>)
    requires forall i | 0 <= i < |names| :: '\n' !in names[i] && IsTrimmed(names[i], QUOTE)
    ensures ParseRefs(Listing(names)) == names
  {
    SplitListing(names);
    CleanLinesSnoc(QuoteAll(names), "");
    CleanQuoted(names);
    assert RefName("") == "";
    assert (names + [""])[..|names|] == names;
  }

  /** A ref whose name ends in apostrophes comes back without them:
      `strings.Trim` removes every apostrophe at the ends, not just the
      layer the format added. */
  lemma TrailingApostrophesLost(name: string, quotes: string)
    requires '\n' !in name && IsTrimmed(name, QUOTE)
    requires AllIn(quotes, QUOTE)
    ensures ParseRefs(Listing([name + quotes])) == [name]
  {
    assert '\n' !in name + quotes;
    SplitListing([name + quotes]);
    RefNameStripsAll(name, quotes);
    CleanLinesSnoc(QuoteAll([name + quotes]), "");
    assert RefName("") == "";
  }

  /** Cleaning a quoted line removes the apostrophes the name ends with
      along with the one the format added. */
  lemma RefNameStripsAll(name: string, quotes: string)
    requires IsTrimmed(name, QUOTE)
    requires AllIn(quotes, QUOTE)
    ensures RefName(Quote(name + quotes)) == name
  {
    var tail := quotes + "'";
    assert AllIn(tail, QUOTE) by {
      forall k | 0 <= k < |tail| ensures tail[k] in QUOTE {
        if k < |quotes| { assert tail[k] == quotes[k]; }
      }
    }
    assert Quote(name + quotes) == "'" + name + tail;
    Unquote(name, tail);
  }

  /** Two local branches listed by git come back as their two names. */
  lemma TwoHeads(a: string, b: string)
    requires a == "refs/heads/a" && b == "refs/heads/b"
    ensures ParseRefs(Listing([a, b])) == [a, b]
  {
    ParseListing([a, b]);
  }

  /** A repository without branches prints nothing and lists no refs. */
  lemma EmptyOutput()
    ensures ParseRefs("") == []
  {
    ParseListing([]);
  }
}
