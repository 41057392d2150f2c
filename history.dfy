/** History assembly: `Log` lists the commit hashes with
    `git log --pretty=%H` and resolves each one with NewCommit. The git
    invocations are inputs here: the listing's outcome, and `details`,
    which gives the outcome of `git log -1` with the detail format for a
    hash. */
module History {
  import opened Outcomes
  import opened Text
  import opened Commits

  /** The hashes Log reads from the listing: the newline-separated pieces
      with the last one dropped, whether it is empty or not. */
  function HashLines(listing: string): (hashes: seq<string>)
    ensures |hashes| == Count(listing, '\n')
  {
    var pieces := Split(listing, '\n');
    pieces[..|pieces| - 1]
  }

  /** How Log resolves one hash: NewCommit on the outcome of the detail
      query for it. */
  function Resolver(details: string -> Result<string>): string -> Result<Commit>
  {
    hash => NewCommit(details(hash))
  }

  /** Every hash resolved through `resolve`, in order; the first hash
      whose resolution fails decides the error. */
  function ResolveAll(hashes: seq<string>, resolve: string -> Result<Commit>): Result<seq<Commit>>
  {
    if hashes == [] then Ok([])
    else
      match ResolveAll(hashes[..|hashes| - 1], resolve)
      case Err(e) => Err(e)
      case Ok(commits) =>
        match resolve(hashes[|hashes| - 1])
        case Err(e) => Err(e)
        case Ok(c) => Ok(commits + [c])
  }

  /** Log once the listing has run: a failed listing is passed on;
      otherwise the listing is split at newlines, its last piece dropped,
      and the remaining hashes resolved in order with NewCommit on each
      hash's details. */
  method Log(listing: Result<string>, details: string -> Result<string>)
    returns (r: Result<seq<Commit>>)
    ensures listing.Err? ==> r == Err(listing.error)
    ensures listing.Ok? ==> r == ResolveAll(HashLines(listing.value), Resolver(details))
  {
    match listing
    case Err(e) =>
      return Err(e);
    case Ok(output) =>
      var lines := Split(output, '\n');
      lines := lines[0..|lines| - 1];
      r := ResolveHashes(lines, Resolver(details));
  }

  /** The loop of Log: one slot per hash, filled in order with what
      `newCommit` gives for it; the first failure is returned at once, so
      no partial history is ever returned. */
  method ResolveHashes(hashes: seq<string>, newCommit: string -> Result<Commit>)
    returns (r: Result<seq<Commit>>)
    ensures r == ResolveAll(hashes, newCommit)
  {
    var commits := new Commit[|hashes|];
    for x := 0 to |hashes|
      invariant ResolveAll(hashes[..x], newCommit) == Ok(commits[..x])
    {
      var commit := newCommit(hashes[x]);
      ResolveStep(hashes, x, newCommit, commits[..x]);
      if commit.Err? {
        return Err(commit.error);
      }
      commits[x] := commit.value;
      assert commits[..x + 1] == commits[..x] + [commit.value];
    }
    assert hashes[..|hashes|] == hashes;
    assert commits[..|hashes|] == commits[..];
    return Ok(commits[..]);
  }

  /** One step of Log's loop: resolving the next hash either extends the
      history or decides the outcome of the whole resolution. */
  lemma ResolveStep(hashes: seq<string>, x: nat, resolve: string -> Result<Commit>, commits: seq<Commit>)
    requires x < |hashes|
    requires ResolveAll(hashes[..x], resolve) == Ok(commits)
    ensures resolve(hashes[x]).Ok? ==>
      ResolveAll(hashes[..x + 1], resolve) == Ok(commits + [resolve(hashes[x]).value])
    ensures resolve(hashes[x]).Err? ==> ResolveAll(hashes, resolve) == Err(resolve(hashes[x]).error)
  {
    var done := hashes[..x + 1];
    assert done[..x] == hashes[..x] && done[x] == hashes[x];
    if resolve(hashes[x]).Err? {
      ErrorPropagates(hashes, x + 1, resolve);
    }
  }

  /** Once a prefix of the hashes fails, the whole resolution fails with
      the same error. */
  lemma {:induction false} ErrorPropagates(hashes: seq<string>, k: nat, resolve: string -> Result<Commit>)
    requires k <= |hashes|
    requires ResolveAll(hashes[..k], resolve).Err?
    ensures ResolveAll(hashes, resolve) == ResolveAll(hashes[..k], resolve)
    decreases |hashes|
  {
    if k == |hashes| {
      assert hashes[..k] == hashes;
    } else {
      var front := hashes[..|hashes| - 1];
      assert front[..k] == hashes[..k];
      ErrorPropagates(front, k, resolve);
    }
  }

  /** Resolution succeeds exactly when every hash resolves, and then
      commit i is what hash i resolves to. */
  lemma {:induction false} ResolveAllOk(hashes: seq<string>, resolve: string -> Result<Commit>)
    ensures ResolveAll(hashes, resolve).Ok?
        <==> forall i | 0 <= i < |hashes| :: resolve(hashes[i]).Ok?
    ensures ResolveAll(hashes, resolve).Ok? ==>
      var commits := ResolveAll(hashes, resolve).value;
      && |commits| == |hashes|
      && forall i | 0 <= i < |hashes| ::
           commits[i] == resolve(hashes[i]).value
  {
    if hashes != [] {
      var n := |hashes| - 1;
      var front := hashes[..n];
      ResolveAllOk(front, resolve);
      assert forall i | 0 <= i < n :: front[i] == hashes[i];
      if ResolveAll(hashes, resolve).Ok? {
        var commits := ResolveAll(hashes, resolve).value;
        assert commits[..n] == ResolveAll(front, resolve).value;
        assert forall i | 0 <= i < n :: commits[i] == commits[..n][i];
      }
    }
  }

  /** The error Log reports is that of the first hash that fails to
      resolve; the hashes after it are never looked at. */
  lemma FirstError(hashes: seq<string>, k: nat, resolve: string -> Result<Commit>)
    requires k < |hashes|
    requires forall j | 0 <= j < k :: resolve(hashes[j]).Ok?
    requires resolve(hashes[k]).Err?
    ensures ResolveAll(hashes, resolve) == Err(resolve(hashes[k]).error)
  {
    var front := hashes[..k];
    assert forall j | 0 <= j < k :: front[j] == hashes[j];
    ResolveAllOk(front, resolve);
    assert hashes[..k + 1][..k] == front;
    ErrorPropagates(hashes, k + 1, resolve);
  }

  /** What `git log --pretty=%H` prints: one hash per line. */
  function HashListing(hashes: seq<string>): string
  {
    Terminated(hashes, '\n')
  }

  /** Log reads back the listed hashes in order. Whatever follows the
      last newline is dropped even when it is a hash: an unterminated
      last line is lost. */
  lemma HashLinesListing(hashes: seq<string>, last: string)
    requires forall i | 0 <= i < |hashes| :: '\n' !in hashes[i]
    requires '\n' !in last
    ensures HashLines(HashListing(hashes) + last) == hashes
  {
    SplitTerminated(hashes, '\n', last);
    assert (hashes + [last])[..|hashes|] == hashes;
  }

  /** An empty listing gives an empty history. */
  lemma EmptyHistory(resolve: string -> Result<Commit>)
    ensures ResolveAll(HashLines(""), resolve) == Ok([])
  {
    HashLinesListing([], "");
  }

  /** Every commit in a history Log returns is one NewCommit can produce:
      one-line trimmed fields and a 64-bit timestamp. */
  lemma HistoryWellFormed(hashes: seq<string>, details: string -> Result<string>)
    requires ResolveAll(hashes, Resolver(details)).Ok?
    ensures forall c | c in ResolveAll(hashes, Resolver(details)).value :: WellFormed(c)
  {
    var resolve := Resolver(details);
    ResolveAllOk(hashes, resolve);
    var commits := ResolveAll(hashes, resolve).value;
    forall i | 0 <= i < |hashes| ensures WellFormed(commits[i]) {
      assert resolve(hashes[i]) == NewCommit(details(hashes[i]));
    }
  }

  /** Each listed hash resolves to its commit when git prints that
      commit's details followed by white space. */
  lemma ResolvesEach(hashes: seq<string>, commits: seq<Commit>, pads: seq<string>,
                     details: string -> Result<string>)
    requires |commits| == |hashes| == |pads|
    requires forall i | 0 <= i < |hashes| ::
      && WellFormed(commits[i])
      && AllIn(pads[i], WHITESPACE)
      && details(hashes[i]) == Ok(DetailOutput(commits[i]) + pads[i])
    ensures forall i | 0 <= i < |hashes| :: Resolver(details)(hashes[i]) == Ok(commits[i])
  {
    forall i | 0 <= i < |hashes| ensures Resolver(details)(hashes[i]) == Ok(commits[i]) {
      ParseDetailOutput(commits[i], pads[i]);
    }
  }

  /** The whole of Log: if git lists hashes newest first and prints each
      one's details (followed by any white space) for a well-formed
      commit, Log returns exactly those commits in the listed order. */
  lemma LogRoundTrip(hashes: seq<string>, commits: seq<Commit>, pads: seq<string>,
                     details: string -> Result<string>)
    requires |commits| == |hashes| == |pads|
    requires forall i | 0 <= i < |hashes| :: '\n' !in hashes[i]
    requires forall i | 0 <= i < |hashes| ::
      && WellFormed(commits[i])
      && AllIn(pads[i], WHITESPACE)
      && details(hashes[i]) == Ok(DetailOutput(commits[i]) + pads[i])
    ensures ResolveAll(HashLines(HashListing(hashes)), Resolver(details)) == Ok(commits)
  {
    HashLinesListing(hashes, "");
    assert HashListing(hashes) + "" == HashListing(hashes);
    var resolve := Resolver(details);
    ResolvesEach(hashes, commits, pads, details);
    ResolveAllOk(hashes, resolve);
    assert forall i | 0 <= i < |hashes| :: resolve(hashes[i]).Ok?;
    var history := ResolveAll(hashes, resolve).value;
    assert forall i | 0 <= i < |hashes| :: history[i] == commits[i];
    assert history == commits;
  }

  /** The commits of the repository the tests build, newest first. */
  function TestHistory(hashes: seq<string>, parents: seq<string>): seq<Commit>
    requires |hashes| == 3 && |parents| == 3
  {
    [TestCommit(hashes[0], parents[0], TestSubject(2)),
     TestCommit(hashes[1], parents[1], TestSubject(1)),
     TestCommit(hashes[2], parents[2], TestSubject(0))]
  }

  /** Commit i of the test history, newest first. */
  lemma TestHistoryAt(hashes: seq<string>, parents: seq<string>)
    requires |hashes| == 3 && |parents| == 3
    ensures forall i | 0 <= i < 3 ::
      TestHistory(hashes, parents)[i] == TestCommit(hashes[i], parents[i], TestSubject(2 - i))
  {
  }

  /** The repository the tests build has three commits, listed newest
      first; Log returns them with subjects "subject 2", "subject 1",
      "subject 0" in that order. */
  lemma TestLog(hashes: seq<string>, parents: seq<string>, details: string -> Result<string>)
    requires |hashes| == 3 && |parents| == 3
    requires forall i | 0 <= i < 3 :: IsLineField(hashes[i]) && IsLineField(parents[i])
    requires forall i | 0 <= i < 3 ::
      details(hashes[i]) == Ok(DetailOutput(TestHistory(hashes, parents)[i]) + "\n\n")
    ensures ResolveAll(HashLines(HashListing(hashes)), Resolver(details))
         == Ok([TestCommit(hashes[0], parents[0], "subject 2"),
                TestCommit(hashes[1], parents[1], "subject 1"),
                TestCommit(hashes[2], parents[2], "subject 0")])
  {
    TestHistoryAt(hashes, parents);
    var commits := TestHistory(hashes, parents);
    var pads := ["\n\n", "\n\n", "\n\n"];
    assert AllIn("\n\n", WHITESPACE);
    forall i | 0 <= i < 3
      ensures && WellFormed(commits[i])
              && AllIn(pads[i], WHITESPACE)
              && details(hashes[i]) == Ok(DetailOutput(commits[i]) + pads[i])
    {
      TestCommitWellFormed(hashes[i], parents[i], 2 - i);
      assert pads[i] == "\n\n";
    }
    LogRoundTrip(hashes, commits, pads, details);
    TestSubjects();
  }
}
