/** The commit record and the parser for one commit's details
    (`Commit`, `Commit.String` and the text handling of `NewCommit`). */
module Commits {
  import opened Outcomes
  import opened Text
  import opened Decimal

  /** One commit as `git log` describes it. `parentHash` is the `%P`
      line as printed: empty for a root commit, several space-separated
      hashes for a merge. */
  datatype Commit = Commit(
    hash: string,
    author: string,
    authorEmail: string,
    parentHash: string,
    subject: string,
    body: string,
    timestamp: int)

  /** A one-line field: no newline, no white space at either end. */
  predicate IsLineField(s: string)
  {
    '\n' !in s && IsTrimmed(s, WHITESPACE)
  }

  /** The commits the parser can produce: single-line scalar fields, a
      body with no white space at either end, a 64-bit timestamp. */
  predicate WellFormed(c: Commit)
  {
    && IsLineField(c.hash)
    && IsLineField(c.author)
    && IsLineField(c.authorEmail)
    && IsLineField(c.parentHash)
    && IsLineField(c.subject)
    && IsTrimmed(c.body, WHITESPACE)
    && MIN_INT64 <= c.timestamp <= MAX_INT64
  }

  /** The text handling of NewCommit: the output of
      `git log -1 --pretty=%H%n%an%n%ae%n%ct%n%P%n%s%n%b` split at
      newlines; lines 0, 1, 2, 4 and 5 trimmed into the scalar fields,
      line 3 trimmed and read by Atoi, every line from 6 on joined back
      with newlines and trimmed into the body. Where Go would index past
      the end of the lines (fewer than four lines, or fewer than six once
      the timestamp has parsed) it panics; here that is IndexOutOfRange. */
  function ParseCommit(output: string): (r: Result<Commit>)
    ensures r.Ok? ==> WellFormed(r.value)
  {
    var lines := Split(output, '\n');
    if |lines| < 4 then Err(IndexOutOfRange(|lines|, |lines|))
    else
      match Atoi(TrimSpace(lines[3]))
      case Err(e) => Err(e)
      case Ok(timestamp) =>
        if |lines| < 6 then Err(IndexOutOfRange(|lines|, |lines|))
        else
          LineFieldOf(output, 0);
          LineFieldOf(output, 1);
          LineFieldOf(output, 2);
          LineFieldOf(output, 4);
          LineFieldOf(output, 5);
          Ok(Commit(
               hash := TrimSpace(lines[0]),
               author := TrimSpace(lines[1]),
               authorEmail := TrimSpace(lines[2]),
               parentHash := TrimSpace(lines[4]),
               subject := TrimSpace(lines[5]),
               body := TrimSpace(Join(lines[6..], '\n')),
               timestamp := timestamp))
  }

  /** A trimmed line of the output is a one-line field. */
  lemma LineFieldOf(output: string, i: nat)
    requires i < |Split(output, '\n')|
    ensures IsLineField(TrimSpace(Split(output, '\n')[i]))
  {
    SplitPiece(output, '\n', i);
    TrimKeepsOut(Split(output, '\n')[i], WHITESPACE, '\n');
  }

  /** NewCommit: a failed `git log -1` is passed on; its output is parsed. */
  function NewCommit(output: Result<string>): (r: Result<Commit>)
    ensures output.Err? ==> r == Err(output.error)
    ensures r.Ok? ==> output.Ok? && WellFormed(r.value)
  {
    match output
    case Err(e) => Err(e)
    case Ok(text) => ParseCommit(text)
  }

  /** The six one-line fields of `c` in the order the format prints them. */
  function Header(c: Commit): seq<string>
  {
    [c.hash, c.author, c.authorEmail, FormatInt(c.timestamp), c.parentHash, c.subject]
  }

  /** What git prints for `c` with the seven-line format, before the
      trailing white space that `%b` and the line terminator add. */
  function DetailOutput(c: Commit): string
  {
    Join(Header(c), '\n') + "\n" + c.body
  }

  /** A string of decimal digits, possibly signed, is a one-line field. */
  lemma FormatIntIsLineField(n: int)
    ensures IsLineField(FormatInt(n))
  {
    var s := FormatInt(n);
    if n < 0 {
      assert forall i | 1 <= i < |s| :: s[i] == FormatNat(-n)[i - 1];
    }
    assert forall i | 0 <= i < |s| :: s[i] == '-' || IsDigit(s[i]);
  }

  /** Six trimmed header lines with a readable timestamp, followed by any
      lines at all, parse into those fields and the trimmed joined rest. */
  lemma ParseCommitLines(output: string, header: seq<string>, bodyLines: seq<string>)
    requires Split(output, '\n') == header + bodyLines
    requires |header| == 6 && forall i | 0 <= i < 6 :: IsTrimmed(header[i], WHITESPACE)
    requires Atoi(header[3]).Ok?
    ensures ParseCommit(output)
         == Ok(Commit(header[0], header[1], header[2], header[4], header[5],
                      TrimSpace(Join(bodyLines, '\n')), Atoi(header[3]).value))
  {
    var lines := Split(output, '\n');
    assert lines[6..] == bodyLines;
    forall i | 0 <= i < 6 ensures TrimSpace(lines[i]) == header[i] {
      TrimFixedPoint(header[i], WHITESPACE);
    }
  }

  /** When parsing succeeds and when it fails: it needs six lines and a
      readable timestamp line; an unreadable timestamp is reported as a
      number error once four lines exist, too few lines as an index past
      the end; with exactly six lines the body is empty. */
  lemma ParseCommitOutcome(output: string)
    ensures var lines := Split(output, '\n');
      ParseCommit(output).Ok? <==> |lines| >= 6 && Atoi(TrimSpace(lines[3])).Ok?
    ensures var lines := Split(output, '\n');
      |lines| >= 4 && Atoi(TrimSpace(lines[3])).Err? ==>
        ParseCommit(output) == Err(NumError(TrimSpace(lines[3])))
    ensures var lines := Split(output, '\n');
      ParseCommit(output).Err? && ParseCommit(output).error.IndexOutOfRange? ==> |lines| < 6
    ensures var lines := Split(output, '\n');
      |lines| < 4 || (|lines| < 6 && Atoi(TrimSpace(lines[3])).Ok?) ==>
        ParseCommit(output) == Err(IndexOutOfRange(|lines|, |lines|))
    ensures |Split(output, '\n')| == 6 && ParseCommit(output).Ok? ==> ParseCommit(output).value.body == ""
  {
  }

  /** Parsing what git prints for a well-formed commit, followed by any
      white space, gives back that commit: every field survives, a
      multi-line body with blank lines in it included. */
  lemma ParseDetailOutput(c: Commit, pad: string)
    requires WellFormed(c)
    requires AllIn(pad, WHITESPACE)
    ensures ParseCommit(DetailOutput(c) + pad) == Ok(c)
  {
    var header := Header(c);
    FormatIntIsLineField(c.timestamp);
    assert forall i | 0 <= i < 6 :: IsLineField(header[i]);
    var output := DetailOutput(c) + pad;
    assert output == Join(header, '\n') + "\n" + (c.body + pad);
    SplitAfterLines(header, '\n', c.body + pad);
    AtoiFormatInt(c.timestamp);
    ParseCommitLines(output, header, Split(c.body + pad, '\n'));
    SplitPieces(c.body + pad, '\n');
    TrimAppended(c.body, pad, WHITESPACE);
  }

  /** `%d` of the timestamp the tests commit with. */
  lemma FormatTestTimestamp()
    ensures FormatInt(1000000000) == "1000000000"
  {
    assert FormatNat(1) == "1";
    assert FormatNat(10) == "10";
    assert FormatNat(100) == "100";
    assert FormatNat(1000) == "1000";
    assert FormatNat(10000) == "10000";
    assert FormatNat(100000) == "100000";
    assert FormatNat(1000000) == "1000000";
    assert FormatNat(10000000) == "10000000";
    assert FormatNat(100000000) == "100000000";
  }

  /** The subject of the n-th commit the tests create. */
  function TestSubject(n: nat): string
  {
    "subject " + FormatInt(n)
  }

  /** The subjects of the three test commits, written out. */
  lemma TestSubjects()
    ensures TestSubject(0) == "subject 0"
    ensures TestSubject(1) == "subject 1"
    ensures TestSubject(2) == "subject 2"
  {
    assert FormatNat(0) == "0";
    assert FormatNat(1) == "1";
    assert FormatNat(2) == "2";
  }

  /** A commit the tests create, with the hash and parent left open
      (the tests do not compare them). */
  function TestCommit(hash: string, parent: string, subject: string): Commit
  {
    Commit(hash, "Andrei Thorp", "garoth@gmail.com", parent, subject, "body message", 1000000000)
  }

  /** The test commits can be parsed back: their fields are one-line and
      trimmed. */
  lemma TestCommitWellFormed(hash: string, parent: string, n: nat)
    requires IsLineField(hash) && IsLineField(parent)
    ensures WellFormed(TestCommit(hash, parent, TestSubject(n)))
  {
    FormatIntIsLineField(n);
    var subject := TestSubject(n);
    var digits := FormatInt(n);
    assert subject[|subject| - 1] == digits[|digits| - 1];
    assert forall i | 8 <= i < |subject| :: subject[i] == digits[i - 8];
    assert IsLineField(subject);
    assert IsLineField("Andrei Thorp");
    assert IsLineField("garoth@gmail.com");
    assert IsTrimmed("body message", WHITESPACE);
  }

  /** The detail output git prints for the test commit: `%b` ends the body
      with a newline and the format terminates with another. */
  lemma TestDetailOutput(hash: string, parent: string)
    ensures DetailOutput(TestCommit(hash, parent, "subject 2")) + "\n\n"
         == hash + "\n" + "Andrei Thorp" + "\n" + "garoth@gmail.com" + "\n"
            + "1000000000" + "\n" + parent + "\n" + "subject 2" + "\n"
            + "body message" + "\n\n"
  {
    FormatTestTimestamp();
    JoinSix(hash, "Andrei Thorp", "garoth@gmail.com", "1000000000", parent, "subject 2", '\n');
  }

  /** Parsing the test commit's detail output gives the author, email,
      timestamp, subject and body the tests expect. */
  lemma TestCommitParses(hash: string, parent: string)
    requires IsLineField(hash) && IsLineField(parent)
    ensures ParseCommit(hash + "\n" + "Andrei Thorp" + "\n" + "garoth@gmail.com" + "\n"
                        + "1000000000" + "\n" + parent + "\n" + "subject 2" + "\n"
                        + "body message" + "\n\n")
            == Ok(Commit(hash, "Andrei Thorp", "garoth@gmail.com", parent,
                         "subject 2", "body message", 1000000000))
  {
    TestSubjects();
    TestCommitWellFormed(hash, parent, 2);
    assert AllIn("\n\n", WHITESPACE);
    ParseDetailOutput(TestCommit(hash, parent, "subject 2"), "\n\n");
    TestDetailOutput(hash, parent);
  }

  /** `Commit.String`: a leading newline, then one labelled line per
      field; that is, the labelled header lines and the body line joined
      by newlines. */
  function String(c: Commit): (r: string)
    ensures r == Join(StringHeader(c), '\n') + "\n" + "| Body: " + c.body
  {
    var header := StringHeader(c);
    var s1 := "\n" + "+ Commit: " + c.hash;
    assert s1 == "" + "\n" + header[1];
    var s2 := s1 + "\n" + "| Author: " + c.author + " <" + c.authorEmail + ">";
    assert s2 == s1 + "\n" + header[2];
    var s3 := s2 + "\n" + "| Parent: " + c.parentHash;
    assert s3 == s2 + "\n" + header[3];
    var s4 := s3 + "\n" + "| Timestamp: " + FormatInt(c.timestamp);
    assert s4 == s3 + "\n" + header[4];
    var s5 := s4 + "\n" + "| Subject: " + c.subject;
    assert s5 == s4 + "\n" + header[5];
    JoinSix(header[0], header[1], header[2], header[3], header[4], header[5], '\n');
    s5 + "\n" + "| Body: " + c.body
  }

  /** The labelled lines String prints before the body line. */
  function StringHeader(c: Commit): seq<string>
  {
    ["", "+ Commit: " + c.hash, "| Author: " + c.author + " <" + c.authorEmail + ">",
     "| Parent: " + c.parentHash, "| Timestamp: " + FormatInt(c.timestamp),
     "| Subject: " + c.subject]
  }

  /** For a well-formed commit, String has an empty first line and then
      one line per scalar field, and the timestamp line reads back with
      Atoi. */
  lemma StringLines(c: Commit)
    requires WellFormed(c)
    ensures var lines := Split(String(c), '\n');
      && |lines| >= 7
      && lines[..6] == StringHeader(c)
      && Join(lines[6..], '\n') == "| Body: " + c.body
      && Atoi(lines[4][13..]) == Ok(c.timestamp)
  {
    var header := StringHeader(c);
    var last := "| Body: " + c.body;
    FormatIntIsLineField(c.timestamp);
    assert forall i | 0 <= i < 6 :: '\n' !in header[i];
    assert String(c) == Join(header, '\n') + "\n" + last;
    SplitAfterLines(header, '\n', last);
    SplitPieces(last, '\n');
    assert header[4][13..] == FormatInt(c.timestamp);
    AtoiFormatInt(c.timestamp);
  }
}
