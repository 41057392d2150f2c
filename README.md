# gowrapgit, modelled in Dafny

gowrapgit is a small Go library that drives the `git` command line and
turns what git prints into Go values. This project models the part of it
that holds logic once the git processes have run:

- **Branch listing** (`ListBranches`). The output of
  `git for-each-ref --format='%(refname)'` is split into lines. Each line
  is trimmed of white space and of every apostrophe at either end. The
  resulting slice loses its last entry only if that entry is empty.
- **Commit details** (`NewCommit` and the `Commit` record). The output of
  `git log -1 --pretty=%H%n%an%n%ae%n%ct%n%P%n%s%n%b` is split into lines.
  Lines 0, 1, 2, 4 and 5 become the scalar fields, line 3 is read as a
  decimal timestamp, and all lines from 6 on are joined back into the body.
  `Commit.String` renders a commit as labelled lines. The `Commit` struct
  (gowrapgit.go:201-204) is the datatype `Commits.Commit`.
- **History** (`Log`). A listing of hashes, one per line, is split. The
  last piece is dropped, and each remaining hash is resolved into a
  commit. The history comes back only if every commit resolves, and then
  in listing order (newest first).
- **Repository discovery** (`FindGits`). A pre-order walk of a directory
  tree probes every directory it reaches with "is this a repository". It records
  each directory where the probe succeeds and does not descend into it.

Every git invocation is replaced by an input or by a function argument:
- `ListBranches` receives the outcome of `for-each-ref` as a
  `Result<string>`.
- `NewCommit` receives the outcome of `git log -1` as a `Result<string>`.
- `Log` receives the outcome of the hash listing, plus a function from a
  hash to the outcome of `git log -1` for that hash.
- `FindGits` receives a directory tree and the `IsRepo` probe as a
  predicate on paths.

The modules follow the source:
- `Outcomes`: errors and `Result`.
- `Text`: `bytes.Split`, `bytes.Join`, `bytes.TrimSpace` and
  `strings.Trim`.
- `Decimal`: `strconv.Atoi` and `%d`.
- `Commits`: `Commit`, `NewCommit` and `Commit.String`.
- `RefList`: `ListBranches`.
- `History`: `Log`.
- `Discovery`: `FindGits`.

The source's loops stay loops:
- `ListBranches` fills an array line by line.
- `Log` fills an array of commits and returns early at the first failure.
- `FindGits` is a `Finder` object whose `paths` field the walk callback
  appends to.

Each method is proved equal to a specification function, and the
lemmas state what those functions promise.

`strings.Trim(line, "'")` removes every apostrophe at both ends of a
line, not one layer of quoting. The model follows the code. A ref name
that itself ends in apostrophes therefore loses them
(`RefList.TrailingApostrophesLost`).

## Model

| member | source | states |
|---|---|---|
| RefList.ListBranches | gowrapgit.go:165-181 | a failed git invocation is returned as is; otherwise the result is exactly the cleaned lines with an empty last entry removed |
| RefList.ParseOutput | gowrapgit.go:170-179 | splitting, cleaning into the slice and cutting an empty last entry gives ParseRefs of the output |
| RefList.CleanEach | gowrapgit.go:171-174 | the fresh slice holds, at every index, that line trimmed of white space and then of apostrophes |
| RefList.RefName | gowrapgit.go:173 | a cleaned line is no longer than the line and neither starts nor ends with an apostrophe |
| RefList.DropEmptyLast | gowrapgit.go:176-179 | the kept entries are a prefix of the lines, one shorter exactly when the last entry is empty, otherwise all of them |
| RefList.ParseRefsShape | gowrapgit.go:170-179 | one entry per newline, plus one unless the last line cleans to empty (only that entry is dropped); entry i is line i cleaned, and no entry starts or ends with an apostrophe |
| RefList.RefNameQuote | gowrapgit.go:173 | cleaning a quoted name gives the name back when it does not start or end with an apostrophe |
| RefList.Unquote | gowrapgit.go:173 | a line made of an apostrophe, a name and a run of apostrophes cleans to the name |
| RefList.RefNameStripsAll | gowrapgit.go:173 | every apostrophe that ends a name is removed together with the quoting one |
| RefList.SplitListing | gowrapgit.go:170 | the listing git prints splits into the quoted names plus one empty piece |
| RefList.CleanQuoted | gowrapgit.go:172-174 | cleaning the quoted names unquotes every one of them, in order |
| RefList.ParseListing | gowrapgit.go:170-181 | for any single-line names with no apostrophe at either end (empty names included), the listing parses back to exactly those names in order |
| RefList.TrailingApostrophesLost | gowrapgit.go:173 | a listed ref whose name ends in apostrophes comes back without them |
| RefList.TwoHeads | gowrapgit.go:170-181 | the listing of refs/heads/a and refs/heads/b parses to those two names |
| RefList.EmptyOutput | gowrapgit.go:176-179 | empty output lists no refs |
| Commits.ParseCommit | gowrapgit.go:225-237 | a parsed commit has single-line trimmed scalar fields, a trimmed body and a 64-bit timestamp |
| Commits.NewCommit | gowrapgit.go:220-237 | a failed git invocation is returned as is; a commit is only produced from output, and is well formed |
| Commits.LineFieldOf | gowrapgit.go:226-234 | each trimmed line of the output is a single-line field |
| Commits.ParseCommitOutcome | gowrapgit.go:225-235 | parsing succeeds exactly when there are at least six lines and line 3 is a number; once four lines exist an unreadable timestamp is a number error on that line, even with only four or five lines, because the timestamp is read before line 4; fewer than four lines, or fewer than six with a readable timestamp, is an index error, and an index error means fewer than six lines; with exactly six lines the body is empty |
| Commits.ParseCommitLines | gowrapgit.go:225-235 | six trimmed header lines and any further lines give those fields verbatim (a merge's space-separated parents included), the read timestamp and the trimmed joined rest as body |
| Commits.ParseDetailOutput | gowrapgit.go:215-237 | what git prints for a well-formed commit, followed by white space, parses back to that commit, multi-line bodies with blank lines included |
| Commits.FormatIntIsLineField | gowrapgit.go:229 | a printed timestamp is a single-line field |
| Commits.String | gowrapgit.go:206-211 | Commit.String is a leading newline and the five labelled lines, joined by newlines, then the body line |
| Commits.TestCommitParses | gowrapgit_test.go:220-247 | the test commit's details parse to author Andrei Thorp, the expected email, timestamp 1000000000, subject 2 and body message |
| Commits.TestCommitWellFormed | gowrapgit_test.go:220-227 | the test commits are well formed |
| Commits.TestDetailOutput | gowrapgit.go:215 | the detail output of the test commit, written out line by line |
| Commits.StringLines | gowrapgit.go:206-211 | for a well-formed commit, String splits back into the labelled header lines and the body, and the timestamp line reads back as the timestamp |
| Decimal.Atoi | gowrapgit.go:229-232 | a success lies in the 64-bit range; a failure is a number error on the input |
| Decimal.AtoiFormatInt | gowrapgit.go:229 | every 64-bit integer printed in decimal is read back by Atoi, and what is printed is canonical (optional minus sign, no leading zero, no signed zero) |
| Decimal.FormatIntAtoi | gowrapgit.go:229 | conversely, a canonical string that Atoi reads is exactly the decimal printing of its value: printing and reading are inverse between 64-bit integers and canonical strings |
| Decimal.AtoiCanonical | gowrapgit.go:229 | a canonical string reads as the value of its digits, negated under a minus sign |
| Decimal.FormatInt | gowrapgit.go:207-208 | the printing is never empty, never starts with a plus sign, and starts with a minus sign exactly for a negative number |
| Decimal.AtoiRejectsSpace | gowrapgit.go:229 | a string with white space inside it is not a number |
| Decimal.FormatNat | gowrapgit.go:207-208 | the decimal digits of n, with no leading zero, denote n |
| Text.Split | gowrapgit.go:170 | one piece more than there are separators |
| Text.Join | gowrapgit.go:235 | the join is as long as the parts together plus one separator between each two neighbours |
| Text.JoinCountAll | gowrapgit.go:235 | every separator in a join is inside a part or one of the separators between neighbours |
| Text.JoinCount | gowrapgit.go:235 | parts without the separator are joined with exactly one separator between each two neighbours |
| Text.SplitPieces | gowrapgit.go:170 | no piece holds the separator, and joining the pieces gives back the input |
| Text.SplitJoin | gowrapgit.go:235 | Split undoes Join on a non-empty list of pieces free of the separator |
| Text.SplitTerminated | gowrapgit.go:258-260 | lines each followed by a newline, then an unterminated rest, split into those lines and the rest |
| Text.Trim | gowrapgit.go:173 | the result is no longer than the input and neither end is a cut character |
| Text.TrimSpace | gowrapgit.go:226-235 | the result is no longer than the input and neither end is white space |
| Text.TrimIsInfix | gowrapgit.go:173 | Trim removes exactly the longest prefix and suffix made of cut characters |
| Text.TrimFixedPoint | gowrapgit.go:173 | a string is its own trim exactly when neither end is a cut character |
| Text.TrimAppended | gowrapgit.go:235 | cut characters appended to a trimmed string are removed again |
| Text.TrimKeepsOut | gowrapgit.go:226-234 | trimming introduces no character |
| History.Log | gowrapgit.go:253-271 | a failed listing is returned as is; otherwise the result is the resolution of every line but the last piece, in order |
| History.ResolveHashes | gowrapgit.go:261-271 | the loop that fills the commit array and returns at the first failure computes ResolveAll |
| History.HashLines | gowrapgit.go:258-260 | one hash per newline: the last piece is dropped whatever it holds |
| History.ResolveAllOk | gowrapgit.go:263-271 | the history is produced exactly when every hash resolves, and then commit i is hash i resolved |
| History.FirstError | gowrapgit.go:264-267 | when every hash before k resolves and hash k fails, the result is hash k's error, never a partial history |
| History.ErrorPropagates | gowrapgit.go:264-267 | a failure among the first k hashes is the failure of the whole listing |
| History.ResolveStep | gowrapgit.go:263-269 | one more iteration either extends the resolved prefix by the new commit or ends with its error |
| History.HashLinesListing | gowrapgit.go:258-260 | a listing of newline-terminated hashes gives back the hashes; an unterminated final line is lost |
| History.EmptyHistory | gowrapgit.go:258-271 | an empty listing gives an empty history |
| History.HistoryWellFormed | gowrapgit.go:263-271 | every commit in a resolved history is well formed |
| History.ResolvesEach | gowrapgit.go:264 | each hash whose details are a printed commit resolves to that commit |
| History.LogRoundTrip | gowrapgit.go:240-271 | the listing of any hashes whose details print given well-formed commits resolves to exactly those commits, in listing order |
| History.TestLog | gowrapgit_test.go:249-293 | the test history is the commits with subjects subject 2, subject 1 and subject 0, in that order |
| Discovery.Finder.constructor | gowrapgit.go:93 | a new finder holds the probe and no paths |
| Discovery.Finder.Visit | gowrapgit.go:95-102 | a successful probe appends the path and prunes (SkipDir); otherwise nothing is recorded and the walk goes on |
| Discovery.Finder.Walk | gowrapgit.go:95-104 | the walk appends exactly Found for the tree: pre-order, children in order, no descent below a recorded path |
| Discovery.FindGits | gowrapgit.go:92-107 | the result is exactly Found for the start directory |
| Discovery.FoundIsFiltered | gowrapgit.go:92-106 | Found is the pre-order of the tree filtered to probed repositories with no repository above them |
| Discovery.FoundMembers | gowrapgit.go:92-106 | a path is reported exactly when it is in the tree, its probe succeeds and every probe on the way down from the start path failed |
| Discovery.NoNesting | gowrapgit.go:96-98 | no reported path lies strictly inside another |
| Discovery.NothingFound | gowrapgit.go:92-106 | a tree with no repository gives no paths |
| Discovery.PreOrderBelow | gowrapgit.go:104 | every path the walk visits lies below the path it starts from |
| Discovery.FilterMembers | gowrapgit.go:96-97 | filtering keeps exactly the reported paths |
| Discovery.OneRepoBelow | gowrapgit.go:96-101 | a non-repository with one subdirectory reports what the subdirectory reports |
| Discovery.TestFindGits | gowrapgit_test.go:127-166 | the test tree reports a/b/c, flat and xxx/yyy, in that order |

## Left out

- Running git: `command`, `exists`, `sanityCheck`, `Clone`, `CurrentBranch`, `MakeBranch` and `Checkout` launch processes or stat files. Their outcomes are inputs.
- RefList.ListBranches: a failed `sanityCheck` and a failed `for-each-ref` both arrive as the one `Err` input. The choice of `refs/heads` or `refs/remotes` from `local` only changes the git arguments, so it is not modelled.
- History.Log: the choice between `git log` with and without `hashish` only changes the git arguments. Each hash line is passed to the details function untrimmed, as in the source.
- `IsRepo` and `IsBareRepo` run `git rev-parse`. The probe is a predicate argument of FindGits.
- Discovery.FindGits: files, symbolic links, walk errors and a missing start directory are not modelled. A probe on a file always fails, and the callback ignores its `err` argument. Children are assumed to be in the lexical order that `filepath.Walk` reads them in. Paths are sequences of components rather than joined strings.
- Commits.NewCommit: when Go would index past the end of the lines it panics. Here that is an `IndexOutOfRange` error. The empty `Commit` that Go returns next to an error is not modelled; `Result` carries only the error. `*Commit` pointers are values.
- Decimal.Atoi: Go's separate syntax and range errors are folded into one `NumError`.
- Text.TrimSpace: only ASCII white space is removed. Go also removes Unicode spaces.
- Logging through `log.Println` is left out.
