/** The byte-slice helpers the wrapper relies on: `bytes.Split`,
    `bytes.Join`, `bytes.TrimSpace` and `strings.Trim`, on strings of
    characters. */
module Text {

  /** The ASCII white-space characters `bytes.TrimSpace` removes. */
  const WHITESPACE: set<char> := {' ', '\t', '\n', '\U{0B}', '\U{0C}', '\r'}

  /** Number of occurrences of `c` in `s`. */
  function Count(s: string, c: char): nat
  {
    if s == [] then 0 else (if s[0] == c then 1 else 0) + Count(s[1..], c)
  }

  /** Counting distributes over concatenation. */
  lemma {:induction false} CountAppend(a: string, b: string, c: char)
    ensures Count(a + b, c) == Count(a, c) + Count(b, c)
  {
    if a == [] {
      assert a + b == b;
    } else {
      assert (a + b)[1..] == a[1..] + b;
      CountAppend(a[1..], b, c);
    }
  }

  /** A character occurs nowhere exactly when it is counted zero times. */
  lemma {:induction false} CountZero(s: string, c: char)
    ensures Count(s, c) == 0 <==> c !in s
  {
    if s != [] {
      CountZero(s[1..], c);
      assert s == [s[0]] + s[1..];
    }
  }

  /** How often `c` occurs in all the parts together. */
  function CountAll(parts: seq<string>, c: char): nat
  {
    if parts == [] then 0 else Count(parts[0], c) + CountAll(parts[1..], c)
  }

  /** The total length of the parts. */
  function LengthAll(parts: seq<string>): nat
  {
    if parts == [] then 0 else |parts[0]| + LengthAll(parts[1..])
  }

  /** `bytes.Join`: the parts with one `sep` between neighbours, so the
      result is as long as the parts and their separators together. */
  function Join(parts: seq<string>, sep: char): (r: string)
    ensures |r| == LengthAll(parts) + (if parts == [] then 0 else |parts| - 1)
  {
    if parts == [] then ""
    else if |parts| == 1 then parts[0]
    else parts[0] + [sep] + Join(parts[1..], sep)
  }

  /** Every `sep` in a join is either inside a part or one of the
      separators between the parts. */
  lemma {:induction false} JoinCountAll(parts: seq<string>, sep: char)
    ensures Count(Join(parts, sep), sep) == CountAll(parts, sep) + (if parts == [] then 0 else |parts| - 1)
  {
    if |parts| > 1 {
      var rest := Join(parts[1..], sep);
      JoinCountAll(parts[1..], sep);
      CountAppend(parts[0] + [sep], rest, sep);
      CountAppend(parts[0], [sep], sep);
    }
  }

  /** Parts free of the separator are joined with exactly one separator
      between each two neighbours and none anywhere else. */
  lemma JoinCount(parts: seq<string>, sep: char)
    requires forall i | 0 <= i < |parts| :: sep !in parts[i]
    ensures Count(Join(parts, sep), sep) == if parts == [] then 0 else |parts| - 1
  {
    JoinCountAll(parts, sep);
    CountAllZero(parts, sep);
  }

  /** Parts free of `c` hold no `c` altogether. */
  lemma {:induction false} CountAllZero(parts: seq<string>, c: char)
    requires forall i | 0 <= i < |parts| :: c !in parts[i]
    ensures CountAll(parts, c) == 0
  {
    if parts != [] {
      CountZero(parts[0], c);
      assert forall i | 0 <= i < |parts| - 1 :: parts[1..][i] == parts[i + 1];
      CountAllZero(parts[1..], c);
    }
  }

  /** `bytes.Split` with a one-character separator: the maximal pieces
      between separators, one more piece than there are separators. */
  function Split(s: string, sep: char): (r: seq<string>)
    ensures |r| == Count(s, sep) + 1
  {
    if s == [] then [""]
    else
      var rest := Split(s[1..], sep);
      if s[0] == sep then [""] + rest
      else [[s[0]] + rest[0]] + rest[1..]
  }

  /** The pieces hold no separator and, joined with it, give back `s`. */
  lemma {:induction false} SplitPieces(s: string, sep: char)
    ensures forall i | 0 <= i < |Split(s, sep)| :: sep !in Split(s, sep)[i]
    ensures Join(Split(s, sep), sep) == s
  {
    if s != [] {
      SplitPieces(s[1..], sep);
    }
  }

  /** No piece holds the separator (one piece at a time). */
  lemma SplitPiece(s: string, sep: char, i: nat)
    requires i < |Split(s, sep)|
    ensures sep !in Split(s, sep)[i]
  {
    SplitPieces(s, sep);
  }

  /** A string without a separator is a single piece. */
  lemma {:induction false} SplitNoSeparator(s: string, sep: char)
    requires sep !in s
    ensures Split(s, sep) == [s]
  {
    if s != [] {
      SplitNoSeparator(s[1..], sep);
      assert [s[0]] + s[1..] == s;
    }
  }

  /** Splitting at a separator splits the two sides independently. */
  lemma {:induction false} SplitAppend(a: string, sep: char, b: string)
    ensures Split(a + [sep] + b, sep) == Split(a, sep) + Split(b, sep)
  {
    if a == [] {
      assert a + [sep] + b == [sep] + b;
    } else {
      assert (a + [sep] + b)[1..] == a[1..] + [sep] + b;
      SplitAppend(a[1..], sep, b);
    }
  }

  /** Join and Split are inverse on pieces free of the separator. */
  lemma {:induction false} SplitJoin(parts: seq<string>, sep: char)
    requires parts != []
    requires forall i | 0 <= i < |parts| :: sep !in parts[i]
    ensures Split(Join(parts, sep), sep) == parts
  {
    if |parts| == 1 {
      SplitNoSeparator(parts[0], sep);
    } else {
      SplitJoin(parts[1..], sep);
      SplitAppend(parts[0], sep, Join(parts[1..], sep));
      SplitNoSeparator(parts[0], sep);
    }
  }

  /** Lines free of the separator, joined and followed by a separator
      and a rest, split back into those lines and the pieces of the rest. */
  lemma SplitAfterLines(lines: seq<string>, sep: char, rest: string)
    requires lines != []
    requires forall i | 0 <= i < |lines| :: sep !in lines[i]
    ensures Split(Join(lines, sep) + [sep] + rest, sep) == lines + Split(rest, sep)
  {
    SplitAppend(Join(lines, sep), sep, rest);
    SplitJoin(lines, sep);
  }

  /** The lines, each followed by `sep`: how a program prints one item
      per line. */
  function Terminated(lines: seq<string>, sep: char): string
  {
    if lines == [] then "" else lines[0] + [sep] + Terminated(lines[1..], sep)
  }

  /** Terminated lines followed by a separator-free rest split back into
      those lines and the rest as the last piece. */
  lemma {:induction false} SplitTerminated(lines: seq<string>, sep: char, rest: string)
    requires forall i | 0 <= i < |lines| :: sep !in lines[i]
    requires sep !in rest
    ensures Split(Terminated(lines, sep) + rest, sep) == lines + [rest]
  {
    if lines == [] {
      assert Terminated(lines, sep) + rest == rest;
      SplitNoSeparator(rest, sep);
    } else {
      var tail := Terminated(lines[1..], sep) + rest;
      assert Terminated(lines, sep) + rest == lines[0] + [sep] + tail;
      SplitTerminated(lines[1..], sep, rest);
      SplitAppend(lines[0], sep, tail);
      SplitNoSeparator(lines[0], sep);
      assert [lines[0]] + (lines[1..] + [rest]) == lines + [rest];
    }
  }

  /** Join of six lines, written out. */
  lemma JoinSix(a: string, b: string, c: string, d: string, e: string, f: string, sep: char)
    ensures Join([a, b, c, d, e, f], sep)
         == a + [sep] + b + [sep] + c + [sep] + d + [sep] + e + [sep] + f
  {
    JoinCons(e, [f], sep);
    JoinCons(d, [e, f], sep);
    JoinCons(c, [d, e, f], sep);
    JoinCons(b, [c, d, e, f], sep);
    JoinCons(a, [b, c, d, e, f], sep);
  }

  /** Joining a line in front of further lines. */
  lemma JoinCons(line: string, rest: seq<string>, sep: char)
    requires rest != []
    ensures Join([line] + rest, sep) == line + [sep] + Join(rest, sep)
  {
    assert ([line] + rest)[1..] == rest;
  }

  /** Every character of `s` is in `cut`. */
  predicate AllIn(s: string, cut: set<char>)
  {
    forall i | 0 <= i < |s| :: s[i] in cut
  }

  /** Neither end of `s` is in `cut`. */
  predicate IsTrimmed(s: string, cut: set<char>)
  {
    s == [] || (s[0] !in cut && s[|s| - 1] !in cut)
  }

  /** How many characters at the front of `s` are in `cut`. */
  function LeadingCount(s: string, cut: set<char>): (k: nat)
    ensures k <= |s|
    ensures forall i | 0 <= i < k :: s[i] in cut
    ensures k < |s| ==> s[k] !in cut
  {
    if s != [] && s[0] in cut then 1 + LeadingCount(s[1..], cut) else 0
  }

  /** Where the run of characters from `cut` at the end of `s` begins. */
  function TrailingStart(s: string, cut: set<char>): (k: nat)
    ensures k <= |s|
    ensures forall i | k <= i < |s| :: s[i] in cut
    ensures 0 < k ==> s[k - 1] !in cut
  {
    if s != [] && s[|s| - 1] in cut then TrailingStart(s[..|s| - 1], cut) else |s|
  }

  /** `strings.TrimLeft`: remove the leading characters that are in `cut`. */
  function TrimLeft(s: string, cut: set<char>): string
  {
    s[LeadingCount(s, cut)..]
  }

  /** `strings.TrimRight`: remove the trailing characters that are in `cut`. */
  function TrimRight(s: string, cut: set<char>): string
  {
    s[..TrailingStart(s, cut)]
  }

  /** `strings.Trim(s, cutset)`: remove every leading and trailing
      character that is in `cut` (all of them, not one layer). */
  function Trim(s: string, cut: set<char>): (r: string)
    ensures |r| <= |s| && IsTrimmed(r, cut)
  {
    TrimRight(TrimLeft(s, cut), cut)
  }

  /** `bytes.TrimSpace` over ASCII white space. */
  function TrimSpace(s: string): (r: string)
    ensures |r| <= |s| && IsTrimmed(r, WHITESPACE)
  {
    Trim(s, WHITESPACE)
  }

  /** Trimming adds no character: what is not in `s` is not in its trim. */
  lemma TrimKeepsOut(s: string, cut: set<char>, c: char)
    requires c !in s
    ensures c !in Trim(s, cut)
  {
    var l := TrimLeft(s, cut);
    assert forall k | 0 <= k < |l| :: l[k] == s[LeadingCount(s, cut) + k];
    var r := TrimRight(l, cut);
    assert forall k | 0 <= k < |r| :: r[k] == l[k];
  }

  /** The leading run of `cut` characters ends at the first character
      outside `cut`. */
  lemma LeadingCountIs(s: string, cut: set<char>, i: nat)
    requires i <= |s| && AllIn(s[..i], cut)
    requires i < |s| ==> s[i] !in cut
    ensures LeadingCount(s, cut) == i
  {
    var k := LeadingCount(s, cut);
    assert forall t | 0 <= t < i :: s[t] in cut by {
      forall t | 0 <= t < i ensures s[t] in cut { assert s[t] == s[..i][t]; }
    }
    assert forall t | 0 <= t < k :: s[t] in cut by {
      forall t | 0 <= t < k ensures s[t] in cut { assert s[t] == s[..k][t]; }
    }
  }

  /** The trailing run of `cut` characters starts after the last
      character outside `cut`. */
  lemma TrailingStartIs(s: string, cut: set<char>, j: nat)
    requires j <= |s| && AllIn(s[j..], cut)
    requires 0 < j ==> s[j - 1] !in cut
    ensures TrailingStart(s, cut) == j
  {
    var k := TrailingStart(s, cut);
    assert forall t | j <= t < |s| :: s[t] in cut by {
      forall t | j <= t < |s| ensures s[t] in cut { assert s[t] == s[j..][t - j]; }
    }
    assert forall t | k <= t < |s| :: s[t] in cut by {
      forall t | k <= t < |s| ensures s[t] in cut { assert s[t] == s[k..][t - k]; }
    }
  }

  /** Trim keeps exactly the infix s[i..j] left once a prefix and a
      suffix made only of `cut` are removed and neither end of the infix
      is in `cut`: an independent description of what Trim computes. */
  lemma TrimIsInfix(s: string, cut: set<char>, i: nat, j: nat)
    requires i <= j <= |s|
    requires AllIn(s[..i], cut) && AllIn(s[j..], cut)
    requires IsTrimmed(s[i..j], cut)
    ensures Trim(s, cut) == s[i..j]
  {
    if i < j {
      LeadingCountIs(s, cut, i);
      var l := s[i..];
      assert l[j - i - 1] == s[j - 1];
      assert l[j - i..] == s[j..];
      TrailingStartIs(l, cut, j - i);
    } else {
      assert AllIn(s, cut) by {
        forall k | 0 <= k < |s| ensures s[k] in cut {
          if k < i { assert s[..i][k] == s[k]; } else { assert s[j..][k - j] == s[k]; }
        }
      }
      assert s[..|s|] == s;
      LeadingCountIs(s, cut, |s|);
    }
  }

  /** A trimmed string is its own trim, and only a trimmed string is. */
  lemma TrimFixedPoint(s: string, cut: set<char>)
    ensures Trim(s, cut) == s <==> IsTrimmed(s, cut)
  {
    if IsTrimmed(s, cut) {
      TrimIsInfix(s, cut, 0, |s|);
      assert s[0..|s|] == s;
    }
  }

  /** Characters from `cut` appended to a trimmed string are removed again. */
  lemma TrimAppended(t: string, w: string, cut: set<char>)
    requires IsTrimmed(t, cut) && AllIn(w, cut)
    ensures Trim(t + w, cut) == t
  {
    var s := t + w;
    assert s[..0] == [];
    assert s[|t|..] == w;
    assert s[0..|t|] == t;
    TrimIsInfix(s, cut, 0, |t|);
  }
}
