/** The part of Go's `strings` package that the pointer resolver relies on:
    `strings.Split` with a one-character separator, `strings.Join`, and the
    "text before the first separator" idiom `strings.Split(s, sep)[0]`.
    Strings are sequences of characters; nothing here decodes UTF-8. */
module GoStrings {

  /** `strings.Join(parts, sep)`: the parts with `sep` between neighbours;
      no parts give the empty string. */
  function Join(parts: seq<string>, sep: string): string
  {
    if |parts| == 0 then ""
    else if |parts| == 1 then parts[0]
    else parts[0] + sep + Join(parts[1..], sep)
  }

  /** The position of the first `c` in `s`. */
  function IndexOf(s: string, c: char): (k: nat)
    requires c in s
    ensures k < |s| && s[k] == c && c !in s[..k]
  {
    if s[0] == c then 0
    else
      var k := IndexOf(s[1..], c);
      assert s[..k + 1] == [s[0]] + s[1..][..k];
      k + 1
  }

  /** `strings.Split(s, string(sep))`: the maximal pieces of `s` between
      occurrences of `sep`. There is always at least one piece (the empty
      string splits into one empty piece), and a second one exactly when `s`
      holds the separator. */
  function Split(s: string, sep: char): (r: seq<string>)
    ensures |r| >= 1
    ensures sep in s <==> |r| >= 2
    decreases |s|
  {
    if sep !in s then [s]
    else
      var k := IndexOf(s, sep);
      [s[..k]] + Split(s[k + 1..], sep)
  }

  /** No piece of a split holds the separator. */
  lemma {:induction false} SplitPiecesFree(s: string, sep: char)
    ensures forall i :: 0 <= i < |Split(s, sep)| ==> sep !in Split(s, sep)[i]
    decreases |s|
  {
    if sep in s {
      var k := IndexOf(s, sep);
      SplitPiecesFree(s[k + 1..], sep);
    }
  }

  /** Joining the pieces of a split with the separator gives the original
      string back. */
  lemma {:induction false} JoinSplit(s: string, sep: char)
    ensures Join(Split(s, sep), [sep]) == s
    decreases |s|
  {
    if sep in s {
      var k := IndexOf(s, sep);
      JoinSplit(s[k + 1..], sep);
      assert s == s[..k] + [sep] + s[k + 1..];
    }
  }

  /** `strings.Split(s, string(sep))[0]`: the text of `s` before the first
      `sep`, or all of `s` when it holds no `sep`. */
  function Before(s: string, sep: char): string
  {
    Split(s, sep)[0]
  }

  /** Before gives the longest prefix free of the separator: it holds no
      separator, and it is all of `s` or is followed in `s` by the separator. */
  lemma BeforeShape(s: string, sep: char)
    ensures var r := Before(s, sep);
      sep !in r && |r| <= |s| && s[..|r|] == r && (|r| == |s| || s[|r|] == sep)
  {
  }

  /** The first piece of a join is a prefix of the joined string, followed
      by the separator whenever there is a second piece. */
  lemma JoinHead(parts: seq<string>, sep: string)
    requires |parts| >= 1
    ensures |parts[0]| <= |Join(parts, sep)|
    ensures Join(parts, sep)[..|parts[0]|] == parts[0]
    ensures |parts| == 1 ==> Join(parts, sep) == parts[0]
    ensures |parts| >= 2 ==> Join(parts, sep) == parts[0] + sep + Join(parts[1..], sep)
  {
  }

  /** A string without the separator splits into itself alone. */
  lemma SplitWithoutSep(s: string, sep: char)
    requires sep !in s
    ensures Split(s, sep) == [s]
  {
  }

  /** The first occurrence is the one with no earlier occurrence. */
  lemma IndexOfAt(s: string, c: char, j: nat)
    requires j < |s| && s[j] == c && c !in s[..j]
    ensures IndexOf(s, c) == j
  {
  }

  /** Splitting `p + sep + t`, where `p` has no separator, yields `p` followed
      by the pieces of `t`. */
  lemma SplitAfterPiece(p: string, sep: char, t: string)
    requires sep !in p
    ensures Split(p + [sep] + t, sep) == [p] + Split(t, sep)
  {
    var s := p + [sep] + t;
    assert s[..|p|] == p && s[|p|] == sep;
    IndexOfAt(s, sep, |p|);
    assert s[|p| + 1..] == t;
  }

  /** Split inverts Join: pieces without the separator are recovered exactly
      from their join. Together with Split's own contract this makes Split
      the unique way of cutting a string at every separator. */
  lemma {:induction false} SplitJoin(parts: seq<string>, sep: char)
    requires |parts| >= 1
    requires forall i :: 0 <= i < |parts| ==> sep !in parts[i]
    ensures Split(Join(parts, [sep]), sep) == parts
  {
    if |parts| == 1 {
      SplitWithoutSep(parts[0], sep);
    } else {
      var rest := Join(parts[1..], [sep]);
      assert Join(parts, [sep]) == parts[0] + [sep] + rest;
      SplitJoin(parts[1..], sep);
      SplitAfterPiece(parts[0], sep, rest);
    }
  }

  /** The prefix of `s` that reaches `n` characters past position `k` is the
      text before `k`, the character at `k`, and `n` characters after it. */
  lemma SliceAround(s: string, k: nat, n: nat)
    requires k + 1 + n <= |s|
    ensures s[..k + 1 + n] == s[..k] + [s[k]] + s[k + 1..][..n]
  {
  }
}
