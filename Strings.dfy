/**
 * The two Go string primitives the server's logic is built on, for a
 * one-character separator: `strings.LastIndex` and `strings.Split`.
 * A Go string is a byte sequence; the separators used here ('.' and '/')
 * are ASCII, and an ASCII byte never occurs inside a multi-byte UTF-8
 * sequence, so working on characters gives the same answers.
 */
module Strings {

  /** `strings.LastIndex(s, string(c))`: the index of the last `c` in `s`, or -1 if there is none. */
  function LastIndexOf(s: string, c: char): (i: int)
    ensures -1 <= i < |s|
    ensures i == -1 <==> c !in s
    ensures 0 <= i ==> s[i] == c && c !in s[i + 1..]
  {
    if s == [] then -1
    else if s[|s| - 1] == c then |s| - 1
    else
      var i := LastIndexOf(s[..|s| - 1], c);
      assert s == s[..|s| - 1] + [s[|s| - 1]];
      assert 0 <= i ==> s[i + 1..] == s[..|s| - 1][i + 1..] + [s[|s| - 1]];
      i
  }

  /** The last occurrence is characterised by its two properties: an occurrence with none after it. */
  lemma LastIndexOfUnique(s: string, c: char, k: int)
    requires 0 <= k < |s| && s[k] == c && c !in s[k + 1..]
    ensures LastIndexOf(s, c) == k
  {
    var i := LastIndexOf(s, c);
    assert forall j :: i < j < |s| ==> s[j] == s[i + 1..][j - i - 1];
    assert forall j :: k < j < |s| ==> s[j] == s[k + 1..][j - k - 1];
  }

  /** Joins `parts` with `sep` between consecutive parts (`strings.Join`). */
  function Join(parts: seq<string>, sep: char): string
    requires parts != []
  {
    if |parts| == 1 then parts[0] else parts[0] + [sep] + Join(parts[1..], sep)
  }

  /**
   * `strings.Split(s, string(sep))`: the pieces of `s` between separators,
   * so an empty `s` gives one empty piece and a trailing separator gives an
   * empty last piece. Joining the pieces back gives `s`.
   */
  function Split(s: string, sep: char): (parts: seq<string>)
    ensures parts != []
    ensures forall k :: 0 <= k < |parts| ==> sep !in parts[k]
    ensures Join(parts, sep) == s
  {
    if s == [] then [""]
    else
      var rest := Split(s[1..], sep);
      if s[0] == sep then
        assert ([""] + rest)[1..] == rest;
        [""] + rest
      else
        var parts := [[s[0]] + rest[0]] + rest[1..];
        assert parts[1..] == rest[1..];
        parts
  }

  /** A separator-free string is a single piece. */
  lemma {:induction false} SplitWithoutSeparator(s: string, sep: char)
    requires sep !in s
    ensures Split(s, sep) == [s]
  {
    if s != [] {
      SplitWithoutSeparator(s[1..], sep);
    }
  }

  /** Splitting at one separator splits the two sides independently. */
  lemma {:induction false} SplitAround(a: string, sep: char, b: string)
    ensures Split(a + [sep] + b, sep) == Split(a, sep) + Split(b, sep)
  {
    if a == [] {
      assert a + [sep] + b == [sep] + b;
      assert ([sep] + b)[1..] == b;
    } else {
      assert (a + [sep] + b)[1..] == a[1..] + [sep] + b;
      SplitAround(a[1..], sep, b);
    }
  }

  /** A separator-free piece followed by a separator is the first piece. */
  lemma {:induction false} SplitFindsFirstPiece(piece: string, sep: char, after: string)
    requires sep !in piece
    ensures piece in Split(piece + [sep] + after, sep)
  {
    SplitWithoutSeparator(piece, sep);
    SplitAround(piece, sep, after);
    assert Split(piece + [sep] + after, sep)[0] == piece;
  }

  /** A separator-free piece between two separators is one of the pieces. */
  lemma {:induction false} SplitFindsInnerPiece(before: string, piece: string, sep: char, after: string)
    requires sep !in piece
    ensures piece in Split(before + [sep] + piece + [sep] + after, sep)
  {
    var tail := piece + [sep] + after;
    SplitFindsFirstPiece(piece, sep, after);
    assert before + [sep] + piece + [sep] + after == before + [sep] + tail;
    SplitAround(before, sep, tail);
  }

  /** Splitting undoes joining, for separator-free parts. */
  lemma {:induction false} SplitJoin(parts: seq<string>, sep: char)
    requires parts != []
    requires forall k :: 0 <= k < |parts| ==> sep !in parts[k]
    ensures Split(Join(parts, sep), sep) == parts
  {
    SplitWithoutSeparator(parts[0], sep);
    if |parts| > 1 {
      SplitJoin(parts[1..], sep);
      SplitAround(parts[0], sep, Join(parts[1..], sep));
    }
  }
}
