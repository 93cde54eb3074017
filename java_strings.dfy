/**
 * The parts of java.lang.String and java.lang.StringBuilder that the plugin
 * relies on, with the semantics of the Java library written out.
 */
module JavaStrings {

  /** `s.lastIndexOf(c)`: the position of the last `c` in `s`, or -1. */
  function LastIndexOf(s: string, c: char): (i: int)
    ensures -1 <= i < |s|
    ensures i == -1 <==> c !in s
    ensures i >= 0 ==> s[i] == c && c !in s[i + 1..]
  {
    if |s| == 0 then -1
    else if s[|s| - 1] == c then |s| - 1
    else
      var i := LastIndexOf(s[..|s| - 1], c);
      LastIndexOfSnoc(s, c, i);
      i
  }

  /** The last `c` of a text that does not end in `c` is the last `c` before its final character. */
  lemma LastIndexOfSnoc(s: string, c: char, i: int)
    requires |s| > 0 && s[|s| - 1] != c && -1 <= i < |s| - 1
    requires i == -1 <==> c !in s[..|s| - 1]
    requires i >= 0 ==> s[i] == c && c !in s[..|s| - 1][i + 1..]
    ensures i == -1 <==> c !in s
    ensures i >= 0 ==> c !in s[i + 1..]
  {
    assert s[..|s| - 1] + [s[|s| - 1]] == s;
    if i >= 0 {
      assert s[i + 1..] == s[..|s| - 1][i + 1..] + [s[|s| - 1]];
    }
  }

  /** The position of a `c` with no `c` after it is the last position of `c`. */
  lemma LastIndexOfAt(s: string, c: char, i: int)
    requires 0 <= i < |s| && s[i] == c && c !in s[i + 1..]
    ensures LastIndexOf(s, c) == i
  {
  }

  /** `s.endsWith(suffix)`. */
  predicate EndsWith(s: string, suffix: string) {
    |suffix| <= |s| && s[|s| - |suffix|..] == suffix
  }

  /** A text followed by a suffix ends with that suffix. */
  lemma EndsWithAppend(s: string, suffix: string)
    ensures EndsWith(s + suffix, suffix)
  {
    assert (s + suffix)[|s|..] == suffix;
  }

  /** Two texts that are equal once the same suffix follows them are equal. */
  lemma AppendCancel(a: string, b: string, suffix: string)
    requires a + suffix == b + suffix
    ensures a == b
  {
    assert a == (a + suffix)[..|a|];
    assert b == (b + suffix)[..|b|];
  }

  /** The fragments joined with one separator between neighbours (the inverse of splitting). */
  function JoinWith(fragments: seq<string>, sep: char): string
  {
    if |fragments| == 0 then ""
    else if |fragments| == 1 then fragments[0]
    else JoinWith(fragments[..|fragments| - 1], sep) + [sep] + fragments[|fragments| - 1]
  }

  /** Joining two non-empty runs of fragments puts one separator between the two joins. */
  lemma {:induction false} JoinWithAppend(a: seq<string>, b: seq<string>, sep: char)
    requires |a| > 0 && |b| > 0
    ensures JoinWith(a + b, sep) == JoinWith(a, sep) + [sep] + JoinWith(b, sep)
    decreases |b|
  {
    if |b| > 1 {
      var b' := b[..|b| - 1];
      assert (a + b)[..|a + b| - 1] == a + b';
      JoinWithAppend(a, b', sep);
    } else {
      assert (a + b)[..|a + b| - 1] == a;
    }
  }

  /** The join of two or three fragments, written out. */
  lemma JoinWithShort(fragments: seq<string>, sep: char)
    requires 2 <= |fragments| <= 3
    ensures |fragments| == 2 ==> JoinWith(fragments, sep) == fragments[0] + [sep] + fragments[1]
    ensures |fragments| == 3 ==> JoinWith(fragments, sep) == fragments[0] + [sep] + fragments[1] + [sep] + fragments[2]
  {
    if |fragments| == 3 {
      assert fragments[..2][..1] == [fragments[0]];
    } else {
      assert fragments[..1] == [fragments[0]];
    }
  }

  /** A join split at a position: the two joins with one separator between them. */
  lemma JoinWithSplitAt(fragments: seq<string>, at: nat, sep: char)
    requires 0 < at < |fragments|
    ensures JoinWith(fragments[..at], sep) + [sep] + JoinWith(fragments[at..], sep) == JoinWith(fragments, sep)
  {
    JoinWithAppend(fragments[..at], fragments[at..], sep);
    assert fragments[..at] + fragments[at..] == fragments;
  }

  /**
   * The pieces of `s` between occurrences of `sep`, including empty pieces:
   * what `String.split` computes before it drops trailing empty strings.
   */
  function RawSplit(s: string, sep: char): (pieces: seq<string>)
    ensures |pieces| >= 1
    ensures forall k :: 0 <= k < |pieces| ==> sep !in pieces[k]
    ensures JoinWith(pieces, sep) == s
    decreases |s|
  {
    if sep !in s then [s]
    else
      var i := LastIndexOf(s, sep);
      var front := RawSplit(s[..i], sep);
      assert JoinWith(front + [s[i + 1..]], sep) == JoinWith(front, sep) + [sep] + s[i + 1..] by {
        JoinWithAppend(front, [s[i + 1..]], sep);
      }
      assert s[..i] + [sep] + s[i + 1..] == s;
      front + [s[i + 1..]]
  }

  /** Drops the empty strings at the end of a sequence of pieces. */
  function DropTrailingEmpty(pieces: seq<string>): (r: seq<string>)
    ensures r <= pieces
    ensures |r| == 0 || r[|r| - 1] != ""
    ensures forall k :: |r| <= k < |pieces| ==> pieces[k] == ""
  {
    if |pieces| > 0 && pieces[|pieces| - 1] == "" then DropTrailingEmpty(pieces[..|pieces| - 1])
    else pieces
  }

  /** A run of pieces that are all empty joins to separators only. */
  lemma {:induction false} JoinWithEmptyTail(pieces: seq<string>, n: nat, sep: char)
    requires n <= |pieces|
    requires forall k :: n <= k < |pieces| ==> pieces[k] == ""
    ensures JoinWith(pieces[..n], sep) <= JoinWith(pieces, sep)
    ensures forall k :: |JoinWith(pieces[..n], sep)| <= k < |JoinWith(pieces, sep)| ==> JoinWith(pieces, sep)[k] == sep
    decreases |pieces| - n
  {
    if n < |pieces| {
      JoinWithEmptyTail(pieces, n + 1, sep);
      var front := pieces[..n + 1];
      assert front[..|front| - 1] == pieces[..n];
      assert front[|front| - 1] == "";
      assert pieces[..|pieces|] == pieces;
    } else {
      assert pieces[..n] == pieces;
    }
  }

  /**
   * `s.split(String.valueOf(sep))` for a separator that is not a regular
   * expression metacharacter: the input itself when it holds no separator,
   * otherwise the pieces between separators without the trailing empty ones
   * (so `"_"` splits into no fragment at all and `"a__"` into `["a"]`).
   */
  function Split(s: string, sep: char): (fragments: seq<string>)
    ensures forall k :: 0 <= k < |fragments| ==> sep !in fragments[k]
    ensures |fragments| > 0 ==> fragments[|fragments| - 1] != "" || sep !in s
    ensures JoinWith(fragments, sep) <= s
    ensures forall k :: |JoinWith(fragments, sep)| <= k < |s| ==> s[k] == sep
  {
    if sep !in s then [s]
    else
      var raw := RawSplit(s, sep);
      var r := DropTrailingEmpty(raw);
      assert raw[..|r|] == r;
      JoinWithEmptyTail(raw, |r|, sep);
      r
  }

  /** Splitting keeps everything but separators at the very end of the input. */
  lemma SplitJoin(s: string, sep: char)
    requires |s| > 0 && s[|s| - 1] != sep
    ensures JoinWith(Split(s, sep), sep) == s
  {
  }

  /** Splitting a join of separator-free fragments gives back exactly those fragments, empty ones included. */
  lemma {:induction false} RawSplitJoinWith(fragments: seq<string>, sep: char)
    requires |fragments| >= 1
    requires forall k :: 0 <= k < |fragments| ==> sep !in fragments[k]
    ensures RawSplit(JoinWith(fragments, sep), sep) == fragments
    decreases |fragments|
  {
    if |fragments| > 1 {
      var front := fragments[..|fragments| - 1];
      var last := fragments[|fragments| - 1];
      assert forall k :: 0 <= k < |front| ==> sep !in front[k] by {
        forall k | 0 <= k < |front| ensures sep !in front[k] {
          assert front[k] == fragments[k];
        }
      }
      RawSplitJoinWith(front, sep);
      var head := JoinWith(front, sep);
      var s := JoinWith(fragments, sep);
      assert s == head + [sep] + last by {
        JoinWithSnoc(fragments, sep);
      }
      RawSplitSnoc(s, head, last, sep, front);
      FrontAndLast(fragments);
    }
  }

  /** A non-empty sequence is its front followed by its last element. */
  lemma FrontAndLast<T>(xs: seq<T>)
    requires |xs| > 0
    ensures xs[..|xs| - 1] + [xs[|xs| - 1]] == xs
  {
  }

  /** The first `i` elements of the first `i + 1` are the first `i`. */
  lemma PrefixOfPrefix<T>(xs: seq<T>, i: nat)
    requires i < |xs|
    ensures xs[..i + 1][..i] == xs[..i]
  {
  }

  /** Two one-element sequences joined are the two-element sequence. */
  lemma SingletonsAppend<T>(a: T, b: T)
    ensures [a] + [b] == [a, b]
  {
  }

  /** Appending to the empty sequence changes nothing. */
  lemma EmptyAppend<T>(xs: seq<T>)
    ensures [] + xs == xs
  {
  }

  /** A join of two or more fragments is the join of all but the last, a separator and the last. */
  lemma JoinWithSnoc(fragments: seq<string>, sep: char)
    requires |fragments| > 1
    ensures JoinWith(fragments, sep)
      == JoinWith(fragments[..|fragments| - 1], sep) + [sep] + fragments[|fragments| - 1]
  {
  }

  /** A text, a separator and a separator-free tail split into the text's pieces and the tail. */
  lemma RawSplitSnoc(s: string, head: string, last: string, sep: char, front: seq<string>)
    requires s == head + [sep] + last && sep !in last && RawSplit(head, sep) == front
    ensures RawSplit(s, sep) == front + [last]
  {
    assert s[|head|] == sep;
    assert s[|head| + 1..] == last;
    LastIndexOfAt(s, sep, |head|);
    assert s[..|head|] == head;
  }

  /** `String.split` inverts a join of separator-free fragments whose last fragment is not empty. */
  lemma SplitJoinWith(fragments: seq<string>, sep: char)
    requires |fragments| >= 1 && fragments[|fragments| - 1] != ""
    requires forall k :: 0 <= k < |fragments| ==> sep !in fragments[k]
    ensures Split(JoinWith(fragments, sep), sep) == fragments
  {
    RawSplitJoinWith(fragments, sep);
    if |fragments| > 1 {
      var s := JoinWith(fragments, sep);
      assert s == JoinWith(fragments[..|fragments| - 1], sep) + [sep] + fragments[|fragments| - 1];
      assert sep in s;
    }
  }

  /** Whitespace in the sense of `String.trim`: every character up to U+0020. */
  predicate IsTrimmable(c: char) {
    c <= ' '
  }

  /** `s.trim()`: drops leading and trailing characters up to U+0020. */
  function Trim(s: string): (r: string)
    ensures |r| == 0 <==> forall k :: 0 <= k < |s| ==> IsTrimmable(s[k])
    ensures |r| > 0 ==> !IsTrimmable(r[0]) && !IsTrimmable(r[|r| - 1])
    decreases |s|
  {
    if |s| == 0 then ""
    else if IsTrimmable(s[0]) then Trim(s[1..])
    else if IsTrimmable(s[|s| - 1]) then Trim(s[..|s| - 1])
    else s
  }

  /** A mutable character buffer (`java.lang.StringBuilder`) that only ever grows at its end. */
  class TextBuilder {
    var text: string

    constructor (initial: string)
      ensures text == initial
    {
      text := initial;
    }

    /** `append`: the new text is the old text followed by `s`. */
    method Append(s: string)
      modifies this
      ensures text == old(text) + s
    {
      text := text + s;
    }
  }
}
