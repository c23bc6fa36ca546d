/** Text as the mail pipeline sees it once a string has been UTF-8 encoded:
    a sequence of bytes. This module holds the substring search, join and
    split operations the rest of the model is written with. */
module Bytes {
  import opened Results

  type Byte = b: int | 0 <= b < 256

  type Text = seq<Byte>

  /** The line feed that separates the lines of an assembled message. */
  const LF: Byte := 10

  predicate IsAscii(s: string) {
    forall i | 0 <= i < |s| :: s[i] < 128 as char
  }

  /** The UTF-8 bytes of an ASCII literal: one byte per character. */
  function Ascii(s: string): (r: Text)
    requires IsAscii(s)
    ensures |r| == |s|
    ensures forall i | 0 <= i < |s| :: r[i] == s[i] as int
  {
    seq(|s|, i requires 0 <= i < |s| => s[i] as int)
  }

  /** A character absent from an ASCII literal is absent from its bytes. */
  lemma AsciiExcludes(s: string, c: char)
    requires IsAscii(s) && c !in s
    ensures c as int !in Ascii(s)
  {
  }

  /** `pat` occurs in `s` starting at index `i`. */
  predicate OccursAt(s: Text, pat: Text, i: int) {
    0 <= i && i + |pat| <= |s| && s[i..i + |pat|] == pat
  }

  /** `i` is the leftmost occurrence of `pat` in `s`. */
  predicate IsFirstOccurrence(s: Text, pat: Text, i: int) {
    OccursAt(s, pat, i) && forall j | 0 <= j < i :: !OccursAt(s, pat, j)
  }

  /** The first index at or after `k` where `pat` occurs, as `indexOf` finds it. */
  function IndexOfFrom(s: Text, pat: Text, k: nat): (r: Option<nat>)
    decreases |s| - k
    ensures r.Some? ==> k <= r.value && r.value + |pat| <= |s|
  {
    if k + |pat| > |s| then None
    else if s[k..k + |pat|] == pat then Some(k)
    else IndexOfFrom(s, pat, k + 1)
  }

  function IndexOf(s: Text, pat: Text): Option<nat> {
    IndexOfFrom(s, pat, 0)
  }

  /** The search from `k` reports an occurrence exactly when there is one at
      or after `k`, and then the leftmost such. */
  lemma {:induction false} IndexOfFromFinds(s: Text, pat: Text, k: nat)
    decreases |s| - k
    ensures IndexOfFrom(s, pat, k).Some? ==> OccursAt(s, pat, IndexOfFrom(s, pat, k).value)
    ensures IndexOfFrom(s, pat, k).Some? ==>
      forall j | k <= j < IndexOfFrom(s, pat, k).value :: !OccursAt(s, pat, j)
    ensures IndexOfFrom(s, pat, k).None? ==> forall j | k <= j :: !OccursAt(s, pat, j)
  {
    if k + |pat| <= |s| && s[k..k + |pat|] != pat {
      IndexOfFromFinds(s, pat, k + 1);
    }
  }

  /** `IndexOf` reports the leftmost occurrence, and nothing when there is none. */
  lemma IndexOfFinds(s: Text, pat: Text)
    ensures IndexOf(s, pat).Some? ==> OccursAt(s, pat, IndexOf(s, pat).value)
    ensures IndexOf(s, pat).Some? ==>
      forall j | 0 <= j < IndexOf(s, pat).value :: !OccursAt(s, pat, j)
    ensures IndexOf(s, pat).None? ==> forall j | 0 <= j :: !OccursAt(s, pat, j)
  {
    IndexOfFromFinds(s, pat, 0);
  }

  /** An occurrence with no earlier occurrence is the one `IndexOf` reports. */
  lemma IndexOfIsFirst(s: Text, pat: Text, i: nat)
    requires IsFirstOccurrence(s, pat, i)
    ensures IndexOf(s, pat) == Some(i)
  {
    IndexOfFinds(s, pat);
  }

  /** The elements of `xs` with `sep` between consecutive ones, as
      `Array.prototype.join` builds them. */
  function Join(xs: seq<Text>, sep: Text): Text
    decreases |xs|
  {
    if |xs| == 0 then []
    else if |xs| == 1 then xs[0]
    else xs[0] + sep + Join(xs[1..], sep)
  }

  /** The pieces of `s` between the occurrences of `sep`, found left to right. */
  function SplitOn(s: Text, sep: Text): (r: seq<Text>)
    requires |sep| > 0
    decreases |s|
    ensures |r| >= 1
  {
    match IndexOf(s, sep)
    case None => [s]
    case Some(i) => [s[..i]] + SplitOn(s[i + |sep|..], sep)
  }

  /** Splitting and joining again gives back the text, whatever it holds. */
  lemma {:induction false} JoinSplit(s: Text, sep: Text)
    requires |sep| > 0
    ensures Join(SplitOn(s, sep), sep) == s
    decreases |s|
  {
    var found := IndexOf(s, sep);
    if found.Some? {
      var i := found.value;
      var rest := s[i + |sep|..];
      var pieces := SplitOn(rest, sep);
      JoinSplit(rest, sep);
      assert SplitOn(s, sep) == [s[..i]] + pieces;
      assert ([s[..i]] + pieces)[1..] == pieces;
      assert Join([s[..i]] + pieces, sep) == s[..i] + sep + Join(pieces, sep);
      IndexOfFinds(s, sep);
      assert s == s[..i] + s[i..i + |sep|] + rest;
    }
  }

  /** A piece that lacks the separator's first byte ends exactly where the
      separator that follows it begins. */
  lemma FirstSeparator(x: Text, sep: Text, t: Text)
    requires |sep| > 0 && sep[0] !in x
    ensures IndexOf(x + sep + t, sep) == Some(|x|)
  {
    var s := x + sep + t;
    assert s[|x|..|x| + |sep|] == sep;
    assert OccursAt(s, sep, |x|);
    forall j | 0 <= j < |x|
      ensures !OccursAt(s, sep, j)
    {
      assert s[j] == x[j] != sep[0];
    }
    IndexOfIsFirst(s, sep, |x|);
  }

  /** Splitting peels off a leading piece that lacks the separator's first byte. */
  lemma SplitFirstPiece(x: Text, sep: Text, t: Text)
    requires |sep| > 0 && sep[0] !in x
    ensures SplitOn(x + sep + t, sep) == [x] + SplitOn(t, sep)
  {
    var s := x + sep + t;
    FirstSeparator(x, sep, t);
    assert s[..|x|] == x;
    assert s[|x| + |sep|..] == t;
  }

  /** A piece that lacks the separator's first byte contains no separator. */
  lemma NoSeparator(x: Text, sep: Text)
    requires |sep| > 0 && sep[0] !in x
    ensures SplitOn(x, sep) == [x]
  {
    IndexOfFinds(x, sep);
    forall j | 0 <= j < |x|
      ensures !OccursAt(x, sep, j)
    {
      assert x[j] != sep[0];
    }
  }

  lemma JoinCons(x: Text, xs: seq<Text>, sep: Text)
    requires |xs| > 0
    ensures Join([x] + xs, sep) == x + sep + Join(xs, sep)
  {
    assert ([x] + xs)[1..] == xs;
  }

  /** Pieces that lack the separator's first byte are recovered by splitting
      their join; the last piece is split in its own right. */
  lemma {:induction false} SplitJoin(xs: seq<Text>, y: Text, sep: Text)
    requires |sep| > 0
    requires forall k | 0 <= k < |xs| :: sep[0] !in xs[k]
    ensures SplitOn(Join(xs + [y], sep), sep) == xs + SplitOn(y, sep)
    decreases |xs|
  {
    if |xs| == 0 {
      assert xs + [y] == [y];
    } else {
      var x, more, pieces := xs[0], xs[1..], SplitOn(y, sep);
      assert SplitOn(Join(xs + [y], sep), sep) == [x] + (more + pieces) by {
        assert xs + [y] == [x] + more + [y];
        SplitJoin(more, y, sep);
        SplitJoinStep(x, more, y, sep);
      }
      assert [x] + (more + pieces) == xs + pieces by {
        assert xs == [x] + more;
      }
    }
  }

  /** One step of `SplitJoin`: the leading piece comes off first. */
  lemma SplitJoinStep(x: Text, xs: seq<Text>, y: Text, sep: Text)
    requires |sep| > 0 && sep[0] !in x
    ensures SplitOn(Join([x] + xs + [y], sep), sep) == [x] + SplitOn(Join(xs + [y], sep), sep)
  {
    var tail := xs + [y];
    assert [x] + xs + [y] == [x] + tail;
    JoinCons(x, tail, sep);
    SplitFirstPiece(x, sep, Join(tail, sep));
  }
}
