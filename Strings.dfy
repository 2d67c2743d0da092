/**
 * The Python `str` primitives the gazette robot relies on, written out over
 * `seq<char>`: whitespace (`str.isspace`, which is also what `\s` matches in
 * a str regular expression), `strip`, `lower`, `find`, the `in` operator,
 * `split`, `join` and `count`.
 */
module Strings {

  /** Python's `str.isspace()` for one character; `\s` in a str pattern matches the same set. */
  predicate IsSpace(c: char) {
    || ('\t' <= c <= '\r')
    || ('\U{1C}' <= c <= ' ')
    || c == '\U{85}' || c == '\U{A0}' || c == '\U{1680}'
    || ('\U{2000}' <= c <= '\U{200A}')
    || c == '\U{2028}' || c == '\U{2029}' || c == '\U{202F}' || c == '\U{205F}' || c == '\U{3000}'
  }

  /** Every character of `s` from offset `a` up to `b` is whitespace. */
  predicate SpacesBetween(s: string, a: nat, b: nat)
    requires a <= b <= |s|
  {
    forall k | a <= k < b :: IsSpace(s[k])
  }

  /** Where `s.lstrip()` starts: the first non-whitespace offset from `i` on. */
  function StripStart(s: string, i: nat): (lo: nat)
    requires i <= |s|
    ensures i <= lo <= |s| && SpacesBetween(s, i, lo)
    ensures lo == |s| || !IsSpace(s[lo])
    decreases |s| - i
  {
    if i < |s| && IsSpace(s[i]) then StripStart(s, i + 1) else i
  }

  /** Where `s.rstrip()` ends: the end of `s[..j]` once its trailing whitespace after `lo` is gone. */
  function StripEnd(s: string, lo: nat, j: nat): (hi: nat)
    requires lo <= j <= |s|
    ensures lo <= hi <= j && SpacesBetween(s, hi, j)
    ensures hi == lo || !IsSpace(s[hi - 1])
    decreases j
  {
    if lo < j && IsSpace(s[j - 1]) then StripEnd(s, lo, j - 1) else j
  }

  /** `s.strip()`: neither end of the result is whitespace. */
  function Strip(s: string): (r: string)
    ensures |r| <= |s|
    ensures r == [] || (!IsSpace(r[0]) && !IsSpace(r[|r| - 1]))
  {
    var lo := StripStart(s, 0);
    s[lo..StripEnd(s, lo, |s|)]
  }

  /**
   * What `strip` removes is whitespace and nothing else: the result is the
   * slice of `s` between a leading and a trailing run of whitespace.
   */
  lemma StripRemovesOuterSpaces(s: string)
    ensures var lo := StripStart(s, 0);
      var r := Strip(s);
      && lo + |r| <= |s| && r == s[lo..lo + |r|]
      && SpacesBetween(s, 0, lo) && SpacesBetween(s, lo + |r|, |s|)
  {
    var lo := StripStart(s, 0);
    var hi := StripEnd(s, lo, |s|);
    assert |Strip(s)| == hi - lo;
  }

  /** A string already stripped is left as it is. */
  lemma StripIdempotent(s: string)
    ensures Strip(Strip(s)) == Strip(s)
  {
    var r := Strip(s);
    assert StripStart(r, 0) == 0;
    assert StripEnd(r, 0, |r|) == |r|;
  }

  /** Python's `str.lower()` on the ASCII and Latin-1 letters; every other character is kept. */
  function LowerChar(c: char): char {
    if 'A' <= c <= 'Z' || ('\U{C0}' <= c <= '\U{DE}' && c != '\U{D7}') then (c as int + 32) as char else c
  }

  /** `s.lower()`, one character at a time. */
  function Lower(s: string): (r: string)
    ensures |r| == |s|
  {
    seq(|s|, i requires 0 <= i < |s| => LowerChar(s[i]))
  }

  /** `pat` occurs in `s` starting at offset `i`. */
  predicate StartsAt(s: string, i: nat, pat: string) {
    i + |pat| <= |s| && s[i..i + |pat|] == pat
  }

  /** Python's `pat in s`. */
  predicate Contains(s: string, pat: string) {
    exists i: nat | i <= |s| :: StartsAt(s, i, pat)
  }

  function FindFrom(s: string, pat: string, i: nat): (r: int)
    requires i <= |s|
    ensures r == -1 || (i <= r <= |s| && StartsAt(s, r, pat))
    ensures r == -1 ==> forall j: nat :: i <= j ==> !StartsAt(s, j, pat)
    ensures r != -1 ==> forall j: nat :: i <= j < r ==> !StartsAt(s, j, pat)
    decreases |s| - i
  {
    if StartsAt(s, i, pat) then i
    else if i == |s| then -1
    else FindFrom(s, pat, i + 1)
  }

  /**
   * `s.find(pat)`: the offset of the first occurrence of `pat`, or -1 when
   * there is none.
   */
  function Find(s: string, pat: string): (r: int)
    ensures -1 <= r <= |s|
    ensures r == -1 ==> forall j: nat :: !StartsAt(s, j, pat)
    ensures r != -1 ==> StartsAt(s, r, pat) && forall j: nat :: j < r ==> !StartsAt(s, j, pat)
  {
    FindFrom(s, pat, 0)
  }

  /** `find` gives -1 exactly when `pat in s` is false. */
  lemma FindContains(s: string, pat: string)
    ensures Find(s, pat) == -1 <==> !Contains(s, pat)
  {
  }

  /** `s.split(sep)` for a non-empty separator: cut at each leftmost, non-overlapping occurrence. */
  function Split(s: string, sep: string): (pieces: seq<string>)
    requires sep != []
    ensures pieces != []
    decreases |s|
  {
    var i := Find(s, sep);
    if i == -1 then [s] else [s[..i]] + Split(s[i + |sep|..], sep)
  }

  /** `sep.join(pieces)` */
  function Join(pieces: seq<string>, sep: string): string {
    if pieces == [] then []
    else if |pieces| == 1 then pieces[0]
    else pieces[0] + sep + Join(pieces[1..], sep)
  }

  /** `s.count(pat)` for a non-empty pattern: the number of non-overlapping occurrences. */
  function Count(s: string, pat: string): nat
    requires pat != []
    decreases |s|
  {
    var i := Find(s, pat);
    if i == -1 then 0 else 1 + Count(s[i + |pat|..], pat)
  }

  /** Where the `k`-th piece starts in `Join(pieces, sep)`. */
  function Offset(pieces: seq<string>, sep: string, k: nat): nat
    requires k < |pieces|
  {
    if k == 0 then 0 else |pieces[0]| + |sep| + Offset(pieces[1..], sep, k - 1)
  }

  lemma StartsAtShift(p: string, t: string, o: nat, pat: string)
    requires StartsAt(t, o, pat)
    ensures StartsAt(p + t, |p| + o, pat) && StartsAt(t + p, o, pat)
  {
    assert (p + t)[|p| + o..|p| + o + |pat|] == t[o..o + |pat|];
    assert (t + p)[o..o + |pat|] == t[o..o + |pat|];
  }

  lemma StartsAtWithin(s: string, a: nat, b: nat, i: nat, pat: string)
    requires a <= b <= |s| && StartsAt(s[a..b], i, pat)
    ensures StartsAt(s, a + i, pat)
  {
    forall k | 0 <= k < |pat| ensures s[a + i + k] == pat[k] {
      assert s[a..b][i..i + |pat|][k] == pat[k];
    }
    assert s[a + i..a + i + |pat|] == pat;
  }

  /** One step of `split`: the text before the first separator, then the split of what follows it. */
  lemma SplitUnfold(s: string, sep: string)
    requires sep != []
    ensures Find(s, sep) == -1 ==> Split(s, sep) == [s]
    ensures Find(s, sep) != -1 ==>
      Split(s, sep) == [s[..Find(s, sep)]] + Split(s[Find(s, sep) + |sep|..], sep)
  {
  }

  /** One step of `count`. */
  lemma CountUnfold(s: string, pat: string)
    requires pat != []
    ensures Find(s, pat) == -1 ==> Count(s, pat) == 0
    ensures Find(s, pat) != -1 ==> Count(s, pat) == 1 + Count(s[Find(s, pat) + |pat|..], pat)
  {
  }

  lemma JoinCons(head: string, tail: seq<string>, sep: string)
    requires tail != []
    ensures Join([head] + tail, sep) == head + sep + Join(tail, sep)
  {
    assert ([head] + tail)[1..] == tail;
  }

  /** Around an occurrence of `pat` at `i`, the text is what comes before it, `pat`, and what comes after it. */
  lemma SliceAround(s: string, i: nat, pat: string)
    requires StartsAt(s, i, pat)
    ensures s == s[..i] + pat + s[i + |pat|..]
  {
    assert s == s[..i] + s[i..i + |pat|] + s[i + |pat|..];
  }

  /** Joining the pieces of a split with the separator gives back the text exactly. */
  lemma {:induction false} SplitJoin(s: string, sep: string)
    requires sep != []
    ensures Join(Split(s, sep), sep) == s
    decreases |s|
  {
    var i := Find(s, sep);
    SplitUnfold(s, sep);
    if i != -1 {
      var rest := s[i + |sep|..];
      SplitJoin(rest, sep);
      JoinCons(s[..i], Split(rest, sep), sep);
      SliceAround(s, i, sep);
    }
  }

  /** An occurrence in a prefix of `s` is an occurrence in `s`. */
  lemma StartsAtOfPrefix(s: string, n: nat, j: nat, pat: string)
    requires n <= |s|
    ensures StartsAt(s[..n], j, pat) ==> StartsAt(s, j, pat)
  {
    if StartsAt(s[..n], j, pat) {
      assert s[..n][j..j + |pat|] == s[j..j + |pat|];
    }
  }

  /** The first piece of a split, followed by the separator, has its first separator right at its end. */
  lemma FirstPieceCut(s: string, sep: string)
    requires sep != [] && Find(s, sep) != -1
    ensures Find(s[..Find(s, sep)] + sep, sep) == Find(s, sep)
  {
    var i := Find(s, sep);
    var t := s[..i] + sep;
    assert t == s[..i + |sep|];
    assert StartsAt(t, i, sep);
    forall j: nat | j < i ensures !StartsAt(t, j, sep) {
      StartsAtOfPrefix(s, i + |sep|, j, sep);
    }
  }

  /** Every piece but the last, followed by the separator, holds its first separator exactly at its end. */
  predicate CutsLeftmost(pieces: seq<string>, sep: string) {
    forall k | 0 <= k < |pieces| - 1 :: Find(pieces[k] + sep, sep) == |pieces[k]|
  }

  lemma CutsLeftmostCons(head: string, tail: seq<string>, sep: string)
    requires tail != [] && Find(head + sep, sep) == |head| && CutsLeftmost(tail, sep)
    ensures CutsLeftmost([head] + tail, sep)
  {
    var pieces := [head] + tail;
    forall k | 0 <= k < |pieces| - 1 ensures Find(pieces[k] + sep, sep) == |pieces[k]| {
      if k > 0 {
        assert pieces[k] == tail[k - 1];
      }
    }
  }

  /**
   * `split` cuts at the leftmost occurrences: every piece but the last,
   * followed by the separator, holds its first separator exactly at its end.
   * (This rules out other cuttings that also rejoin to the text when the
   * separator overlaps itself, as `*** *** ***` does.)
   */
  lemma {:induction false} SplitCutsLeftmost(s: string, sep: string)
    requires sep != []
    ensures CutsLeftmost(Split(s, sep), sep)
    decreases |s|
  {
    if Find(s, sep) == -1 {
      SplitUnfold(s, sep);
    } else {
      var head, rest := SplitStep(s, sep);
      SplitCutsLeftmost(rest, sep);
      CutsLeftmostCons(head, Split(rest, sep), sep);
    }
  }

  /** The first cut of a split: its first piece, and the text after the first separator. */
  lemma SplitStep(s: string, sep: string) returns (head: string, rest: string)
    requires sep != [] && Find(s, sep) != -1
    ensures Split(s, sep) == [head] + Split(rest, sep)
    ensures |rest| < |s|
    ensures Find(head + sep, sep) == |head|
  {
    var i := Find(s, sep);
    head, rest := s[..i], s[i + |sep|..];
    SplitUnfold(s, sep);
    FirstPieceCut(s, sep);
  }

  /** No piece of a split contains the separator. */
  lemma {:induction false} SplitPiecesFree(s: string, sep: string)
    requires sep != []
    ensures forall k | 0 <= k < |Split(s, sep)| :: !Contains(Split(s, sep)[k], sep)
    decreases |s|
  {
    var i := Find(s, sep);
    if i != -1 {
      var rest := s[i + |sep|..];
      SplitPiecesFree(rest, sep);
      SplitUnfold(s, sep);
      if Contains(s[..i], sep) {
        var j: nat :| StartsAt(s[..i], j, sep);
        StartsAtWithin(s, 0, i, j, sep);
      }
    }
  }

  /** A split has one more piece than the text has occurrences of the separator. */
  lemma {:induction false} SplitCount(s: string, sep: string)
    requires sep != []
    ensures |Split(s, sep)| == Count(s, sep) + 1
    decreases |s|
  {
    var i := Find(s, sep);
    SplitUnfold(s, sep);
    CountUnfold(s, sep);
    if i != -1 {
      var rest := s[i + |sep|..];
      SplitCount(rest, sep);
      assert |Split(s, sep)| == 1 + |Split(rest, sep)|;
    }
  }

  /** For a one-character pattern, `count` is the number of times the character occurs. */
  lemma {:induction false} CountChar(s: string, c: char)
    ensures Count(s, [c]) == multiset(s)[c]
    decreases |s|
  {
    var i := Find(s, [c]);
    if i == -1 {
      forall j | 0 <= j < |s| ensures s[j] != c {
        assert !StartsAt(s, j, [c]) && s[j..j + 1] == [s[j]];
      }
      assert c !in s;
    } else {
      var rest := s[i + 1..];
      CountChar(rest, c);
      forall j | 0 <= j < i ensures s[j] != c {
        assert !StartsAt(s, j, [c]) && s[j..j + 1] == [s[j]];
      }
      assert c !in s[..i];
      assert s[i] == c;
      assert s == s[..i] + [c] + rest;
      assert multiset(s) == multiset(s[..i]) + multiset([c]) + multiset(rest);
    }
  }

  /** Each piece of a joined list sits, unchanged, at its offset in the joined text. */
  lemma {:induction false} PieceAtOffset(pieces: seq<string>, sep: string, k: nat)
    requires k < |pieces|
    ensures StartsAt(Join(pieces, sep), Offset(pieces, sep, k), pieces[k])
  {
    if |pieces| == 1 {
      assert Join(pieces, sep)[0..|pieces[0]|] == pieces[0];
    } else {
      var t := Join(pieces[1..], sep);
      assert Join(pieces, sep) == pieces[0] + sep + t;
      if k == 0 {
        assert (pieces[0] + sep + t)[0..|pieces[0]|] == pieces[0];
      } else {
        PieceAtOffset(pieces[1..], sep, k - 1);
        StartsAtShift(pieces[0] + sep, t, Offset(pieces[1..], sep, k - 1), pieces[k]);
      }
    }
  }
}
