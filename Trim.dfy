/**
 * `_recortar_publicacao_final`: the last publication found on a page often
 * runs on into an unrelated section.  The text is cut at the earliest start
 * of either `OUTROS` or the words TRIBUNAL DE CONTAS DO ESTADO separated by
 * runs of whitespace (`TRIBUNAL\s+DE\s+CONTAS\s+DO\s+ESTADO`), and what is
 * left is stripped; with neither marker the text is returned unchanged.
 */
module Trim {
  import opened Strings

  const OUTROS: string := "OUTROS"
  const TRIBUNAL_WORDS: seq<string> := ["TRIBUNAL", "DE", "CONTAS", "DO", "ESTADO"]

  /** The pattern `ws[0]\s+ws[1]\s+...` matches `s` starting at offset `i`. */
  predicate WordsAt(s: string, i: nat, ws: seq<string>)
    requires ws != []
    decreases |ws|, 0
  {
    StartsAt(s, i, ws[0]) && (|ws| == 1 || SpacesThenWords(s, i + |ws[0]|, ws[1..]))
  }

  /** The pattern `\s+ws[0]\s+ws[1]...` matches `s` starting at offset `j`. */
  predicate SpacesThenWords(s: string, j: nat, ws: seq<string>)
    requires ws != [] && j <= |s|
    decreases |ws|, |s| - j
  {
    j < |s| && IsSpace(s[j]) && (WordsAt(s, j + 1, ws) || SpacesThenWords(s, j + 1, ws))
  }

  predicate TribunalAt(s: string, i: nat) {
    WordsAt(s, i, TRIBUNAL_WORDS)
  }

  /** One of the two cut-off markers starts at offset `i`. */
  predicate MarkerAt(s: string, i: nat) {
    TribunalAt(s, i) || StartsAt(s, i, OUTROS)
  }

  function FirstTribunalFrom(s: string, i: nat): (r: int)
    requires i <= |s|
    ensures r == -1 || (i <= r <= |s| && TribunalAt(s, r))
    ensures r == -1 ==> forall j: nat :: i <= j ==> !TribunalAt(s, j)
    ensures r != -1 ==> forall j: nat :: i <= j < r ==> !TribunalAt(s, j)
    decreases |s| - i
  {
    if TribunalAt(s, i) then i
    else if i == |s| then -1
    else FirstTribunalFrom(s, i + 1)
  }

  /** `padrao_tribunal.search(s)`: the start of the leftmost match, or -1. */
  function FirstTribunal(s: string): int {
    FirstTribunalFrom(s, 0)
  }

  /** `_recortar_publicacao_final` as written: two searches, the smaller start, a slice and a strip. */
  function TrimFinal(t: string): (r: string)
    ensures |r| <= |t|
  {
    var tribunal := FirstTribunal(t);
    var outros := Find(t, OUTROS);
    if tribunal == -1 && outros == -1 then t
    else
      var cut := if tribunal == -1 then outros else if outros == -1 then tribunal
                 else if tribunal <= outros then tribunal else outros;
      Strip(t[..cut])
  }

  /** Reference search: the first offset from `i` on where either marker starts. */
  function FirstMarkerFrom(s: string, i: nat): (r: int)
    requires i <= |s|
    ensures r == -1 || (i <= r < |s| && MarkerAt(s, r))
    ensures r == -1 ==> forall j: nat :: i <= j ==> !MarkerAt(s, j)
    ensures r != -1 ==> forall j: nat :: i <= j < r ==> !MarkerAt(s, j)
    decreases |s| - i
  {
    if i == |s| then
      assert !StartsAt(s, i, OUTROS) && !StartsAt(s, i, TRIBUNAL_WORDS[0]);
      -1
    else if MarkerAt(s, i) then i
    else FirstMarkerFrom(s, i + 1)
  }

  lemma {:induction false} MarkerBeyondEnd(s: string, j: nat)
    requires j >= |s|
    ensures !MarkerAt(s, j)
  {
    assert !StartsAt(s, j, OUTROS) && !StartsAt(s, j, TRIBUNAL_WORDS[0]);
  }

  /**
   * The two searches and their minimum amount to one search for either
   * marker: the text is cut at the first offset where a marker starts, and
   * is returned unchanged when no marker occurs.
   */
  lemma {:induction false} TrimFinalCutsAtFirstMarker(t: string)
    ensures var m := FirstMarkerFrom(t, 0);
      TrimFinal(t) == if m == -1 then t else Strip(t[..m])
  {
    if FirstMarkerFrom(t, 0) == -1 {
      TrimFinalWithoutMarker(t);
    } else {
      TrimFinalWithMarker(t);
    }
  }

  lemma {:induction false} TrimFinalWithoutMarker(t: string)
    requires FirstMarkerFrom(t, 0) == -1
    ensures TrimFinal(t) == t
  {
    var tribunal := FirstTribunal(t);
    var outros := Find(t, OUTROS);
    if tribunal != -1 {
      assert MarkerAt(t, tribunal);
    }
    if outros != -1 {
      assert MarkerAt(t, outros);
    }
  }

  lemma {:induction false} TrimFinalWithMarker(t: string)
    requires FirstMarkerFrom(t, 0) != -1
    ensures TrimFinal(t) == Strip(t[..FirstMarkerFrom(t, 0)])
  {
    var m := FirstMarkerFrom(t, 0);
    var tribunal := FirstTribunal(t);
    var outros := Find(t, OUTROS);
    if tribunal != -1 {
      assert MarkerAt(t, tribunal);
    }
    if outros != -1 {
      assert MarkerAt(t, outros);
    }
    assert MarkerAt(t, m);
    if TribunalAt(t, m) {
      assert tribunal != -1 && tribunal == m;
    } else {
      assert StartsAt(t, m, OUTROS);
      assert outros != -1 && outros == m;
    }
  }

  lemma {:induction false} WordsAtWithin(s: string, a: nat, b: nat, i: nat, ws: seq<string>)
    requires a <= b <= |s| && ws != [] && WordsAt(s[a..b], i, ws)
    ensures WordsAt(s, a + i, ws)
    decreases |ws|, 0
  {
    StartsAtWithin(s, a, b, i, ws[0]);
    if |ws| > 1 {
      SpacesWithin(s, a, b, i + |ws[0]|, ws[1..]);
    }
  }

  lemma {:induction false} SpacesWithin(s: string, a: nat, b: nat, j: nat, ws: seq<string>)
    requires a <= b <= |s| && ws != [] && j <= b - a && SpacesThenWords(s[a..b], j, ws)
    ensures SpacesThenWords(s, a + j, ws)
    decreases |ws|, b - a - j
  {
    assert s[a..b][j] == s[a + j];
    if WordsAt(s[a..b], j + 1, ws) {
      WordsAtWithin(s, a, b, j + 1, ws);
    } else {
      SpacesWithin(s, a, b, j + 1, ws);
    }
  }

  /** A marker inside a slice of `s` is a marker of `s`. */
  lemma MarkerWithin(s: string, a: nat, b: nat, i: nat)
    requires a <= b <= |s| && MarkerAt(s[a..b], i)
    ensures MarkerAt(s, a + i)
  {
    if TribunalAt(s[a..b], i) {
      WordsAtWithin(s, a, b, i, TRIBUNAL_WORDS);
    } else {
      StartsAtWithin(s, a, b, i, OUTROS);
    }
  }

  /** Neither marker occurs anywhere in a trimmed publication. */
  lemma {:induction false} TrimFinalMarkerFree(t: string)
    ensures forall j: nat :: !MarkerAt(TrimFinal(t), j)
  {
    TrimFinalCutsAtFirstMarker(t);
    var m := FirstMarkerFrom(t, 0);
    if m != -1 {
      StrippedPrefixMarkerFree(t, m);
    }
  }

  /** Stripping a prefix of `t` that ends before `t`'s first marker leaves no marker. */
  lemma {:induction false} StrippedPrefixMarkerFree(t: string, m: nat)
    requires m <= |t| && forall j: nat :: j < m ==> !MarkerAt(t, j)
    ensures forall j: nat :: !MarkerAt(Strip(t[..m]), j)
  {
    var lo := StripOfPrefix(t, m);
    SliceMarkerFree(t, m, lo, Strip(t[..m]));
  }

  /** Where `Strip(t[..m])` sits in `t`. */
  lemma {:induction false} StripOfPrefix(t: string, m: nat) returns (lo: nat)
    requires m <= |t|
    ensures lo + |Strip(t[..m])| <= m && Strip(t[..m]) == t[lo..lo + |Strip(t[..m])|]
  {
    var s := t[..m];
    var r := Strip(s);
    StripRemovesOuterSpaces(s);
    lo := StripStart(s, 0);
    assert r == t[lo..lo + |r|];
  }

  lemma {:induction false} SliceMarkerFree(t: string, m: nat, lo: nat, r: string)
    requires m <= |t| && forall j: nat :: j < m ==> !MarkerAt(t, j)
    requires lo + |r| <= m && r == t[lo..lo + |r|]
    ensures forall j: nat :: !MarkerAt(r, j)
  {
    forall j: nat ensures !MarkerAt(r, j) {
      if j >= |r| {
        MarkerBeyondEnd(r, j);
      } else if MarkerAt(r, j) {
        MarkerWithin(t, lo, lo + |r|, j);
      }
    }
  }

  /** Trimming twice is trimming once. */
  lemma TrimFinalIdempotent(t: string)
    ensures TrimFinal(TrimFinal(t)) == TrimFinal(t)
  {
    var r := TrimFinal(t);
    TrimFinalMarkerFree(t);
    TrimFinalCutsAtFirstMarker(r);
  }
}
