/**
 * `pesquisar_nos_pdfs`: for each downloaded page, the text extracted from the
 * PDF is split into publications on a separator; the publications that
 * mention the search phrase (ignoring case) are kept in order, each labelled
 * by whether the first occurrence of its text comes at or after the section
 * header; the last one kept is trimmed of trailing boilerplate.  The result
 * maps each page's base name to its publications, and holds only pages with
 * at least one; a page whose processing raises is skipped.
 *
 * The section header is an `Option`: `None` stands for the name
 * `CABECALHO_SECAO` being undefined, which makes every page raise.
 */
module Segmenter {
  import opened Wrappers
  import opened Strings
  import opened Paths
  import opened Trim

  const SEARCH_PHRASE: string := "Assembleia Legislativa do Estado do Ceará"
  const PUBLICATION_SEPARATOR: string := "*** *** ***"

  datatype Location = LegislativeSection | OtherSections

  /** The label stored in a publication's `local` field. */
  function Caption(l: Location): string {
    match l
    case LegislativeSection => "Na Seção do Poder Legislativo"
    case OtherSections => "Em Outras Seções"
  }

  /** One `{"texto": ..., "local": ...}` record. */
  datatype Publication = Publication(text: string, location: Location)

  /** The text of a page as the PDF reader delivers it, or the failure to read it. */
  datatype Extraction = Unreadable | Extracted(text: string)

  /** One key/value pair of the result dictionary, in insertion order. */
  datatype Entry = Entry(name: string, publications: seq<Publication>)

  /** `frase_lower in pub_texto.lower()` */
  predicate Mentions(piece: string, phraseLower: string) {
    Contains(Lower(piece), phraseLower)
  }

  /** The label of a kept piece, given the offset of the section header (-1 when absent). */
  function Classify(text: string, sectionStart: int, piece: string): Location {
    if sectionStart != -1 && Find(text, piece) >= sectionStart then LegislativeSection else OtherSections
  }

  function Publish(text: string, sectionStart: int, piece: string): Publication {
    Publication(Strip(piece), Classify(text, sectionStart, piece))
  }

  /** The records the inner loop collects from the pieces of one page, before the final trim. */
  function Matches(text: string, phraseLower: string, sectionStart: int, pieces: seq<string>): seq<Publication>
    decreases |pieces|
  {
    if pieces == [] then []
    else
      var last := pieces[|pieces| - 1];
      Matches(text, phraseLower, sectionStart, pieces[..|pieces| - 1])
        + (if Mentions(last, phraseLower) then [Publish(text, sectionStart, last)] else [])
  }

  /** Lines 146-147: the last record's text is replaced by its trimmed form; nothing else changes. */
  function TrimLast(pubs: seq<Publication>): (r: seq<Publication>)
    ensures |r| == |pubs|
    ensures forall i | 0 <= i < |pubs| - 1 :: r[i] == pubs[i]
    ensures pubs != [] ==>
              (r[|r| - 1].location == pubs[|pubs| - 1].location && r[|r| - 1].text == TrimFinal(pubs[|pubs| - 1].text))
  {
    if pubs == [] then []
    else
      var last := pubs[|pubs| - 1];
      pubs[..|pubs| - 1] + [last.(text := TrimFinal(last.text))]
  }

  /** The body of the `try` for one page; `None` when it raises. */
  function ProcessFile(ex: Extraction, phrase: string, sep: string, header: Option<string>): Option<seq<Publication>> {
    match ex
    case Unreadable => None
    case Extracted(text) =>
      if sep == [] then None
      else if header.None? then None
      else Some(TrimLast(Matches(text, Lower(phrase), Find(text, header.value), Split(text, sep))))
  }

  /** A page that ends up in the result: processed without raising and with at least one record. */
  predicate Relevant(ex: Extraction, phrase: string, sep: string, header: Option<string>) {
    var r := ProcessFile(ex, phrase, sep, header);
    r.Some? && r.value != []
  }

  function Names(d: seq<Entry>): (names: seq<string>)
    ensures |names| == |d|
  {
    if d == [] then [] else [d[0].name] + Names(d[1..])
  }

  function Lookup(d: seq<Entry>, k: string): Option<seq<Publication>> {
    if d == [] then None else if d[0].name == k then Some(d[0].publications) else Lookup(d[1..], k)
  }

  predicate NoDuplicates(s: seq<string>) {
    forall i, j | 0 <= i < j < |s| :: s[i] != s[j]
  }

  /** `d[k] = v` on an insertion-ordered dictionary: an existing key keeps its place, a new one goes last. */
  function Put(d: seq<Entry>, k: string, v: seq<Publication>): (r: seq<Entry>)
    ensures k in Names(d) ==> Names(r) == Names(d)
    ensures k !in Names(d) ==> Names(r) == Names(d) + [k]
    ensures Lookup(r, k) == Some(v)
    ensures forall k' | k' != k :: Lookup(r, k') == Lookup(d, k')
  {
    if d == [] then [Entry(k, v)]
    else if d[0].name == k then [Entry(k, v)] + d[1..]
    else
      assert ([d[0]] + Put(d[1..], k, v))[1..] == Put(d[1..], k, v);
      [d[0]] + Put(d[1..], k, v)
  }

  /** What one pass of the page loop yields: the page's base name, and its records or `None` when the pass raised. */
  datatype PageResult = PageResult(name: string, publications: Option<seq<Publication>>)

  /** A pass that stores its records: it did not raise and kept at least one record. */
  predicate Found(r: PageResult) {
    r.publications.Some? && r.publications.value != []
  }

  /** The dictionary built from the passes so far (`resultados[nome_arquivo] = publicacoes_encontradas`). */
  function Collect(results: seq<PageResult>): seq<Entry>
    decreases |results|
  {
    if results == [] then []
    else
      var earlier := Collect(results[..|results| - 1]);
      var r := results[|results| - 1];
      if Found(r) then Put(earlier, r.name, r.publications.value) else earlier
  }

  function PageResults(files: seq<string>, extract: string -> Extraction, phrase: string, sep: string, header: Option<string>): (rs: seq<PageResult>)
    ensures |rs| == |files|
  {
    seq(|files|, i requires 0 <= i < |files| => PageResult(BaseName(files[i]), ProcessFile(extract(files[i]), phrase, sep, header)))
  }

  /** The dictionary `pesquisar_nos_pdfs` returns for the given pages. */
  function Search(files: seq<string>, extract: string -> Extraction, phrase: string, sep: string, header: Option<string>): seq<Entry> {
    Collect(PageResults(files, extract, phrase, sep, header))
  }

  /**
   * The kept records are the pieces that mention the phrase, in split order:
   * every piece contributes its record, stripped and labelled, exactly when
   * it mentions the phrase, whatever comes before or after it.
   */
  lemma {:induction false} MatchesIsFilter(text: string, phraseLower: string, sectionStart: int, before: seq<string>, piece: string, after: seq<string>)
    ensures Matches(text, phraseLower, sectionStart, before + [piece] + after)
      == Matches(text, phraseLower, sectionStart, before)
         + (if Mentions(piece, phraseLower) then [Publish(text, sectionStart, piece)] else [])
         + Matches(text, phraseLower, sectionStart, after)
    decreases |after|
  {
    var s := before + [piece] + after;
    if after == [] {
      assert s[..|s| - 1] == before;
    } else {
      var a := after[..|after| - 1];
      MatchesIsFilter(text, phraseLower, sectionStart, before, piece, a);
      assert s[..|s| - 1] == before + [piece] + a;
    }
  }

  /**
   * Classification of the `k`-th piece: the text of every piece is found in
   * the page (so `find` never returns -1 here) no later than where the piece
   * really starts, so a piece labelled as in the Legislative section really
   * starts at or after the header.  The converse can fail: a piece whose text
   * also occurs before the header is labelled as elsewhere.  The label is
   * decided by that first occurrence alone, and with no header every piece
   * is labelled as elsewhere.
   */
  lemma ClassifyPiece(text: string, sep: string, header: string, k: nat)
    requires sep != [] && k < |Split(text, sep)|
    ensures var pieces := Split(text, sep);
      var h := Find(text, header);
      var position := Find(text, pieces[k]);
      && 0 <= position <= Offset(pieces, sep, k)
      && (Classify(text, h, pieces[k]) == LegislativeSection ==> Offset(pieces, sep, k) >= h)
      && (Classify(text, h, pieces[k]) == LegislativeSection <==> h != -1 && position >= h)
      && (h == -1 ==> Classify(text, h, pieces[k]) == OtherSections)
  {
    var pieces := Split(text, sep);
    SplitJoin(text, sep);
    PieceAtOffset(pieces, sep, k);
  }

  lemma {:induction false} NamesIndex(d: seq<Entry>, k: string)
    ensures k in Names(d) <==> Lookup(d, k).Some?
  {
    if d != [] {
      NamesIndex(d[1..], k);
    }
  }

  /**
   * The keys of the dictionary are exactly the names of the passes that
   * stored records: a pass that raised or kept nothing adds no key, and does
   * not stop later passes from adding theirs.
   */
  lemma {:induction false} CollectKeys(results: seq<PageResult>)
    ensures forall k :: k in Names(Collect(results)) <==> exists j | 0 <= j < |results| :: results[j].name == k && Found(results[j])
    decreases |results|
  {
    if results != [] {
      var init := results[..|results| - 1];
      CollectKeys(init);
      forall k | exists j | 0 <= j < |results| :: results[j].name == k && Found(results[j])
        ensures k in Names(Collect(results))
      {
        var j :| 0 <= j < |results| && results[j].name == k && Found(results[j]);
        if j < |init| {
          assert init[j] == results[j];
        }
      }
      forall k | k in Names(Collect(init))
        ensures exists j | 0 <= j < |results| :: results[j].name == k && Found(results[j])
      {
        var j :| 0 <= j < |init| && init[j].name == k && Found(init[j]);
        assert results[j] == init[j];
      }
    }
  }

  /** Each key occurs once. */
  lemma {:induction false} CollectKeysDistinct(results: seq<PageResult>)
    ensures NoDuplicates(Names(Collect(results)))
    decreases |results|
  {
    if results != [] {
      CollectKeysDistinct(results[..|results| - 1]);
    }
  }

  /**
   * The value stored under a pass's name is that pass's records, unless a
   * later pass stores records under the same name (then the later one wins).
   */
  lemma {:induction false} CollectValue(results: seq<PageResult>, j: nat)
    requires j < |results| && Found(results[j])
    requires forall i | j < i < |results| :: results[i].name == results[j].name ==> !Found(results[i])
    ensures Lookup(Collect(results), results[j].name) == results[j].publications
    decreases |results|
  {
    if j < |results| - 1 {
      var init := results[..|results| - 1];
      assert init[j] == results[j];
      CollectValue(init, j);
    }
  }

  /** A pass that stores nothing can be taken out without changing the dictionary. */
  lemma {:induction false} CollectSkipsEmptyPass(before: seq<PageResult>, r: PageResult, after: seq<PageResult>)
    requires !Found(r)
    ensures Collect(before + [r] + after) == Collect(before + after)
    decreases |after|
  {
    var s, t := before + [r] + after, before + after;
    if after == [] {
      assert s[..|s| - 1] == before && t == before;
    } else {
      CollectSkipsEmptyPass(before, r, after[..|after| - 1]);
      assert s[..|s| - 1] == before + [r] + after[..|after| - 1];
      assert t[..|t| - 1] == before + after[..|after| - 1];
    }
  }

  /** When no pass stores anything, the dictionary is empty. */
  lemma {:induction false} CollectNothing(results: seq<PageResult>)
    requires forall j | 0 <= j < |results| :: !Found(results[j])
    ensures Collect(results) == []
    decreases |results|
  {
    if results != [] {
      CollectNothing(results[..|results| - 1]);
    }
  }

  /**
   * The result's keys are exactly the base names of the pages that are
   * relevant, each key once.
   */
  lemma SearchKeys(files: seq<string>, extract: string -> Extraction, phrase: string, sep: string, header: Option<string>)
    ensures var d := Search(files, extract, phrase, sep, header);
      && NoDuplicates(Names(d))
      && forall k :: k in Names(d) <==>
           exists j | 0 <= j < |files| :: BaseName(files[j]) == k && Relevant(extract(files[j]), phrase, sep, header)
  {
    var rs := PageResults(files, extract, phrase, sep, header);
    CollectKeys(rs);
    CollectKeysDistinct(rs);
    assert forall j | 0 <= j < |files| ::
        rs[j].name == BaseName(files[j]) && (Found(rs[j]) <==> Relevant(extract(files[j]), phrase, sep, header));
  }

  /**
   * As shipped, `CABECALHO_SECAO` is never defined, so every page raises
   * `NameError` inside the `try` and the result is always empty.
   */
  lemma UndefinedHeaderFindsNothing(files: seq<string>, extract: string -> Extraction, phrase: string, sep: string)
    ensures Search(files, extract, phrase, sep, None) == []
  {
    var rs := PageResults(files, extract, phrase, sep, None);
    assert forall j | 0 <= j < |rs| :: rs[j].publications == None;
    CollectNothing(rs);
  }

  /** The inner loop of `pesquisar_nos_pdfs` over the pieces of one page. */
  method CollectPublications(text: string, phraseLower: string, sectionStart: int, pieces: seq<string>)
    returns (found: seq<Publication>)
    ensures found == Matches(text, phraseLower, sectionStart, pieces)
  {
    found := [];
    for i := 0 to |pieces|
      invariant found == Matches(text, phraseLower, sectionStart, pieces[..i])
    {
      var piece := pieces[i];
      assert pieces[..i + 1][..i] == pieces[..i];
      if Contains(Lower(piece), phraseLower) {
        var position := Find(text, piece);
        var location := OtherSections;
        if sectionStart != -1 && position >= sectionStart {
          location := LegislativeSection;
        }
        found := found + [Publication(Strip(piece), location)];
      }
    }
    assert pieces[..|pieces|] == pieces;
  }

  /** The body of the `try` for one page: `None` when it raises, otherwise the page's records. */
  method ProcessPage(extraction: Extraction, phrase: string, phraseLower: string, sep: string, header: Option<string>)
    returns (outcome: Option<seq<Publication>>)
    requires phraseLower == Lower(phrase)
    ensures outcome == ProcessFile(extraction, phrase, sep, header)
  {
    // Each of these three raises: the PDF cannot be read, `split` is given
    // an empty separator, or the header name is undefined.
    if extraction.Unreadable? || sep == [] || header.None? {
      return None;
    }
    var text := extraction.text;
    var pieces := Split(text, sep);
    var sectionStart := Find(text, header.value);
    var found := CollectPublications(text, phraseLower, sectionStart, pieces);
    if found != [] {
      var last := found[|found| - 1];
      found := found[..|found| - 1] + [last.(text := TrimFinal(last.text))];
    }
    outcome := Some(found);
  }

  /** `pesquisar_nos_pdfs` */
  method SearchPdfs(files: seq<string>, extract: string -> Extraction, phrase: string, sep: string, header: Option<string>)
    returns (results: seq<Entry>)
    ensures results == Search(files, extract, phrase, sep, header)
  {
    ghost var passes := PageResults(files, extract, phrase, sep, header);
    results := [];
    var phraseLower := Lower(phrase);
    for i := 0 to |files|
      invariant results == Collect(passes[..i])
    {
      var path := files[i];
      var name := BaseName(path);
      var outcome := ProcessPage(extract(path), phrase, phraseLower, sep, header);
      assert passes[..i + 1][..i] == passes[..i] && passes[i] == PageResult(name, outcome);
      if outcome.Some? && outcome.value != [] {
        results := Put(results, name, outcome.value);
      }
    }
    assert passes[..|files|] == passes;
  }
}
