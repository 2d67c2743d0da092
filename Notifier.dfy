/**
 * What the robot sends (`enviar_email` and lines 275-278): the pages to
 * attach are the download directory joined with each key of the search
 * result, and the message body lists, per page, its publications grouped by
 * section label and numbered from 1 within each group.  The HTML markup and
 * styling are reduced to abstract blocks.
 */
module Notifier {
  import opened Wrappers
  import opened Paths
  import opened Fetcher
  import opened Segmenter

  /** Each name, joined onto the download directory. */
  function InDownloadDir(names: seq<string>): (paths: seq<string>)
    ensures |paths| == |names|
  {
    seq(|names|, i requires 0 <= i < |names| => PathJoin(DOWNLOAD_DIR, names[i]))
  }

  /** Lines 276-277: one path per key of the result, in key order. */
  function Attachments(d: seq<Entry>): (paths: seq<string>)
    ensures |paths| == |Names(d)|
  {
    InDownloadDir(Names(d))
  }

  /**
   * If the names are the base names of the kept files, and every file lies in
   * the download directory, then joining the names back onto the directory
   * gives exactly the kept files.
   */
  lemma InDownloadDirOfKept(names: seq<string>, files: seq<string>, keep: string -> bool)
    requires forall f | f in files :: f == PathJoin(DOWNLOAD_DIR, BaseName(f))
    requires forall k :: k in names <==> exists j | 0 <= j < |files| :: BaseName(files[j]) == k && keep(files[j])
    ensures forall a :: a in InDownloadDir(names) <==> a in files && keep(a)
  {
    var paths := InDownloadDir(names);
    forall a | a in paths ensures a in files && keep(a) {
      var i :| 0 <= i < |paths| && paths[i] == a;
      assert names[i] in names;
      var j :| 0 <= j < |files| && BaseName(files[j]) == names[i] && keep(files[j]);
      assert files[j] in files;
    }
    forall a | a in files && keep(a) ensures a in paths {
      var j :| 0 <= j < |files| && files[j] == a;
      assert BaseName(a) in names;
      var i :| 0 <= i < |names| && names[i] == BaseName(a);
      assert paths[i] == a;
    }
  }

  /**
   * When every page searched lies in the download directory, the attachments
   * are exactly the searched pages that are relevant: never a page without a
   * match, never a page outside the ones searched.
   */
  lemma AttachmentsAreRelevantPages(files: seq<string>, extract: string -> Extraction, phrase: string, sep: string, header: Option<string>)
    requires forall f | f in files :: f == PathJoin(DOWNLOAD_DIR, BaseName(f))
    ensures forall a :: a in Attachments(Search(files, extract, phrase, sep, header)) <==>
      a in files && Relevant(extract(a), phrase, sep, header)
  {
    var d := Search(files, extract, phrase, sep, header);
    SearchKeys(files, extract, phrase, sep, header);
    var keep := f => Relevant(extract(f), phrase, sep, header);
    assert forall k :: k in Names(d) <==> exists j | 0 <= j < |files| :: BaseName(files[j]) == k && keep(files[j]);
    InDownloadDirOfKept(Names(d), files, keep);
  }

  /** The parts of the message body, in the order they are appended to `corpo_email`. */
  datatype Block =
    | Opening(date: string, phrase: string)
    | FileHeading(name: string)
    | GroupHeading(location: Location)
    | Item(number: nat, text: string)
    | FileEnd
    | Closing

  /**
   * Lines 181-182: the texts of the records with the given label, in order.
   * The source compares the stored label strings; `CaptionInjective` shows
   * that comparing the locations they caption is the same test.
   */
  function TextsAt(pubs: seq<Publication>, loc: Location): seq<string>
    decreases |pubs|
  {
    if pubs == [] then []
    else
      var last := pubs[|pubs| - 1];
      TextsAt(pubs[..|pubs| - 1], loc) + (if last.location == loc then [last.text] else [])
  }

  /** The two labels differ, so a label picks out exactly one location. */
  lemma CaptionInjective(a: Location, b: Location)
    ensures Caption(a) == Caption(b) <==> a == b
  {
    assert Caption(LegislativeSection)[0] != Caption(OtherSections)[0];
  }

  /** The texts of all records, in order. */
  function Texts(pubs: seq<Publication>): (texts: seq<string>)
    ensures |texts| == |pubs|
    decreases |pubs|
  {
    if pubs == [] then [] else Texts(pubs[..|pubs| - 1]) + [pubs[|pubs| - 1].text]
  }

  /** `PUBLICAÇÃO 1`, `PUBLICAÇÃO 2`, ... */
  function Numbered(texts: seq<string>): seq<Block> {
    seq(|texts|, i requires 0 <= i < |texts| => Item(i + 1, texts[i]))
  }

  function GroupBlocks(texts: seq<string>, loc: Location): seq<Block> {
    if texts == [] then [] else [GroupHeading(loc)] + Numbered(texts)
  }

  function EntryBlocks(e: Entry): seq<Block> {
    [FileHeading(e.name)]
      + GroupBlocks(TextsAt(e.publications, LegislativeSection), LegislativeSection)
      + GroupBlocks(TextsAt(e.publications, OtherSections), OtherSections)
      + [FileEnd]
  }

  function EntriesBlocks(d: seq<Entry>): seq<Block>
    decreases |d|
  {
    if d == [] then [] else EntriesBlocks(d[..|d| - 1]) + EntryBlocks(d[|d| - 1])
  }

  /** The whole message body for the results of one date. */
  function Body(date: string, d: seq<Entry>): seq<Block> {
    [Opening(date, SEARCH_PHRASE)] + EntriesBlocks(d) + [Closing]
  }

  /**
   * The two groups of a page partition its records: every record lands in
   * exactly one of them, so the body lists each record once.
   */
  lemma GroupsPartition(pubs: seq<Publication>)
    ensures |TextsAt(pubs, LegislativeSection)| + |TextsAt(pubs, OtherSections)| == |pubs|
    ensures multiset(TextsAt(pubs, LegislativeSection)) + multiset(TextsAt(pubs, OtherSections)) == multiset(Texts(pubs))
  {
    GroupsCover(pubs);
    assert |multiset(Texts(pubs))| == |Texts(pubs)|;
  }

  lemma {:induction false} GroupsCover(pubs: seq<Publication>)
    ensures multiset(TextsAt(pubs, LegislativeSection)) + multiset(TextsAt(pubs, OtherSections)) == multiset(Texts(pubs))
    decreases |pubs|
  {
    if pubs != [] {
      var init, last := pubs[..|pubs| - 1], pubs[|pubs| - 1];
      GroupsCover(init);
      var ls, os := TextsAt(init, LegislativeSection), TextsAt(init, OtherSections);
      assert multiset(Texts(pubs)) == multiset(Texts(init)) + multiset{last.text};
      if last.location == LegislativeSection {
        assert multiset(TextsAt(pubs, LegislativeSection)) == multiset(ls) + multiset{last.text};
      } else {
        assert multiset(TextsAt(pubs, OtherSections)) == multiset(os) + multiset{last.text};
      }
    }
  }

  /** One group: its heading, then its records numbered from 1. */
  method AppendGroup(body: seq<Block>, texts: seq<string>, loc: Location) returns (r: seq<Block>)
    ensures r == body + GroupBlocks(texts, loc)
  {
    r := body;
    if texts != [] {
      r := r + [GroupHeading(loc)];
      for i := 0 to |texts|
        invariant r == body + [GroupHeading(loc)] + Numbered(texts[..i])
      {
        assert Numbered(texts[..i + 1]) == Numbered(texts[..i]) + [Item(i + 1, texts[i])];
        r := r + [Item(i + 1, texts[i])];
      }
      assert texts[..|texts|] == texts;
    }
  }

  /** Lines 177-196: one page's heading, its two groups, and the closing break. */
  method AppendEntry(body: seq<Block>, e: Entry) returns (r: seq<Block>)
    ensures r == body + EntryBlocks(e)
  {
    r := body + [FileHeading(e.name)];
    var inSection := TextsAt(e.publications, LegislativeSection);
    var elsewhere := TextsAt(e.publications, OtherSections);
    r := AppendGroup(r, inSection, LegislativeSection);
    r := AppendGroup(r, elsewhere, OtherSections);
    r := r + [FileEnd];
  }

  /** Appending one more page's entry appends its blocks. */
  lemma EntriesBlocksSnoc(d: seq<Entry>, i: nat)
    requires i < |d|
    ensures EntriesBlocks(d[..i + 1]) == EntriesBlocks(d[..i]) + EntryBlocks(d[i])
  {
    assert d[..i + 1][..i] == d[..i];
  }

  /** Lines 168-204: the body, built by appending to it page by page. */
  method ComposeBody(date: string, d: seq<Entry>) returns (body: seq<Block>)
    ensures body == Body(date, d)
  {
    var entries := [];
    for i := 0 to |d|
      invariant entries == EntriesBlocks(d[..i])
    {
      EntriesBlocksSnoc(d, i);
      entries := AppendEntry(entries, d[i]);
    }
    assert d[..|d|] == d;
    body := [Opening(date, SEARCH_PHRASE)] + entries + [Closing];
  }
}
