/**
 * Downloading one day's gazette (`baixar_diarios`): page `i` of date `d` is
 * requested at a fixed URL; the loop keeps pages while they come back larger
 * than 10 KiB and stops at the first 404, the first undersized page, the first
 * request error, or after page 200.  The HTTP server is a parameter: a total
 * map from URL to the response it gives.
 */
module Fetcher {
  import opened Paths

  const MAX_PAGES: nat := 200
  const MIN_SIZE_KB: nat := 10
  const MIN_VALID_BYTES: nat := MIN_SIZE_KB * 1024
  const BASE_URL: string := "http://imagens.seplag.ce.gov.br/pdf"
  const DOWNLOAD_DIR: string := "diarios_pdf"

  /**
   * What a request for one page comes to.  `Failed` is a transport error or a
   * non-404 error status (`raise_for_status` raising); `Ok` carries the size
   * of the body once written to disk.
   */
  datatype Response = NotFound | Ok(size: nat) | Failed

  /** A page that the loop keeps: a successful response above the size threshold. */
  predicate Kept(r: Response) {
    r.Ok? && r.size > MIN_VALID_BYTES
  }

  predicate AllDigits(s: string) {
    forall i | 0 <= i < |s| :: '0' <= s[i] <= '9'
  }

  function DigitChar(d: nat): char
    requires d < 10
  {
    ('0' as int + d) as char
  }

  /** `str(n)` */
  function DecimalString(n: nat): (r: string)
    ensures r != [] && AllDigits(r)
    decreases n
  {
    if n < 10 then [DigitChar(n)] else DecimalString(n / 10) + [DigitChar(n % 10)]
  }

  /** The value of a string of decimal digits (leading zeros allowed). */
  function ParseDecimal(s: string): nat
    requires AllDigits(s)
    decreases |s|
  {
    if s == [] then 0 else 10 * ParseDecimal(s[..|s| - 1]) + (s[|s| - 1] as int - '0' as int)
  }

  function Zeros(z: nat): (r: string)
    ensures |r| == z && AllDigits(r)
  {
    seq(z, _ => '0')
  }

  /** `s.zfill(width)` for an unsigned digit string. */
  function ZFill(s: string, width: nat): (r: string)
    requires AllDigits(s)
    ensures AllDigits(r)
  {
    if |s| >= width then s else Zeros(width - |s|) + s
  }

  /**
   * `zfill` pads on the left with zeros up to the width: the result is as
   * long as the wider of the two, ends with `s`, and is zeros before it.
   */
  lemma ZFillPads(s: string, width: nat)
    requires AllDigits(s)
    ensures var r := ZFill(s, width);
      && |r| == (if |s| >= width then |s| else width)
      && r[|r| - |s|..] == s
      && forall k | 0 <= k < |r| - |s| :: r[k] == '0'
  {
  }

  /** `str(n).zfill(2)` */
  function PageNumber(n: nat): (r: string)
    ensures AllDigits(r)
  {
    ZFill(DecimalString(n), 2)
  }

  /** The file name of page `n` of the gazette of `date`. */
  function PageName(date: string, n: nat): string {
    "do" + date + "p" + PageNumber(n) + ".pdf"
  }

  function PageUrl(date: string, n: nat): string {
    BASE_URL + "/" + date + "/" + PageName(date, n)
  }

  function LocalPath(date: string, n: nat): string {
    PathJoin(DOWNLOAD_DIR, PageName(date, n))
  }

  /** `str(n)` is canonical: no leading zero, except that `str(0)` is `0`. */
  lemma {:induction false} DecimalStringCanonical(n: nat)
    ensures DecimalString(n)[0] == '0' <==> n == 0
    ensures n == 0 ==> DecimalString(n) == "0"
    decreases n
  {
    if n >= 10 {
      DecimalStringCanonical(n / 10);
    }
  }

  lemma {:induction false} ParseDecimalString(n: nat)
    ensures ParseDecimal(DecimalString(n)) == n
    decreases n
  {
    if n >= 10 {
      ParseDecimalString(n / 10);
      var s := DecimalString(n);
      assert s[..|s| - 1] == DecimalString(n / 10);
    }
  }

  lemma {:induction false} ParseZeros(z: nat)
    ensures ParseDecimal(Zeros(z)) == 0
  {
    if z > 0 {
      ParseZeros(z - 1);
      assert Zeros(z)[..z - 1] == Zeros(z - 1);
    }
  }

  lemma {:induction false} ParseLeadingZeros(z: nat, s: string)
    requires AllDigits(s)
    ensures ParseDecimal(Zeros(z) + s) == ParseDecimal(s)
    decreases |s|
  {
    if s == [] {
      assert Zeros(z) + s == Zeros(z);
      ParseZeros(z);
    } else {
      assert (Zeros(z) + s)[..z + |s| - 1] == Zeros(z) + s[..|s| - 1];
      ParseLeadingZeros(z, s[..|s| - 1]);
    }
  }

  /** The zero-padded page number is at least two characters long and reads back as the page index. */
  lemma PageNumberRoundTrip(n: nat)
    ensures |PageNumber(n)| >= 2 && ParseDecimal(PageNumber(n)) == n
  {
    var s := DecimalString(n);
    ParseDecimalString(n);
    if |s| < 2 {
      ParseLeadingZeros(2 - |s|, s);
    }
  }

  /** Distinct pages of one date get distinct file names. */
  lemma PageNameInjective(date: string, i: nat, j: nat)
    requires PageName(date, i) == PageName(date, j)
    ensures i == j
  {
    var x := PageName(date, i);
    assert x[|date| + 3..|x| - 4] == PageNumber(i);
    assert x[|date| + 3..|x| - 4] == PageNumber(j);
    PageNumberRoundTrip(i);
    PageNumberRoundTrip(j);
  }

  /** The local path of a page lies in the download directory and its base name is the page's file name. */
  lemma LocalPathBaseName(date: string, n: nat)
    requires '/' !in date
    ensures BaseName(LocalPath(date, n)) == PageName(date, n)
    ensures LocalPath(date, n) == PathJoin(DOWNLOAD_DIR, BaseName(LocalPath(date, n)))
  {
    var name := PageName(date, n);
    assert forall k | 0 <= k < |PageNumber(n)| :: PageNumber(n)[k] != '/';
    assert '/' !in name;
    BaseNameOfJoin(DOWNLOAD_DIR, name);
  }

  /** Page `n` of `date` is kept by the download loop. */
  predicate PageKept(date: string, server: string -> Response, n: nat) {
    Kept(server(PageUrl(date, n)))
  }

  /** Which pages of `date` the download loop keeps. */
  function KeptPages(date: string, server: string -> Response): nat -> bool {
    (n: nat) => PageKept(date, server, n)
  }

  /** How many consecutive pages, from page `i` on, satisfy `kept`, stopping after page 200. */
  function ValidRun(kept: nat -> bool, i: nat): nat
    requires i >= 1
    decreases MAX_PAGES + 1 - i
  {
    if i > MAX_PAGES then 0
    else if kept(i) then 1 + ValidRun(kept, i + 1)
    else 0
  }

  /** The local paths of pages 1..k of `date`, in page order. */
  function Pages(date: string, k: nat): (paths: seq<string>)
    ensures |paths| == k
  {
    seq(k, j requires 0 <= j => LocalPath(date, j + 1))
  }

  lemma PagesSnoc(date: string, k: nat)
    ensures Pages(date, k + 1) == Pages(date, k) + [LocalPath(date, k + 1)]
  {
  }

  /** The paths `baixar_diarios` returns: those of pages 1..k, k the length of the valid run. */
  function Downloaded(date: string, server: string -> Response): seq<string> {
    Pages(date, ValidRun(KeptPages(date, server), 1))
  }

  /**
   * The valid run from page `i` is the longest stretch of kept pages: all of
   * them are kept, it ends at page 200 at the latest, and the page right
   * after it (if there is one below the bound) was not kept.
   */
  lemma {:induction false} ValidRunFrom(kept: nat -> bool, i: nat)
    requires 1 <= i
    ensures var k := ValidRun(kept, i);
      && (i <= MAX_PAGES + 1 ==> i + k <= MAX_PAGES + 1)
      && (forall p | i <= p < i + k :: kept(p))
      && (i + k <= MAX_PAGES ==> !kept(i + k))
    decreases MAX_PAGES + 1 - i
  {
    if i <= MAX_PAGES && kept(i) {
      ValidRunFrom(kept, i + 1);
    }
  }

  /**
   * What a day's download returns: the local paths of pages 1..k in order,
   * k at most 200, every one of them answered with more than 10240 bytes;
   * when k is below 200, page k + 1 was a 404, an error or undersized.
   */
  lemma DownloadedPages(date: string, server: string -> Response)
    ensures var paths := Downloaded(date, server);
      && |paths| <= MAX_PAGES
      && (forall j | 0 <= j < |paths| :: paths[j] == LocalPath(date, j + 1) && PageKept(date, server, j + 1))
      && (|paths| < MAX_PAGES ==> !PageKept(date, server, |paths| + 1))
  {
    var kept := KeptPages(date, server);
    ValidRunFrom(kept, 1);
    assert forall n: nat :: kept(n) == PageKept(date, server, n);
  }

  /** Every downloaded page lies in the download directory under its own name. */
  lemma DownloadedInDirectory(date: string, server: string -> Response)
    requires '/' !in date
    ensures forall f | f in Downloaded(date, server) :: f == PathJoin(DOWNLOAD_DIR, BaseName(f))
  {
    PagesInDirectory(date, ValidRun(KeptPages(date, server), 1));
  }

  lemma PagesInDirectory(date: string, k: nat)
    requires '/' !in date
    ensures forall f | f in Pages(date, k) :: f == PathJoin(DOWNLOAD_DIR, BaseName(f))
  {
    var files := Pages(date, k);
    forall j | 0 <= j < k ensures files[j] == PathJoin(DOWNLOAD_DIR, BaseName(files[j])) {
      LocalPathBaseName(date, j + 1);
    }
  }

  /** `baixar_diarios`: the download loop, with its three ways to stop early. */
  method DownloadPages(date: string, server: string -> Response) returns (paths: seq<string>)
    ensures paths == Downloaded(date, server)
  {
    paths := [];
    for i := 1 to MAX_PAGES + 1
      invariant paths == Pages(date, i - 1)
      invariant ValidRun(KeptPages(date, server), 1) == i - 1 + ValidRun(KeptPages(date, server), i)
    {
      var response := server(PageUrl(date, i));
      if response.NotFound? {
        break;
      }
      if response.Failed? {
        break;
      }
      if response.size > MIN_VALID_BYTES {
        PagesSnoc(date, i - 1);
        paths := paths + [LocalPath(date, i)];
      } else {
        break;
      }
    }
  }
}
