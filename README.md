# Ceará gazette robot — a verified Dafny model

`meu_script.py` is a robot that looks for publications of the Legislative
Assembly of Ceará in the state's daily gazette (Diário Oficial). It checks
that its three settings are present: sender, app password and a
comma-separated recipient list. It then walks back from today, at most 15
days, to the first date whose gazette can be downloaded. The download fetches
pages `do<date>p01.pdf`, `p02`, … and stops at the first 404, the first page
of 10 KiB or less, the first request error, or after page 200.

For each page it splits the extracted text into publications on
`*** *** ***`. It keeps the publications that mention "Assembleia Legislativa
do Estado do Ceará", ignoring case. Each kept publication is labelled as
inside or outside the Legislative section, by comparing where its text first
occurs with where the section heading occurs. The last kept publication of a
page is cut just before the first occurrence of `OUTROS` or of
`TRIBUNAL DE CONTAS DO ESTADO`, whichever comes first, and stripped. Finally
the robot mails the relevant pages as attachments, with a body that lists
their publications grouped by label and numbered.

That is the intended behaviour. As shipped, the section heading
`CABECALHO_SECAO` is never defined, so every page raises at line 125 and the
error is swallowed: no page is ever kept and nothing is mailed (see
"## Findings"). The model takes the heading as a parameter and covers both
cases.

The model is split into these modules:

- `Strings`: the Python `str` operations the script uses, over `seq<char>`:
  - `isspace`/`\s`, `strip`, `lower`, `find`, `in`;
  - `split` on a non-empty separator.
  - `join` and `count` are not called by the modelled code. They are
    defined only to state what `split` returns.
- `Paths`: `os.path.basename` and `os.path.join` on POSIX paths.
- `Fetcher`: `baixar_diarios`.
  - Page naming uses `str(i).zfill(2)`.
  - The download loop is a method proved equal to the longest run of kept
    pages.
  - The web server is a parameter: a total function from URL to response.
- `Trim`: `_recortar_publicacao_final`.
  - The regular expression `TRIBUNAL\s+DE\s+CONTAS\s+DO\s+ESTADO` is a
    sequence of words separated by runs of whitespace.
- `Segmenter`: `pesquisar_nos_pdfs`.
  - The inner loop over the pieces, the in-place trim of the last record and
    the outer loop that fills the insertion-ordered result dictionary are
    methods, each proved equal to a function.
  - The dictionary is a sequence of entries.
  - The PDF reader is a parameter: a function from path to extracted text,
    or to a read failure.
- `Recipients`: the `DESTINATARIOS` parsing at lines 23-26.
- `Notifier`: the attachment list at lines 275-278, and the body of
  `enviar_email`, reduced to a sequence of blocks: headings and numbered
  items.
- `Robot`: the main block.
  - The clock becomes a calendar: day `i` is `i` days before today.
  - The outcome says whether the run aborted, found no gazette, found nothing
    relevant, or mailed, and which pages it cleans up.

One point in the source is subtle. A publication's label depends on the
first occurrence of its text anywhere in the page, not on where the piece
itself was cut. If the same text appears twice, the second copy gets the
label of the first. `Segmenter.ClassifyPiece` states that the offset used is
never later than the piece's real offset.

## Model

| member | source | states |
|---|---|---|
| Strings.IsSpace | meu_script.py:138 | The whitespace of `str.isspace` and of `\s`: tab to carriage return, the separators 0x1C-0x1F, space, NEL, no-break space and the Unicode space separators. |
| Strings.StripStart | meu_script.py:138 | The left edge `strip` keeps: only whitespace before it, and it is the end or a non-whitespace character. |
| Strings.StripEnd | meu_script.py:138 | The right edge `strip` keeps: only whitespace after it, and it is the left edge or follows a non-whitespace character. |
| Strings.Strip | meu_script.py:138 | The stripped text is no longer than the input, and neither of its ends is whitespace. |
| Strings.StripRemovesOuterSpaces | meu_script.py:138 | `strip` removes whitespace only. The result is the input's slice between a leading and a trailing whitespace run. |
| Strings.StripIdempotent | meu_script.py:95 | Stripping an already stripped text changes nothing. |
| Strings.LowerChar | meu_script.py:107 | Lower-cases one character: ASCII and Latin-1 capitals map to their small letters, every other character is kept. |
| Strings.Lower | meu_script.py:107 | Lower-casing keeps the length (for the characters modelled). |
| Strings.Find | meu_script.py:125 | `find` returns -1 exactly when the pattern does not occur. Otherwise it returns an offset where the pattern starts, with no occurrence before it. |
| Strings.Contains | meu_script.py:128 | The `in` test on strings: the pattern starts at some offset of the text. |
| Strings.FindContains | meu_script.py:128 | `find` returns -1 exactly when the `in` test is false. |
| Strings.FindFrom | meu_script.py:130 | The search behind `Strings.Find`, which is `FindFrom(s, pat, 0)`: the first occurrence at or after `i`, or -1 when there is none. |
| Strings.Split | meu_script.py:121 | `split` always yields at least one piece. What the pieces are is stated by `Strings.SplitJoin`, `Strings.SplitPiecesFree` and `Strings.SplitCutsLeftmost`. |
| Strings.SplitCutsLeftmost | meu_script.py:121 | Every cut is at the leftmost occurrence of the separator: in each piece but the last, followed by the separator, the first occurrence of the separator is right after the piece. So `*** *** ***` is cut at its first possible position even when occurrences overlap. |
| Strings.SplitJoin | meu_script.py:121 | Joining the pieces of `text.split(sep)` with `sep` gives back `text` exactly. |
| Strings.SplitCount | meu_script.py:121 | The number of pieces is the number of non-overlapping occurrences of the separator plus one. |
| Strings.SplitPiecesFree | meu_script.py:121 | No piece contains the separator. |
| Strings.CountChar | meu_script.py:24 | For a one-character separator, the count is the number of times the character occurs. |
| Strings.PieceAtOffset | meu_script.py:121 | Each piece sits unchanged at its offset in the joined text. |
| Paths.LastSlash | meu_script.py:110 | The offset of the last `/`, or -1 when there is none. |
| Paths.BaseName | meu_script.py:110 | `basename` is the longest slash-free suffix of the path. |
| Paths.PathJoin | meu_script.py:54 | `os.path.join` of two parts: an absolute second part replaces the first, otherwise a `/` is inserted unless the first part is empty or already ends with one. |
| Paths.BaseNameOfJoin | meu_script.py:54 | The base name of `join(dir, name)` is `name`, for a slash-free name. |
| Fetcher.DecimalString | meu_script.py:51 | `str(i)` is a non-empty string of digits. |
| Fetcher.DecimalStringCanonical | meu_script.py:51 | `str(i)` has no leading zero: its first digit is `0` exactly when `i` is 0, and then it is `0` alone. |
| Fetcher.ParseDecimalString | meu_script.py:51 | `str(i)` reads back as `i`. |
| Fetcher.ZFill | meu_script.py:51 | `zfill` keeps a digit string a digit string. Its length and padding are stated by `Fetcher.ZFillPads`. |
| Fetcher.ZFillPads | meu_script.py:51 | `zfill(width)` of a digit string has length `max(width, len)`. It ends with the string itself and is `0` everywhere before it. |
| Fetcher.PageNumberRoundTrip | meu_script.py:51 | The padded page number has at least 2 characters and reads back as the page index. |
| Fetcher.PageNumber | meu_script.py:51 | `str(i).zfill(2)`: the page index in decimal, padded with zeros to two digits. `Fetcher.PageNumberRoundTrip` states that it reads back as the index. |
| Fetcher.PageName | meu_script.py:52 | The file name of page `n`: `do`, the date, `p`, the two-digit page number and `.pdf`. `Fetcher.PageNameInjective` states that it names pages apart. |
| Fetcher.PageUrl | meu_script.py:53 | The page's URL: the base URL, the date, and the page's file name, joined by `/`. |
| Fetcher.LocalPath | meu_script.py:54 | Where page `n` is saved: the download directory joined with the page's file name. |
| Fetcher.PageNameInjective | meu_script.py:52 | Distinct pages of a date get distinct file names. |
| Fetcher.LocalPathBaseName | meu_script.py:52-54 | A page's local path lies in the download directory, and its base name is the page's file name. |
| Fetcher.Kept | meu_script.py:56-78 | A page is kept when it was answered without error or 404 and its size is strictly more than 10240 bytes. |
| Fetcher.PageKept | meu_script.py:57-67 | Page `n` of a date is kept: the server's answer to its URL is kept. |
| Fetcher.KeptPages | meu_script.py:57-67 | The kept-page test of a date, for every page number. |
| Fetcher.ValidRun | meu_script.py:50-78 | The number of consecutive pages from page `i` that pass a test, stopping after page 200. `Fetcher.ValidRunFrom` states its properties. |
| Fetcher.ValidRunFrom | meu_script.py:50-78 | From page `i`: every page in the run passes the test, the run stops by page 200, and the page after it (if at most 200) fails it. With `Fetcher.KeptPages`, failing means a 404, an error or 10240 bytes or less. |
| Fetcher.Pages | meu_script.py:50-54 | The local paths of pages 1 to `k`, in page order, one per page. |
| Fetcher.Downloaded | meu_script.py:39-81 | What `baixar_diarios` returns: the paths of the valid run from page 1. `Fetcher.DownloadedPages` states its properties. |
| Fetcher.DownloadedPages | meu_script.py:50-81 | A download returns the local paths of pages 1..k in order, k ≤ 200. Each of those pages was answered with more than 10240 bytes. Below 200, page k+1 was not kept. |
| Fetcher.PagesInDirectory | meu_script.py:54 | Each page path is the download directory joined with its own base name, for a slash-free date. |
| Fetcher.DownloadedInDirectory | meu_script.py:54 | Every downloaded path is the download directory joined with its own base name. |
| Fetcher.DownloadPages | meu_script.py:39-81 | The loop with its three `break`s returns exactly the longest run of kept pages. |
| Trim.WordsAt | meu_script.py:85 | The words of the pattern match at an offset: the first word, then for each later word a non-empty run of whitespace and the word. |
| Trim.SpacesThenWords | meu_script.py:85 | A `\s+` followed by the remaining words of the pattern matches at an offset: one or more whitespace characters, then the words. |
| Trim.TribunalAt | meu_script.py:85-88 | The compiled tribunal pattern matches at an offset. |
| Trim.MarkerAt | meu_script.py:85-86 | One of the two patterns starts at an offset: the tribunal pattern or the literal `OUTROS`. |
| Trim.FirstTribunalFrom | meu_script.py:85-88 | The first offset from `i` where `TRIBUNAL\s+DE\s+CONTAS\s+DO\s+ESTADO` matches, or -1. |
| Trim.FirstTribunal | meu_script.py:88 | `padrao_tribunal.search(text)`: the first offset where the pattern matches, or -1. |
| Trim.TrimFinal | meu_script.py:83-97 | The trimmed text is never longer than the input. |
| Trim.FirstMarkerFrom | meu_script.py:88-93 | Reference search: the first offset from `i` where either marker starts, or -1. |
| Trim.TrimFinalCutsAtFirstMarker | meu_script.py:88-97 | Two searches and a `min` come to one search for either marker. The text is stripped up to the earliest marker, or returned unchanged when neither occurs. |
| Trim.TrimFinalWithoutMarker | meu_script.py:91-97 | With no marker, the text is returned unchanged. |
| Trim.TrimFinalWithMarker | meu_script.py:91-95 | With a marker, the result is the stripped prefix up to the earliest marker. |
| Trim.MarkerWithin | meu_script.py:85-86 | A marker found in a slice is a marker of the whole text. |
| Trim.TrimFinalMarkerFree | meu_script.py:83-97 | Neither marker occurs anywhere in a trimmed text. |
| Trim.StrippedPrefixMarkerFree | meu_script.py:95 | Stripping a prefix that ends before the first marker leaves no marker. |
| Trim.TrimFinalIdempotent | meu_script.py:83-97 | Trimming twice is the same as trimming once. |
| Segmenter.Caption | meu_script.py:132-134 | The two label strings a record can carry. `Notifier.CaptionInjective` shows that they differ. |
| Segmenter.Mentions | meu_script.py:128 | A piece is kept when its lower-cased text contains the lower-cased phrase. |
| Segmenter.Classify | meu_script.py:130-134 | The label of a piece: in the Legislative section when the header occurs and the piece's first occurrence in the page is at or after it, elsewhere otherwise. `Segmenter.ClassifyPiece` states what this means for the piece's real offset. |
| Segmenter.Publish | meu_script.py:136-140 | The record appended for a kept piece: its stripped text and its label. |
| Segmenter.Matches | meu_script.py:127-140 | The records of the inner loop, before the final trim. `Segmenter.MatchesIsFilter` states that they are exactly the labelled, stripped pieces that mention the phrase. |
| Segmenter.TrimLast | meu_script.py:146-147 | Only the last record changes: its text is trimmed and its label kept. All earlier records are untouched. |
| Segmenter.ProcessFile | meu_script.py:112-150 | One page's `try` body: no value when the read fails, the separator is empty or the header is undefined. Otherwise the matched records with the last one trimmed. |
| Segmenter.MatchesIsFilter | meu_script.py:127-140 | A piece yields a record exactly when its lower-cased text contains the lower-cased phrase. The record is the stripped piece with its label, in split order, whatever comes before or after. |
| Segmenter.ClassifyPiece | meu_script.py:125-134 | The offset `find` gives for a piece is never -1 and never after the piece's own offset in the page. So a piece labelled Legislative really starts at or after the header. The label is decided by that first occurrence alone, and with no header every piece is labelled as elsewhere. |
| Segmenter.Names | meu_script.py:276 | The dictionary's keys in insertion order, one per entry. |
| Segmenter.Lookup | meu_script.py:150 | The value stored under a key, or none when the key is absent. `Segmenter.NamesIndex` states that it succeeds exactly for the keys. |
| Segmenter.Put | meu_script.py:150 | Assigning a key keeps an existing key in place or appends a new one. The key now maps to the value, and every other key is unchanged. |
| Segmenter.NamesIndex | meu_script.py:150 | A name is a key exactly when a lookup of it succeeds. |
| Segmenter.Relevant | meu_script.py:111-153 | A page ends up in the result: its `try` body did not raise and kept at least one record. |
| Segmenter.Collect | meu_script.py:109-153 | The dictionary after a sequence of page passes: each pass that stored records assigns them under its page name, in pass order. The `Collect` lemmas below state its keys and values. |
| Segmenter.CollectKeys | meu_script.py:109-153 | The keys are exactly the names of passes that stored records. A pass that raised or kept nothing adds no key and does not stop later passes. |
| Segmenter.CollectKeysDistinct | meu_script.py:150 | Each key occurs once. |
| Segmenter.CollectValue | meu_script.py:150 | A key holds the records of the last pass that stored under it. |
| Segmenter.CollectSkipsEmptyPass | meu_script.py:142-153 | Removing a pass that stored nothing leaves the dictionary unchanged. |
| Segmenter.CollectNothing | meu_script.py:142-153 | When no pass stores anything, the dictionary is empty. |
| Segmenter.Found | meu_script.py:142 | A pass stores its records: it did not raise and kept at least one record. |
| Segmenter.PageResults | meu_script.py:109-153 | One pass per page, in order: the page's base name and the outcome of its `try` body. |
| Segmenter.Search | meu_script.py:100-156 | The dictionary `pesquisar_nos_pdfs` returns: each page processed in order, and stored under its base name when it yields records. `Segmenter.SearchKeys` states its keys. |
| Segmenter.SearchKeys | meu_script.py:100-156 | The result's keys are exactly the base names of the pages that yield at least one record, each once. |
| Segmenter.UndefinedHeaderFindsNothing | meu_script.py:125-153 | With the section header undefined, the result is always empty. |
| Segmenter.CollectPublications | meu_script.py:127-140 | The inner loop collects exactly the filtered, labelled, stripped records. |
| Segmenter.ProcessPage | meu_script.py:112-150 | One page's `try` body, including the in-place trim of the last record, yields what the page function specifies. A read failure, an empty separator or an undefined header gives nothing. |
| Segmenter.SearchPdfs | meu_script.py:100-156 | The page loop builds exactly the dictionary `Segmenter.Search` describes. |
| Recipients.ParseRecipients | meu_script.py:23-26 | The recipient list: empty for an unset or empty setting, otherwise each comma-separated field stripped. `Recipients.ParseRecipientsFields` states its properties. |
| Recipients.StripAll | meu_script.py:24 | One stripped address per field. |
| Recipients.ParseRecipientsFields | meu_script.py:23-26 | An unset or empty setting gives no recipients. Otherwise there are commas+1 addresses, each its field stripped, with no whitespace at either end and no comma. The fields rejoin to the setting. |
| Recipients.NoCommaAfterStrip | meu_script.py:24 | Stripping a comma-free field leaves no comma. |
| Notifier.InDownloadDir | meu_script.py:277 | Each name joined onto the download directory, one path per name, in order. |
| Notifier.Attachments | meu_script.py:276-277 | One attachment path per result key. |
| Notifier.InDownloadDirOfKept | meu_script.py:276-277 | Joining the kept files' base names back onto the download directory gives exactly the kept files. |
| Notifier.AttachmentsAreRelevantPages | meu_script.py:275-278 | The attachments are exactly the searched pages that are relevant: none without a match, none outside the searched pages. |
| Notifier.TextsAt | meu_script.py:181-182 | The texts of a page's records that carry one label, in record order. |
| Notifier.CaptionInjective | meu_script.py:181-182 | Two labels are equal exactly when their locations are, so testing a record's label string picks out the same records as testing its location. |
| Notifier.GroupsPartition | meu_script.py:181-182 | The two label groups partition a page's records: their sizes add up, and together they hold exactly the records' texts. |
| Notifier.Numbered | meu_script.py:186-194 | A group's texts as items numbered from 1, in order. |
| Notifier.GroupBlocks | meu_script.py:184-194 | A group: nothing when it is empty, otherwise its heading followed by its numbered items. |
| Notifier.EntriesBlocks | meu_script.py:177-196 | The blocks of every page, in the dictionary's key order, as the loop over `resultados_busca.items()` emits them. |
| Notifier.EntryBlocks | meu_script.py:177-196 | One page: its heading, its Legislative group, its other group and a break. |
| Notifier.Body | meu_script.py:168-204 | The message body: the opening, then per page its heading, its Legislative group, its other group and a break, then the closing. |
| Notifier.AppendGroup | meu_script.py:184-194 | A non-empty group becomes its heading followed by its texts numbered from 1. An empty group adds nothing. |
| Notifier.AppendEntry | meu_script.py:177-196 | One page adds its heading, the Legislative group, the other group and a break. |
| Notifier.ComposeBody | meu_script.py:168-204 | The appending loop builds exactly the body the block functions describe. |
| Robot.Truthy | meu_script.py:248 | Python truthiness of a setting: it is set and not the empty string. |
| Robot.Ready | meu_script.py:248 | The three settings are present: a non-empty sender, a non-empty password and a non-empty recipient list. |
| Robot.Gazettes | meu_script.py:261-263 | For each day of the calendar, whether its download returned at least one page. |
| Robot.GazetteOn | meu_script.py:263 | A day has a gazette when its download returned at least one page. |
| Robot.FirstGazetteDay | meu_script.py:255-268 | The first day from `from` in the 15-day window that has a gazette, or none. `Robot.FirstGazetteDayIsFirst` states its properties. |
| Robot.FirstGazetteDayIsFirst | meu_script.py:255-268 | The scan stops at the earliest day in the 15-day window with a gazette. It finds none only when no day in the window has one. |
| Robot.RunSpec | meu_script.py:244-286 | The outcome of the main block: abort, no gazette, nothing relevant, or the message it sends. The lemmas below state its properties. |
| Robot.Run | meu_script.py:244-286 | The main block computes exactly the outcome the run function describes. |
| Robot.RunStops | meu_script.py:248-284 | The run aborts exactly when a setting is missing. It reports no gazette exactly when no day of the window has pages. |
| Robot.RunSearchesLatestGazette | meu_script.py:255-282 | A run that searches uses the most recent day with pages. The message is dated that day, and exactly those pages are cleaned up. |
| Robot.RunMailsRelevantPages | meu_script.py:270-280 | A message goes only to the parsed recipients, and only with a non-empty result. It has at least one attachment, and its attachments are exactly the downloaded pages with a match. A run with nothing relevant had no such page. |
| Robot.AsWrittenNeverNotifies | meu_script.py:270-278 | With the header undefined, the robot never sends a message. |

## Left out

- HTTP (`requests.get`, timeouts, `raise_for_status`) is the `server` parameter: a total function from URL to response. Transport failures and error statuses are one `Failed` response.
- Writing a page to disk, `os.path.getsize`, removing an undersized page, and creating the download directory are not modelled. The size a page has on disk is carried by the response. An `OSError` from writing a file, which would escape the loop, is not modelled.
- PDF reading, decryption and `extract_text` (lines 112-119) are the `extract` parameter. It gives a page's concatenated text, or a read failure.
- MIME composition, the subject line, the HTML markup and styling, and SMTP delivery with its caught failure (lines 162-224) are left out. The body is kept as a sequence of blocks.
- `limpar_arquivos` (lines 226-239) deletes files, so it is a filesystem effect. The model records only which pages a run hands to it.
- `datetime.date.today()` and `strftime` are left out. The calendar parameter gives each day's URL key and display form.
- All `print` logging is left out.
- Strings.Lower and Strings.LowerChar: `Strings.LowerChar` maps only ASCII and Latin-1 capitals (À–Þ except ×). Python's full Unicode lowering, including characters whose lowercase form is longer, is not modelled.
- Fetcher.ZFill: models only the unsigned digit strings `str(i)` produces. `zfill`'s handling of a leading sign is not modelled.
- Notifier.TextsAt: the source compares labels by their Portuguese strings. The model compares the `Location` values, which `Notifier.CaptionInjective` shows is the same test.

## Findings

| source | as written | input that shows it | evidently intended | confidence | as-written member | corrected member |
|---|---|---|---|---|---|---|
| meu_script.py:125 | `CABECALHO_SECAO` is never defined. Line 125 raises `NameError` for every page, the handler at lines 152-153 swallows it, so the result is always empty and no message is ever sent. | Any page whose text contains the search phrase. | The offset of the Legislative section's heading is found, and pages with matches are reported. | high (not executed) | Segmenter.UndefinedHeaderFindsNothing | Segmenter.SearchKeys |
