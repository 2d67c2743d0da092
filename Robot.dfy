/**
 * The main block (lines 244-286): check the configuration, walk back from
 * today at most fifteen days to the first date with a gazette, search its
 * pages, and mail the relevant ones.  Today's date is a calendar of days
 * counted backwards (`calendar(0)` is today), the gazette site is a function
 * from URL to response and the PDF reader a function from path to text.
 */
module Robot {
  import opened Wrappers
  import opened Paths
  import opened Fetcher
  import opened Segmenter
  import opened Recipients
  import opened Notifier

  /** Line 253: how many days, today included, the robot looks back. */
  const SCAN_WINDOW: nat := 15

  /** The `REMETENTE`, `SENHA_APP` and `DESTINATARIOS` settings. */
  datatype Config = Config(sender: Option<string>, password: Option<string>, recipients: Option<string>)

  /** A date as the gazette URL names it (`%Y%m%d`) and as the message shows it (`%d/%m/%Y`). */
  datatype Day = Day(key: string, shown: string)

  datatype Email = Email(sender: string, recipients: seq<string>, date: string, body: seq<Block>, attachments: seq<string>)

  /**
   * How a run ends.  `cleanedUp` is the list of downloaded pages the run
   * hands to `limpar_arquivos` at the end.
   */
  datatype Outcome =
    | Aborted
    | NoGazette
    | NothingRelevant(cleanedUp: seq<string>)
    | Notified(email: Email, cleanedUp: seq<string>)

  /** Python truthiness of an optional setting: set and not empty. */
  predicate Truthy(setting: Option<string>) {
    setting.Some? && setting.value != []
  }

  /** Line 248: all three settings are usable. */
  predicate Ready(config: Config) {
    Truthy(config.sender) && Truthy(config.password) && ParseRecipients(config.recipients) != []
  }

  /** Line 263: the day's download returned at least one page. */
  predicate GazetteOn(day: Day, server: string -> Response) {
    Downloaded(day.key, server) != []
  }

  /** Which days of the calendar have a gazette. */
  function Gazettes(calendar: nat -> Day, server: string -> Response): nat -> bool {
    (i: nat) => GazetteOn(calendar(i), server)
  }

  /** Lines 255-268: the first day, from `from` on and inside the window, that has a gazette. */
  function FirstGazetteDay(hasGazette: nat -> bool, from: nat): Option<nat>
    decreases SCAN_WINDOW - from
  {
    if from >= SCAN_WINDOW then None
    else if hasGazette(from) then Some(from)
    else FirstGazetteDay(hasGazette, from + 1)
  }

  /**
   * The scan stops at the earliest day in the window that has a gazette, and
   * finds none only when no day from `from` to the end of the window has one.
   */
  lemma {:induction false} FirstGazetteDayIsFirst(hasGazette: nat -> bool, from: nat)
    ensures var r := FirstGazetteDay(hasGazette, from);
      && (r.Some? ==>
            && from <= r.value < SCAN_WINDOW
            && hasGazette(r.value)
            && forall i: nat | from <= i < r.value :: !hasGazette(i))
      && (r.None? ==> forall i: nat | from <= i < SCAN_WINDOW :: !hasGazette(i))
    decreases SCAN_WINDOW - from
  {
    if from < SCAN_WINDOW && !hasGazette(from) {
      FirstGazetteDayIsFirst(hasGazette, from + 1);
    }
  }

  /** What one run does, given its configuration and surroundings. */
  function RunSpec(config: Config, calendar: nat -> Day, server: string -> Response, extract: string -> Extraction, header: Option<string>): Outcome {
    if !Ready(config) then Aborted
    else match FirstGazetteDay(Gazettes(calendar, server), 0)
      case None => NoGazette
      case Some(i) =>
        var day := calendar(i);
        var files := Downloaded(day.key, server);
        var found := Search(files, extract, SEARCH_PHRASE, PUBLICATION_SEPARATOR, header);
        if found == [] then NothingRelevant(files)
        else
          var email := Email(config.sender.value, ParseRecipients(config.recipients), day.shown,
                             Body(day.shown, found), Attachments(found));
          Notified(email, files)
  }

  /**
   * Lines 244-286.  `header` is the section heading the classifier looks for;
   * the program as written has none (see `AsWrittenNeverNotifies`).
   */
  method Run(config: Config, calendar: nat -> Day, server: string -> Response, extract: string -> Extraction, header: Option<string>)
    returns (outcome: Outcome)
    ensures outcome == RunSpec(config, calendar, server, extract, header)
  {
    var recipients := ParseRecipients(config.recipients);
    if !(Truthy(config.sender) && Truthy(config.password) && recipients != []) {
      return Aborted;
    }
    var downloaded: seq<string> := [];
    var found: Option<Day> := None;
    for i := 0 to SCAN_WINDOW
      invariant downloaded == [] && found == None
      invariant FirstGazetteDay(Gazettes(calendar, server), 0) == FirstGazetteDay(Gazettes(calendar, server), i)
    {
      var day := calendar(i);
      downloaded := DownloadPages(day.key, server);
      if downloaded != [] {
        found := Some(day);
        break;
      }
    }
    if downloaded != [] && found.Some? {
      var results := SearchPdfs(downloaded, extract, SEARCH_PHRASE, PUBLICATION_SEPARATOR, header);
      if results != [] {
        var attachments := Attachments(results);
        var body := ComposeBody(found.value.shown, results);
        outcome := Notified(Email(config.sender.value, recipients, found.value.shown, body, attachments), downloaded);
      } else {
        outcome := NothingRelevant(downloaded);
      }
    } else {
      outcome := NoGazette;
    }
  }

  /**
   * The run aborts exactly when a setting is missing, and reports no gazette
   * exactly when no day of the window has pages.
   */
  lemma RunStops(config: Config, calendar: nat -> Day, server: string -> Response, extract: string -> Extraction, header: Option<string>)
    ensures RunSpec(config, calendar, server, extract, header).Aborted? <==> !Ready(config)
    ensures RunSpec(config, calendar, server, extract, header).NoGazette? <==>
      Ready(config) && forall i | 0 <= i < SCAN_WINDOW :: !GazetteOn(calendar(i), server)
  {
    var hasGazette := Gazettes(calendar, server);
    FirstGazetteDayIsFirst(hasGazette, 0);
    assert forall i: nat :: hasGazette(i) == GazetteOn(calendar(i), server);
  }

  /**
   * When the run goes on to search, it searched the pages of the most recent
   * day with a gazette, and it cleans up exactly those pages afterwards.
   */
  lemma RunSearchesLatestGazette(config: Config, calendar: nat -> Day, server: string -> Response, extract: string -> Extraction, header: Option<string>)
    ensures var o := RunSpec(config, calendar, server, extract, header);
      (o.NothingRelevant? || o.Notified?) ==>
        exists d | 0 <= d < SCAN_WINDOW ::
          && o.cleanedUp == Downloaded(calendar(d).key, server) != []
          && (forall i | 0 <= i < d :: !GazetteOn(calendar(i), server))
          && (o.Notified? ==> o.email.date == calendar(d).shown)
  {
    var o := RunSpec(config, calendar, server, extract, header);
    var hasGazette := Gazettes(calendar, server);
    FirstGazetteDayIsFirst(hasGazette, 0);
    if o.NothingRelevant? || o.Notified? {
      var d := FirstGazetteDay(hasGazette, 0).value;
      assert hasGazette(d) == GazetteOn(calendar(d), server);
      forall i | 0 <= i < d ensures !GazetteOn(calendar(i), server) {
        assert !hasGazette(i);
      }
      assert o.cleanedUp == Downloaded(calendar(d).key, server) != [];
      assert 0 <= d < SCAN_WINDOW && (o.Notified? ==> o.email.date == calendar(d).shown);
    }
  }

  /**
   * A message goes out only with matches in it: it is addressed to the parsed
   * recipients, and its attachments are exactly the downloaded pages that
   * hold a matching publication.  A run that finds nothing relevant had no
   * downloaded page with a match.
   */
  lemma RunMailsRelevantPages(config: Config, calendar: nat -> Day, server: string -> Response, extract: string -> Extraction, header: Option<string>)
    requires forall i: nat :: '/' !in calendar(i).key
    ensures var o := RunSpec(config, calendar, server, extract, header);
      && (o.Notified? ==>
            && o.email.sender == config.sender.value
            && o.email.recipients == ParseRecipients(config.recipients) != []
            && o.email.attachments != []
            && forall a :: a in o.email.attachments <==>
                 a in o.cleanedUp && Relevant(extract(a), SEARCH_PHRASE, PUBLICATION_SEPARATOR, header))
      && (o.NothingRelevant? ==>
            forall f | f in o.cleanedUp :: !Relevant(extract(f), SEARCH_PHRASE, PUBLICATION_SEPARATOR, header))
  {
    var o := RunSpec(config, calendar, server, extract, header);
    if o.Notified? || o.NothingRelevant? {
      var d := FirstGazetteDay(Gazettes(calendar, server), 0).value;
      var files := Downloaded(calendar(d).key, server);
      DownloadedInDirectory(calendar(d).key, server);
      AttachmentsAreRelevantPages(files, extract, SEARCH_PHRASE, PUBLICATION_SEPARATOR, header);
      if o.NothingRelevant? {
        forall f | f in files ensures !Relevant(extract(f), SEARCH_PHRASE, PUBLICATION_SEPARATOR, header) {
          SearchKeys(files, extract, SEARCH_PHRASE, PUBLICATION_SEPARATOR, header);
          assert BaseName(f) !in Names([]);
        }
      }
    }
  }

  /**
   * The program as written classifies against a heading that is never
   * defined, so every page fails and no message is ever sent.
   */
  lemma AsWrittenNeverNotifies(config: Config, calendar: nat -> Day, server: string -> Response, extract: string -> Extraction)
    ensures !RunSpec(config, calendar, server, extract, None).Notified?
  {
    if Ready(config) && FirstGazetteDay(Gazettes(calendar, server), 0).Some? {
      var files := Downloaded(calendar(FirstGazetteDay(Gazettes(calendar, server), 0).value).key, server);
      UndefinedHeaderFindsNothing(files, extract, SEARCH_PHRASE, PUBLICATION_SEPARATOR);
    }
  }
}
