/** The download-decision rules of `VideoDownloaderApp` (main.cpp:84-135) as
    functions on the widget's state. The clipboard text, the answer to the
    duplicate prompt, the exit status of the external command and the
    directory chosen in the picker are plain inputs. A step either rejects
    the clipboard, is declined at the duplicate prompt, or logs the start of
    a download, records the command and logs how it ended. */
module Downloads {
  import opened UrlValidator
  import opened Decimal

  /** The two buttons of the duplicate prompt (main.cpp:103-106). */
  datatype Reply = Yes | No

  /** The command handed to the shell, kept as the directory it writes to
      and the link it fetches (main.cpp:114-116). */
  datatype Command = Command(directory: string, url: string)

  /** How one press of "Download" ends. */
  datatype Outcome = Rejected | Declined | Completed | Failed(status: int)

  /** The widget's state: the ledger of completed links, the download
      directory, the command log, the commands run so far and the text of the
      error label. */
  datatype Session = Session(
    completedLinks: set<string>,
    downloadPath: string,
    log: seq<string>,
    commands: seq<Command>,
    errorText: string)

  /** The message shown for a clipboard that fails validation (main.cpp:98). */
  const InvalidUrlMessage: string := "The clipboard does not contain a valid URL."

  /** The log lines of main.cpp:112, 121 and 124. */
  function DownloadingLine(url: string): string { "Downloading: " + url + "\n" }

  function CompletedLine(url: string): string { "Download completed: " + url + "\n" }

  function ErrorLine(status: int): string { "Error downloading: " + NumberString(status) + "\n" }

  /** The status line for a few exit statuses; `std::system` reports a
      command that exited with code 1 as 256 on POSIX systems. `ErrorLine(0)`
      is never logged, since status 0 takes the completion branch
      (main.cpp:120-121). */
  lemma ErrorLineExamples()
    ensures ErrorLine(256) == "Error downloading: 256\n"
    ensures ErrorLine(-1) == "Error downloading: -1\n"
    ensures ErrorLine(0) == "Error downloading: 0\n"
  {
  }

  /** A fresh widget (main.cpp:36, 43, 68): nothing downloaded, nothing
      logged, no error shown, the download directory at `home`. */
  function Initial(home: string): (st: Session)
    ensures st.completedLinks == {} && st.log == [] && st.commands == []
    ensures st.downloadPath == home && st.errorText == ""
  {
    Session({}, home, [], [], "")
  }

  /** The invariant every reachable state keeps: only links that passed
      validation are in the ledger or handed to the shell. */
  predicate Valid(st: Session) {
    && (forall u | u in st.completedLinks :: IsValidUrl(u))
    && (forall m | 0 <= m < |st.commands| :: IsValidUrl(st.commands[m].url))
  }

  /** The duplicate prompt appears exactly for a valid link already in the
      ledger (main.cpp:102). */
  predicate Prompted(st: Session, url: string) {
    IsValidUrl(url) && url in st.completedLinks
  }

  /** The way `downloadVideo` ends for a given clipboard text, reply and exit
      status (main.cpp:97-125). The reply only matters when the prompt is
      shown, and the status only when the command is run. */
  function DownloadOutcome(st: Session, url: string, reply: Reply, status: int): Outcome {
    if !IsValidUrl(url) then Rejected
    else if url in st.completedLinks && reply == No then Declined
    else if status == 0 then Completed
    else Failed(status)
  }

  /** `showError` (main.cpp:128-131): the label shows the message. */
  function AfterShowError(st: Session, message: string): Session {
    st.(errorText := message)
  }

  /** `clearError` (main.cpp:133-135): the label is emptied. */
  function AfterClearError(st: Session): Session {
    st.(errorText := "")
  }

  /** The state after one press of "Download" (main.cpp:91-126). */
  function AfterDownload(st: Session, url: string, reply: Reply, status: int): Session {
    match DownloadOutcome(st, url, reply, status)
    case Rejected => AfterShowError(st, InvalidUrlMessage)
    case Declined => st
    case Completed =>
      st.(log := st.log + [DownloadingLine(url), CompletedLine(url)],
          commands := st.commands + [Command(st.downloadPath, url)],
          completedLinks := st.completedLinks + {url})
    case Failed(s) =>
      st.(log := st.log + [DownloadingLine(url), ErrorLine(s)],
          commands := st.commands + [Command(st.downloadPath, url)])
  }

  /** The state after "Set Path" (main.cpp:84-89); an empty answer from the
      picker means it was cancelled. */
  function AfterSelectPath(st: Session, picked: string): Session {
    if picked == "" then st else st.(downloadPath := picked)
  }

  // ---------------------------------------------------------------------
  // One press of "Download"

  /** The step is rejected exactly when validation fails, and then only the
      error label changes: no command runs and nothing is logged or recorded
      (main.cpp:97-100). */
  lemma RejectedOnlyShowsError(st: Session, url: string, reply: Reply, status: int)
    ensures (DownloadOutcome(st, url, reply, status) == Rejected) == !IsValidUrl(url)
    ensures !IsValidUrl(url) ==> var st' := AfterDownload(st, url, reply, status);
      && st'.errorText == InvalidUrlMessage
      && st'.completedLinks == st.completedLinks && st'.downloadPath == st.downloadPath
      && st'.log == st.log && st'.commands == st.commands
  {
  }

  /** Declining the prompt for a link already downloaded leaves everything
      as it was, and declining is only possible when the prompt is shown
      (main.cpp:102-110). */
  lemma DeclineChangesNothing(st: Session, url: string, status: int)
    ensures (DownloadOutcome(st, url, No, status) == Declined) == Prompted(st, url)
    ensures Prompted(st, url) ==> AfterDownload(st, url, No, status) == st
    ensures DownloadOutcome(st, url, Yes, status) != Declined
  {
  }

  /** Without the prompt, the reply plays no part. */
  lemma ReplyIgnoredWithoutPrompt(st: Session, url: string, status: int)
    requires !Prompted(st, url)
    ensures DownloadOutcome(st, url, Yes, status) == DownloadOutcome(st, url, No, status)
    ensures AfterDownload(st, url, Yes, status) == AfterDownload(st, url, No, status)
  {
  }

  /** A download that goes ahead logs its start, runs one command for the
      current directory and the link, and then logs the end: the completion
      line and an insertion into the ledger on status 0 (main.cpp:120-122),
      the status line and an unchanged ledger otherwise (main.cpp:123-125). */
  lemma DownloadGoesAhead(st: Session, url: string, reply: Reply, status: int)
    requires IsValidUrl(url) && (url !in st.completedLinks || reply == Yes)
    ensures var st' := AfterDownload(st, url, reply, status);
      && st'.commands == st.commands + [Command(st.downloadPath, url)]
      && |st'.log| == |st.log| + 2 && st'.log[..|st.log|] == st.log
      && st'.log[|st.log|] == DownloadingLine(url)
      && st'.downloadPath == st.downloadPath && st'.errorText == st.errorText
      && (status == 0 ==> st'.log[|st.log| + 1] == CompletedLine(url)
                           && st'.completedLinks == st.completedLinks + {url})
      && (status != 0 ==> st'.log[|st.log| + 1] == ErrorLine(status)
                           && st'.completedLinks == st.completedLinks)
  {
    var st' := AfterDownload(st, url, reply, status);
    assert st'.log[..|st.log|] == st.log;
  }

  /** The ledger gains the link exactly on a completed download and nothing
      else; re-downloading a link it already holds leaves it unchanged. */
  lemma LedgerGrowth(st: Session, url: string, reply: Reply, status: int)
    ensures var st' := AfterDownload(st, url, reply, status);
      st'.completedLinks ==
        if DownloadOutcome(st, url, reply, status) == Completed
        then st.completedLinks + {url} else st.completedLinks
    ensures url in st.completedLinks ==>
      AfterDownload(st, url, reply, status).completedLinks == st.completedLinks
  {
  }

  /** The log is only ever appended to, two lines per command run. */
  lemma LogAppendOnly(st: Session, url: string, reply: Reply, status: int)
    ensures var st' := AfterDownload(st, url, reply, status);
      && |st.log| <= |st'.log| && st'.log[..|st.log|] == st.log
      && |st.commands| <= |st'.commands| && st'.commands[..|st.commands|] == st.commands
      && |st'.log| - |st.log| == 2 * (|st'.commands| - |st.commands|)
  {
    var st' := AfterDownload(st, url, reply, status);
    assert st'.log[..|st.log|] == st.log;
    assert st'.commands[..|st.commands|] == st.commands;
  }

  /** Validation before insertion keeps every ledger entry and every command
      a valid URL (main.cpp:97, 122). */
  lemma DownloadKeepsValid(st: Session, url: string, reply: Reply, status: int)
    requires Valid(st)
    ensures Valid(AfterDownload(st, url, reply, status))
  {
    var st' := AfterDownload(st, url, reply, status);
    if |st'.commands| > |st.commands| {
      forall m | 0 <= m < |st'.commands| ensures IsValidUrl(st'.commands[m].url) {
        if m < |st.commands| {
          assert st'.commands[m] == st.commands[m];
        }
      }
    }
  }

  // ---------------------------------------------------------------------
  // "Set Path" and the error label

  /** The path changes exactly when the picker returns a non-empty
      directory, and then to that directory; nothing else changes
      (main.cpp:85-88). */
  lemma SelectPathReplacesOnlyPath(st: Session, picked: string)
    ensures var st' := AfterSelectPath(st, picked);
      && st'.downloadPath == (if picked == "" then st.downloadPath else picked)
      && st'.completedLinks == st.completedLinks && st'.log == st.log
      && st'.commands == st.commands && st'.errorText == st.errorText
  {
  }

  /** Showing and clearing the error touch nothing but the label. */
  lemma ErrorLabelOnly(st: Session, message: string)
    ensures AfterShowError(st, message).errorText == message
    ensures AfterClearError(st).errorText == ""
    ensures AfterShowError(st, message).(errorText := st.errorText) == st
    ensures AfterClearError(st).(errorText := st.errorText) == st
  {
  }

  // ---------------------------------------------------------------------
  // Runs of the widget

  /** What the user does: press "Download" (with what the clipboard holds,
      the reply they would give and the exit status the command would
      return), press "Set Path" (with what the picker returns), or the error
      label's timer fires. */
  datatype Event =
    | PressDownload(url: string, reply: Reply, status: int)
    | PressSetPath(picked: string)
    | TimerFires

  /** One event: a button's slot (main.cpp:58, 63) or the timer's
      `clearError` (main.cpp:130). */
  function Step(st: Session, e: Event): Session {
    match e
    case PressDownload(url, reply, status) => AfterDownload(st, url, reply, status)
    case PressSetPath(picked) => AfterSelectPath(st, picked)
    case TimerFires => AfterClearError(st)
  }

  /** The state after the events, in order. */
  function Run(st: Session, events: seq<Event>): Session
    decreases |events|
  {
    if events == [] then st else Run(Step(st, events[0]), events[1..])
  }

  /** The links downloaded with status 0 somewhere in the events. */
  ghost function Downloaded(events: seq<Event>): set<string> {
    set m, u | 0 <= m < |events| && events[m].PressDownload? && u == events[m].url
      && IsValidUrl(u) && events[m].status == 0 :: u
  }

  lemma DownloadedCons(e: Event, events: seq<Event>)
    ensures Downloaded([e] + events) ==
      Downloaded(events) + (if e.PressDownload? && IsValidUrl(e.url) && e.status == 0 then {e.url} else {})
  {
    var es := [e] + events;
    forall u | u in Downloaded(es)
      ensures u in Downloaded(events) + (if e.PressDownload? && IsValidUrl(e.url) && e.status == 0 then {e.url} else {})
    {
      var m :| 0 <= m < |es| && es[m].PressDownload? && u == es[m].url && IsValidUrl(u) && es[m].status == 0;
      if m > 0 {
        assert es[m] == events[m - 1];
      }
    }
    forall u | u in Downloaded(events) ensures u in Downloaded(es) {
      var m :| 0 <= m < |events| && events[m].PressDownload? && u == events[m].url && IsValidUrl(u) && events[m].status == 0;
      assert es[m + 1] == events[m];
    }
    if e.PressDownload? && IsValidUrl(e.url) && e.status == 0 {
      assert es[0] == e;
      assert e.url in Downloaded(es);
    }
  }

  /** One event adds to the ledger the link of a valid download with status
      0, and nothing otherwise. */
  lemma StepLedger(st: Session, e: Event)
    ensures Step(st, e).completedLinks ==
      st.completedLinks + (if e.PressDownload? && IsValidUrl(e.url) && e.status == 0 then {e.url} else {})
  {
  }

  /** A link is in the ledger after a run exactly when it was there before
      or some press of "Download" with that valid link ended with status 0
      — whether that press completed, or was declined because the link was
      already there. */
  lemma {:induction false} LedgerAfterRun(st: Session, events: seq<Event>)
    ensures Run(st, events).completedLinks == st.completedLinks + Downloaded(events)
    decreases |events|
  {
    if events != [] {
      var e := events[0];
      assert events == [e] + events[1..];
      DownloadedCons(e, events[1..]);
      StepLedger(st, e);
      LedgerAfterRun(Step(st, e), events[1..]);
    }
  }

  /** From a fresh widget, the ledger holds exactly the valid links pressed
      with status 0; it starts empty (main.cpp:36). A declined press of such
      a link counts as well, but that link was already in the ledger. */
  lemma LedgerFromStart(home: string, events: seq<Event>)
    ensures Run(Initial(home), events).completedLinks == Downloaded(events)
  {
    LedgerAfterRun(Initial(home), events);
  }

  /** A run never removes a link from the ledger, keeps the invariant, and
      only appends to the log, two lines per command run. */
  lemma {:induction false} RunMonotone(st: Session, events: seq<Event>)
    requires Valid(st)
    ensures var st' := Run(st, events);
      && Valid(st')
      && st.completedLinks <= st'.completedLinks
      && |st.log| <= |st'.log| && st'.log[..|st.log|] == st.log
      && |st.commands| <= |st'.commands| && st'.commands[..|st.commands|] == st.commands
      && |st'.log| - |st.log| == 2 * (|st'.commands| - |st.commands|)
    decreases |events|
  {
    if events != [] {
      var mid := Step(st, events[0]);
      match events[0] {
        case PressDownload(url, reply, status) =>
          DownloadKeepsValid(st, url, reply, status);
          LogAppendOnly(st, url, reply, status);
          LedgerGrowth(st, url, reply, status);
        case PressSetPath(picked) =>
        case TimerFires =>
      }
      RunMonotone(mid, events[1..]);
      PrefixChain(st.log, mid.log, Run(mid, events[1..]).log);
      PrefixChain(st.commands, mid.commands, Run(mid, events[1..]).commands);
    }
  }

  lemma PrefixChain<T>(a: seq<T>, b: seq<T>, c: seq<T>)
    requires |a| <= |b| && b[..|a|] == a
    requires |b| <= |c| && c[..|b|] == b
    ensures |a| <= |c| && c[..|a|] == a
  {
    assert c[..|a|] == c[..|b|][..|a|];
  }

  /** The download directory after a run: the last non-empty directory the
      picker returned, or the one before the run if there is none. */
  function LastPicked(start: string, events: seq<Event>): string
    decreases |events|
  {
    if events == [] then start
    else
      var e := events[|events| - 1];
      if e.PressSetPath? && e.picked != "" then e.picked
      else LastPicked(start, events[..|events| - 1])
  }

  lemma {:induction false} RunSplit(st: Session, events: seq<Event>)
    requires events != []
    ensures Run(st, events) == Step(Run(st, events[..|events| - 1]), events[|events| - 1])
    decreases |events|
  {
    if |events| > 1 {
      var rest := events[1..];
      RunSplit(Step(st, events[0]), rest);
      assert rest[..|rest| - 1] == events[..|events| - 1][1..];
      assert events[..|events| - 1][0] == events[0];
    } else {
      assert events[..0] == [];
    }
  }

  lemma {:induction false} PathAfterRun(st: Session, events: seq<Event>)
    ensures Run(st, events).downloadPath == LastPicked(st.downloadPath, events)
    decreases |events|
  {
    if events != [] {
      RunSplit(st, events);
      PathAfterRun(st, events[..|events| - 1]);
    }
  }
}
