/** `VideoDownloaderApp` (main.cpp:18-37) without its widgets: the fields the
    slots update in place, and the slots as methods. Each method is tied to
    the function in `Downloads` that gives its new state, so what is proved
    there about the rules holds of the object. */
module App {
  import opened UrlValidator
  import opened Downloads

  class VideoDownloaderApp {
    var completedLinks: set<string>
    var downloadPath: string
    var log: seq<string>
    var commands: seq<Command>
    var errorText: string

    /** The object's fields as one value. */
    function State(): Session
      reads this
    {
      Session(completedLinks, downloadPath, log, commands, errorText)
    }

    /** Only validated links are in the ledger or have been handed to the
        shell. */
    predicate Valid()
      reads this
    {
      Downloads.Valid(State())
    }

    /** The constructor (main.cpp:39-73) with the layout left out: the path
        starts at the home directory and everything else is empty. */
    constructor (home: string)
      ensures State() == Initial(home)
      ensures Valid()
    {
      completedLinks := {};
      downloadPath := home;
      log := [];
      commands := [];
      errorText := "";
    }

    /** `selectDownloadPath` (main.cpp:84-89), with the picker's answer as
        input. */
    method SelectDownloadPath(picked: string)
      requires Valid()
      modifies this
      ensures State() == AfterSelectPath(old(State()), picked)
      ensures Valid()
    {
      if picked != "" {
        downloadPath := picked;
      }
    }

    /** `showError` (main.cpp:128-131); the timer it starts is not part of
        this model. */
    method ShowError(message: string)
      requires Valid()
      modifies this
      ensures State() == AfterShowError(old(State()), message)
      ensures Valid()
    {
      errorText := message;
    }

    /** `clearError` (main.cpp:133-135). */
    method ClearError()
      requires Valid()
      modifies this
      ensures State() == AfterClearError(old(State()))
      ensures Valid()
    {
      errorText := "";
    }

    /** `downloadVideo` (main.cpp:91-126). The clipboard text, the answer the
        user would give at the duplicate prompt and the exit status of the
        command are inputs; `prompted` says whether the prompt was shown and
        `outcome` how the press ended. */
    method DownloadVideo(clipboard: string, reply: Reply, exitStatus: int)
      returns (prompted: bool, outcome: Outcome)
      requires Valid()
      modifies this
      ensures prompted == Prompted(old(State()), clipboard)
      ensures outcome == DownloadOutcome(old(State()), clipboard, reply, exitStatus)
      ensures State() == AfterDownload(old(State()), clipboard, reply, exitStatus)
      ensures Valid()
    {
      ghost var before := State();
      DownloadKeepsValid(before, clipboard, reply, exitStatus);
      var url := clipboard;
      prompted := false;
      if !IsValidUrl(url) {
        ShowError(InvalidUrlMessage);
        outcome := Rejected;
        return;
      }
      if url in completedLinks {
        prompted := true;
        if reply == No {
          outcome := Declined;
          return;
        }
      }
      log := log + [DownloadingLine(clipboard)];
      commands := commands + [Command(downloadPath, clipboard)];
      var result := exitStatus;
      if result == 0 {
        log := log + [CompletedLine(clipboard)];
        completedLinks := completedLinks + {url};
        outcome := Completed;
      } else {
        log := log + [ErrorLine(result)];
        outcome := Failed(result);
      }
      assert log == before.log + [DownloadingLine(url), log[|log| - 1]];
    }
  }

  /** A session on the object: a valid link is downloaded, pressed again and
      declined, then pressed again and accepted, with the command failing the
      second time. */
  method DownloadTwice(home: string, url: string) returns (app: VideoDownloaderApp)
    requires IsValidUrl(url)
    ensures app.completedLinks == {url} && app.downloadPath == home
    ensures app.log == [DownloadingLine(url), CompletedLine(url),
                        DownloadingLine(url), ErrorLine(1)]
    ensures app.commands == [Command(home, url), Command(home, url)]
  {
    app := new VideoDownloaderApp(home);
    var prompted, outcome := app.DownloadVideo(url, No, 0);
    assert !prompted && outcome == Completed;
    prompted, outcome := app.DownloadVideo(url, No, 0);
    assert prompted && outcome == Declined;
    prompted, outcome := app.DownloadVideo(url, Yes, 1);
    assert prompted && outcome == Failed(1);
  }
}
