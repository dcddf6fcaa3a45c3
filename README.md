# Clipboard video downloader: a verified model

The program is one Qt widget, `VideoDownloaderApp`. When "Download" is
pressed, it reads a link from the clipboard and checks it against a
case-insensitive regular expression. If the link has been downloaded before,
it asks whether to download it again. It then logs the attempt, runs `yt-dlp`
into the chosen directory, and logs how the run ended. Every link that
downloads with exit status 0 goes into a ledger. "Set Path" changes the
download directory, and an error is shown in a label that a timer clears.

This project models two parts of that widget and proves what they promise:

- **The URL validator `isValidUrl`.**
  - `UrlGrammar` states the language of the regular expression as
    predicates: scheme, host alternatives, optional port, path/query tail.
  - `UrlValidator` is a deterministic checker proved to accept exactly this
    language.
  - `UrlCase` proves that the checker ignores ASCII letter case.
  - `UrlProperties` proves what follows for callers: a scheme is needed, and
    whitespace is refused. It also proves the verdict on particular links.
  - `Text` holds the characters, the case folding and the searches these
    modules use.
- **The download step.**
  - `Downloads` gives the rules of `downloadVideo`, `selectDownloadPath`,
    `showError` and `clearError` as functions on the widget's state. It proves
    what one step does and what any run of steps keeps.
  - `App` has the class `VideoDownloaderApp`. Its fields are the ledger, the
    directory, the log, the commands run and the error text. It has one
    method per slot, and each method's new state is tied to the matching
    function in `Downloads`.
  - `Decimal` models `QString::number`, which renders the exit status.

Two facts about the code that a reader of the expression might not expect:

- **Final domain label.** The final label need not be alphabetic. The branch
  `[A-Z0-9-]{2,}\.?` (main.cpp:78) accepts any run of two or more letters,
  digits or hyphens, and so covers everything the `[A-Z]{2,6}\.?` branch
  accepts. `UrlGrammar.TopLabelIsRunTop` proves this, and
  `UrlProperties.AcceptsNumericFinalLabel` shows `http://example.123` being
  accepted.
- **Error timer.** A new error does not cancel an earlier pending clear. Each
  `QTimer::singleShot` (main.cpp:130) is independent, so an earlier timer can
  clear a later message before its own three seconds are up. The model's
  `TimerFires` event may therefore come at any point of a run.

## Model

| member | source | states |
|---|---|---|
| UrlValidator.IsValidUrl | main.cpp:75-82 | The model of `isValidUrl`: scheme, then host and port up to the first `/` or `?`, then the tail. Specified by IsValidUrlCorrect, CaseInsensitive, SchemeRequired and ValidUrlHasNoSpace. |
| UrlGrammar.InUrlLanguage | main.cpp:76-81 | The whole-string language of the expression: some split of the string satisfies IsUrlSplit. IsValidUrlCorrect ties the checker to it. |
| UrlGrammar.IsUrlSplit | main.cpp:76-80 | The string is a scheme, a host, a port and a tail in that order, covering it completely. |
| UrlGrammar.IsScheme | main.cpp:77 | `http` or `ftp`, an optional `s`, then `://`, in any letter case. Used by SchemeLength and SchemeLengthExact. |
| UrlGrammar.IsLabel | main.cpp:78 | 1 to 63 letters, digits or hyphens, starting and ending with a letter or digit. |
| UrlGrammar.IsTopLabel | main.cpp:78 | Either final-label branch, with an optional trailing dot. TopLabelIsRunTop specifies it. |
| UrlGrammar.IsDomain | main.cpp:78 | One or more labels, each followed by a dot, then a final label. DomainExecCorrect specifies it. |
| UrlGrammar.IsLocalhost | main.cpp:79 | `localhost` in any letter case. |
| UrlGrammar.IsIPv4 | main.cpp:79 | Four dot-separated groups of 1-3 digits. IPv4ExecCorrect specifies it. |
| UrlGrammar.IsIPv6 | main.cpp:79 | The hex-and-colon core, with each bracket optional on its own. IPv6ExecCorrect specifies it. |
| UrlGrammar.IsHost | main.cpp:78-79 | One of the four host alternatives. HostExecCorrect and HostAlphabet specify it. |
| UrlGrammar.IsPort | main.cpp:80 | Empty, or `:` followed by one or more digits. |
| UrlGrammar.IsTail | main.cpp:80 | Empty, a single `/`, or `/` or `?` followed by one or more non-whitespace characters. |
| UrlProperties.DomainOfLabels | main.cpp:78 | A label, a dot and a final label form a host. |
| UrlValidator.IsValidUrlCorrect | main.cpp:75-82 | The checker accepts a string exactly when it is in the language. The string must split into scheme, host, optional port and tail, with nothing left over, as `regex_match` demands. |
| UrlValidator.SchemeLength | main.cpp:77 | A non-zero length marks a prefix that is one of `http://`, `https://`, `ftp://`, `ftps://` in any case. |
| UrlValidator.SchemeLengthExact | main.cpp:77 | Whenever a prefix of length i is a scheme, SchemeLength finds exactly that i. |
| UrlValidator.DomainExecCorrect | main.cpp:78 | The domain check holds exactly for one or more dot-terminated labels followed by a final label. |
| UrlGrammar.TopLabelIsRunTop | main.cpp:78 | A final label is accepted exactly when it is two or more letters, digits or hyphens with an optional dot. The `[A-Z]{2,6}` branch adds nothing. |
| UrlValidator.IPv4ExecCorrect | main.cpp:79 | The IPv4 check holds exactly for four dot-separated groups of 1-3 digits, with no range check. |
| UrlValidator.IPv6CoreExecCorrect | main.cpp:79 | The IPv6 core check holds exactly for hex digits, a colon, then at least one hex digit or colon. |
| UrlValidator.IPv6ExecCorrect | main.cpp:79 | The IPv6 check holds exactly for a core with an optional `[` before it and an independently optional `]` after it. |
| UrlValidator.HostExecCorrect | main.cpp:78-79 | The host check holds exactly for a domain, `localhost`, an IPv4 shape or an IPv6 shape. |
| UrlValidator.HostPortExecCorrect | main.cpp:78-80 | Splitting at the last colon decides exactly whether host and port form a host followed by an optional `:digits`. |
| UrlValidator.PortAtLastColon | main.cpp:80 | A non-empty port starts at the last colon of host and port. |
| UrlValidator.IsValidUrlSound | main.cpp:75-82 | Every string the checker accepts is in the language. |
| UrlValidator.IsValidUrlComplete | main.cpp:75-82 | Every string in the language is accepted. |
| UrlGrammar.HostAlphabet | main.cpp:78-79 | A host contains only letters, digits, `-`, `.`, `:`, `[` and `]`, so neither `/` nor `?`. |
| UrlCase.CaseInsensitive | main.cpp:80 | Two strings that agree after ASCII lower-casing get the same verdict. |
| UrlCase.IsValidUrlLower | main.cpp:80 | A string and its lower-case form get the same verdict. |
| UrlCase.DomainExecLower | main.cpp:78 | The domain check ignores letter case. |
| UrlCase.IPv6ExecLower | main.cpp:79 | The IPv6 check ignores letter case, hex letters included. |
| UrlProperties.ValidUrlHasScheme | main.cpp:76-77 | Every accepted string starts with one of the four schemes, case aside. |
| UrlProperties.SchemeRequired | main.cpp:76-81 | A string without a scheme in front is rejected, and so is the empty string. |
| UrlProperties.ValidUrlHasNoSpace | main.cpp:80 | An accepted string contains no space, tab, newline, vertical tab, form feed or carriage return. |
| UrlProperties.WhitespaceRejected | main.cpp:80 | A string with whitespace anywhere is rejected. |
| UrlProperties.UrlOfParts | main.cpp:76-80 | Any scheme, host, port and tail written one after the other form an accepted string. |
| UrlProperties.AcceptsVideoLink | main.cpp:75-82 | `https://example.com/video?id=1` is accepted. |
| UrlProperties.AcceptsUpperCase | main.cpp:80 | `HTTPS://EXAMPLE.COM/video?id=1` is accepted. |
| UrlProperties.AcceptsLocalhostWithPort | main.cpp:79-80 | `ftp://localhost:21/` is accepted. |
| UrlProperties.AcceptsOutOfRangeIPv4 | main.cpp:79 | `http://999.999.999.999` is accepted. |
| UrlProperties.AcceptsNumericFinalLabel | main.cpp:78 | `http://example.123` is accepted. |
| UrlProperties.AcceptsUnbalancedBrackets | main.cpp:79 | `http://[::1` and `http://::1]` are accepted. |
| UrlProperties.RejectsPlainText | main.cpp:75-82 | `not a url` is rejected. |
| UrlProperties.RejectsInnerSpace | main.cpp:80 | `https://example.com/my video` is rejected. |
| Decimal.DigitsOf | main.cpp:124 | The status's digits are non-empty, all decimal, and have no leading zero. |
| Decimal.NumberString | main.cpp:124 | The numeral starts with `-` exactly for a negative status, followed by the digits of its magnitude. |
| Decimal.DigitsRoundTrip | main.cpp:124 | Reading back the digits of n gives n. |
| Decimal.NumberRoundTrip | main.cpp:124 | Parsing the rendered status gives the status back. |
| Decimal.NumberStringInjective | main.cpp:124 | Different statuses produce different log text. |
| Downloads.Prompted | main.cpp:102-106 | The duplicate prompt appears for a valid link already in the ledger. Specified by DeclineChangesNothing and ReplyIgnoredWithoutPrompt. |
| Downloads.DownloadOutcome | main.cpp:97-125 | How a press ends: rejected, declined, completed, or failed with the status. Specified by RejectedOnlyShowsError, DeclineChangesNothing and LedgerGrowth. |
| Downloads.AfterDownload | main.cpp:91-126 | The state after a press. Specified by RejectedOnlyShowsError, DeclineChangesNothing, DownloadGoesAhead, LedgerGrowth, LogAppendOnly and DownloadKeepsValid. |
| Downloads.AfterSelectPath | main.cpp:84-89 | The state after "Set Path". Specified by SelectPathReplacesOnlyPath and PathAfterRun. |
| Downloads.AfterShowError | main.cpp:128-131 | The state after `showError`. Specified by ErrorLabelOnly. |
| Downloads.AfterClearError | main.cpp:133-135 | The state after `clearError`. Specified by ErrorLabelOnly. |
| Downloads.InvalidUrlMessage | main.cpp:98 | The text `showError` shows for a rejected clipboard. Used by AfterDownload and RejectedOnlyShowsError. |
| Downloads.DownloadingLine | main.cpp:112 | The log line `Downloading: url` and a newline. Used by AfterDownload, DownloadGoesAhead and DownloadTwice. |
| Downloads.CompletedLine | main.cpp:121 | The log line `Download completed: url` and a newline. Used by AfterDownload, DownloadGoesAhead and DownloadTwice. |
| Downloads.ErrorLine | main.cpp:124 | The log line `Error downloading: ` with the status rendered by NumberString, and a newline. Used by AfterDownload, DownloadGoesAhead and ErrorLineExamples. |
| Downloads.Initial | main.cpp:36-68 | A new widget has an empty ledger, log and command list, no error, and the home directory as its path: the ledger and path fields at main.cpp:36 and 43, the empty label at main.cpp:68. |
| Downloads.RejectedOnlyShowsError | main.cpp:97-100 | A press is rejected exactly when validation fails. Then only the error text changes, to the fixed message: no command, no log line, no ledger change, same path. |
| Downloads.DeclineChangesNothing | main.cpp:102-110 | Answering No declines exactly when the prompt is shown, that is, for a valid link already in the ledger. Declining leaves the whole state as it was, and Yes never declines. |
| Downloads.ReplyIgnoredWithoutPrompt | main.cpp:102-110 | When no prompt is shown, both replies give the same outcome and the same state. |
| Downloads.DownloadGoesAhead | main.cpp:112-125 | A download that goes ahead runs one command for the current path and the link, and logs `Downloading: url`. On status 0 it then logs `Download completed: url` and inserts the link. On any other status it logs `Error downloading: status` and leaves the ledger unchanged. |
| Downloads.LedgerGrowth | main.cpp:120-122 | The ledger gains the link exactly on a completed download. A link already there stays the only copy. |
| Downloads.LogAppendOnly | main.cpp:112-124 | The log and the command list are only extended, with two log lines per command. |
| Downloads.DownloadKeepsValid | main.cpp:97-122 | Every link in the ledger or in a command stays a valid URL. |
| Downloads.ErrorLineExamples | main.cpp:124 | ErrorLine renders statuses 256, -1 and 0 as `256`, `-1` and `0`. Status 0 never reaches main.cpp:124, because `result == 0` takes the completion branch at main.cpp:120-121. |
| Downloads.SelectPathReplacesOnlyPath | main.cpp:84-89 | The path becomes the picked directory exactly when that is non-empty. Nothing else changes. |
| Downloads.ErrorLabelOnly | main.cpp:128-135 | Showing an error sets the label to it, and clearing empties the label. Neither touches anything else. |
| Downloads.Event | main.cpp:58-63 | One thing that can happen to the widget: a press of "Download" or "Set Path" (the two buttons' slots), or the firing of the error label's timer (main.cpp:130). |
| Downloads.Step | main.cpp:58-63 | One event applied to the state: a "Download" press is AfterDownload, a "Set Path" press is AfterSelectPath, and the timer firing (main.cpp:130) is AfterClearError. Used by StepLedger, RunMonotone and PathAfterRun. |
| Downloads.Run | main.cpp:58-63 | A sequence of events applied one after the other, in order. Used by LedgerAfterRun, LedgerFromStart, RunMonotone and PathAfterRun. |
| Downloads.StepLedger | main.cpp:120-122 | One event adds to the ledger only the link of a valid download with status 0. |
| Downloads.LedgerAfterRun | main.cpp:97-122 | After any run, the ledger is the earlier ledger plus exactly the valid links downloaded with status 0. |
| Downloads.LedgerFromStart | main.cpp:36 | From a new widget, the ledger holds exactly the valid links pressed with status 0. A press of such a link that was declined counts too, but the link was already in the ledger then. |
| Downloads.RunMonotone | main.cpp:97-125 | A run keeps every entry valid and never removes from the ledger. It only appends to the log and the command list, two log lines per command. |
| Downloads.PathAfterRun | main.cpp:84-89 | After a run, the path is the last non-empty picker answer, or the earlier path if there was none. |
| App.VideoDownloaderApp.constructor | main.cpp:39-73 | The new object's state is the initial one for the home directory. |
| App.VideoDownloaderApp.SelectDownloadPath | main.cpp:84-89 | The object's new state is AfterSelectPath of its old state, and the invariant still holds. |
| App.VideoDownloaderApp.ShowError | main.cpp:128-131 | Only the error text changes, to the message, and the invariant still holds. |
| App.VideoDownloaderApp.ClearError | main.cpp:133-135 | Only the error text changes, to empty, and the invariant still holds. |
| App.VideoDownloaderApp.DownloadVideo | main.cpp:91-126 | `prompted` says whether the duplicate prompt was shown, and `outcome` says how the press ended. The new state is AfterDownload of the old one, and the invariant still holds. |
| App.DownloadTwice | main.cpp:91-126 | On the object: a download completes, a repeat is declined, and a confirmed repeat fails with status 1. This leaves one ledger entry, four log lines and two commands. |

## Left out

- The widget construction, the layouts and `main` with its event loop (main.cpp:39-73, 137-144) are not modelled. They are user-interface plumbing.
- The clipboard, the directory picker and the duplicate prompt are plain inputs: the clipboard text, the picked directory, and a `Yes`/`No` reply. The reply is ignored unless the prompt would be shown.
- `std::system` and `yt-dlp` do not run in the model. The exit status is an arbitrary integer input, and the command is recorded as the pair (directory, link). The command text built with `QString::arg`, its placeholder rescanning and its shell quoting are not modelled.
- The 3-second timer of `showError` is not modelled. The label's clear is a separate `TimerFires` event that can happen at any point, which also covers an earlier timer clearing a later message.
- The conversion from `QString` to `std::string` (UTF-8) is not modelled. The link is one string of characters, used alike for validation, the ledger and the log, and only ASCII letters fold under `icase`.
- `QTextEdit::append` is modelled as adding one entry to a sequence of log lines. Paragraph formatting is not modelled.
- The exit status is an unbounded integer, while `std::system` returns a 32-bit `int`. The width is not modelled, because no rule depends on it.
- Any limit of `std::regex` on backtracking depth or on input length is not modelled. The model is plain language membership.
