# yt-dl-frontend: the progress relay and the download options, in Dafny

The application is a small GUI in front of the `youtube_dl` downloader. Its
root widget, `Root` in `main.py`, holds the only logic of its own:

- a **progress relay**. The downloader calls `prog_hook` with progress
  events. A `downloading` event carries a percentage text such as `" 12.3%"`.
  The hook takes the integer part of that text (`int(text.split('.')[0])`)
  and floors it to a multiple of 10. It publishes the result in `progNum`
  only when it exceeds the high-water mark `previousPercentDown`. A
  `finished` event publishes 100 and clears the mark. `start_download`
  resets the relay and disables the download button. `error`, the
  downloader's error logger, shows a truncated message and re-enables the
  button.
- the **download options**: `download` builds the option dictionary
  (`ydl_opts`) from the audio-only choice and the download directory.

The model has three modules:

- `PercentText` (`percent_text.dfy`): the text before the first '.', and
  Python's `int()` on a `str`. For ASCII text, `int()` strips the C whitespace
  characters (space, tab, line feed, carriage return, vertical tab, form
  feed), takes an optional sign, then needs one or more decimal digits. Text that `int()` rejects
  gives `None`, which stands for the `ValueError` it raises (within the limits listed under "## Left out").
- `ProgressRelay` (`progress_relay.dfy`): the relay state as a value
  (`RelayState`) and the class `Root`, whose fields are the ones the handlers
  assign. The handlers' effects are the functions `Hook`, `Started` and
  `ErrorState`. The methods `Root.ProgHook`, `Root.StartDownload` and
  `Root.Error` change the fields step by step, as the source does, and are
  proved to have exactly those effects. They also keep the object invariant
  `Consistent`. `Hook` first reads the event (`Read`: its status and the
  integer part of its text), then runs the state machine `Step`. Traces of
  several events (`Run`, `Published`) are stated over such readings.
  `Published` lists the values `progNum` takes, counting a change only.
- `DownloadOptions` (`download_options.dfy`): `BuildOptions` builds the
  dictionary as a `map` by the same updates, in the same order. The progress
  hook and the logger are the widget's own methods; they appear as the
  markers `Callbacks([ProgHookMarker])` and `RootLogger`.

Python's `//` floors. Dafny's `/` is Euclidean, which is the same floor for
the divisor 10, so `Decile` is `n / 10 * 10` for negative `n` too.

## Model

| member | source | states |
|---|---|---|
| `PercentText.BeforeFirstDotIsSplit` | main.py:108 | `split('.')[0]` gives the prefix of the text that has no '.', and that prefix ends at the first '.' or at the end of the text |
| `PercentText.ParseIntOfDecimal` | main.py:108 | `int()` reads a decimal numeral with leading whitespace as its value |
| `PercentText.ParseIntOfNegative` | main.py:108 | `int()` reads a '-' sign followed by a numeral as the negated value |
| `PercentText.ParseIntRejects` | main.py:108 | a character that is not whitespace, a digit or a sign makes `int()` raise `ValueError` |
| `PercentText.IntegerPartOfPercent` | main.py:108 | the downloader's percentage text (padding, digits, '.', the rest) yields exactly its integer digits |
| `ProgressRelay.Decile` | main.py:108 | `n // 10 * 10` is the multiple of 10 at or just below `n` |
| `ProgressRelay.StepKeepsConsistent` | main.py:106-119 | every hook call keeps `progNum` and the mark multiples of 10, keeps the mark non-negative, and keeps the mark equal to `progNum` except right after a finished event (then 0 and 100) |
| `ProgressRelay.StepBeforeFinish` | main.py:106-114 | an event other than finished, while the mark equals `progNum`, either leaves `progNum` alone or raises it, and the mark follows |
| `ProgressRelay.StartedIsConsistent` | main.py:129-133 | `start_download` leaves a consistent relay with mark and `progNum` both 0, the status "Downloading..." and the button disabled |
| `ProgressRelay.DownloadingEventEffect` | main.py:106-119 | a downloading event never touches the status line. It changes `progNum` or the mark exactly when the decile of the integer part exceeds the mark, and then sets both to that decile. The button ends disabled exactly when the decile rose or `int()` raised, and `int()` raises exactly on an unreadable text |
| `ProgressRelay.FinishedEventEffect` | main.py:115-119 | a finished event sets the status to "Finished...", `progNum` to 100 and the mark to 0, and re-enables the button, from any state |
| `ProgressRelay.StepStatusLine` | main.py:106-119 | only a finished event changes the status line, and it sets it to "Finished..." |
| `ProgressRelay.ProgressNeverDecreases` | main.py:106-114 | between a reset and a finished event, the published values rise strictly and are multiples of 10 above the starting value; the final `progNum` is not below the start |
| `ProgressRelay.EventsNeverLowerProgress` | main.py:96-114 | the same for a sequence of progress events as the downloader reports them: values rise strictly, are multiples of 10 above the start, and the final state is consistent with the mark equal to `progNum` |
| `ProgressRelay.RisingTrace` | main.py:106-133 | after a start, readings of 5, 12 and 27 percent and then a finished event publish exactly 10, 20, 100 |
| `ProgressRelay.SamplePercents` | main.py:108 | the texts "  5.0%", " 12.0%", " 27.0%" are read as 5, 12 and 27 |
| `ProgressRelay.Truncate` | main.py:93 | `msg[:100]` is a prefix of the message, of length 100 or the whole message when shorter |
| `ProgressRelay.ErrorState` | main.py:93-94 | `error` sets the status to "Oops something went wrong..." followed by exactly the first 100 characters of a long message, or all of a short one, re-enables the button and leaves `progNum` and the mark alone |
| `ProgressRelay.Root.constructor` | main.py:48-50 | a new widget shows "Waiting for URL", with `progNum` 0 and the button enabled |
| `ProgressRelay.Root.ProgHook` | main.py:96-119 | the field updates, early return included, have exactly the effect `Hook` gives, and the invariant is kept |
| `ProgressRelay.Root.StartDownload` | main.py:121-134 | the reset of status, mark, `progNum` and button before the worker starts, and the (url, audio-only) job handed to it |
| `ProgressRelay.Root.Error` | main.py:86-94 | the fields after `error(msg)` are those `ErrorState` gives, and the invariant is kept |
| `DownloadOptions.OutputTemplate` | main.py:65-75 | the output template puts the file in the download directory (the text before the last '/') under the name template: `%(title)s.mp3` for audio only, `%(title)s.%(ext)s` otherwise; with no directory it is the bare name template |
| `DownloadOptions.BuildOptions` | main.py:62-75 | the keys are exactly logger, progress_hooks, outtmpl, ignoreerrors and updatetime, plus format and audioformat for audio only. `ignoreerrors` is True and `updatetime` False. Audio only selects `bestaudio/best` and `mp3`. `outtmpl` is the output template |

## Left out

- The Kivy widget tree, the property binding of `downStatus` and `progNum`, the `ids` lookups, the `.kv` layout and the App class: UI toolkit plumbing. The button is the boolean field `downButtonDisabled`; the URL text and the audio-only checkbox are the parameters of `StartDownload`.
- `threading.Thread(...).start()` and the `@mainthread` decorator: the handlers are modelled as sequential calls. Interleavings, such as a second press before the button is re-enabled, are not modelled.
- `youtube_dl.YoutubeDL(ydl_opts).download([url])`: a foreign library doing network and file I/O. The model ends at the options map `BuildOptions` returns.
- Platform detection and the `os.mkdir` of the download directory when the class is defined: OS- and filesystem-dependent. The directory is the parameter `downPath`, and "if self._down_path" is read as "not empty".
- The `print` calls and the empty `debug` and `warning` loggers: output only.
- `ParseInt` does not accept everything Python's `int()` accepts. Underscores between digits (Python 3.6 and later), non-ASCII digits and non-ASCII whitespace are all rejected by the model. U+001C..U+001F are rejected in all text, as `int()` does.
- `ParseInt`, `ParseIntOfDecimal`, `ParseIntOfNegative`, `IntegerPartOfPercent`: no limit on the number of digits. CPython raises `ValueError` past 4300 digits by default (`sys.get_int_max_str_digits()`, in 3.11 and later and in the 3.7 to 3.10 security releases). The downloader's percentage text never comes near that length.
- `Root.ProgHook`: the `ValueError` of an unreadable percentage text is returned as `raised` rather than propagated. The state it leaves (button disabled, nothing else changed) is the state at the point where Python raises.
- `Root.constructor`: in the source, `previousPercentDown` is first assigned by `start_download` and `percentDown` by the first readable downloading event. Before any start, a downloading event with a readable percentage would raise `AttributeError`, because it reads `previousPercentDown` (main.py:109). A finished event assigns that field, and other events touch neither field. The model gives both fields the value 0 from the start.
- Certificate verification: this `main.py` puts no certificate-check key in the options, so the model has none.
