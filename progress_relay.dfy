/**
 * The progress relay of the root widget: the high-water mark
 * `previousPercentDown`, the last decile read `percentDown`, the published
 * percentage `progNum`, the status line `downStatus` and the download
 * button's `disabled` flag, as `prog_hook`, `start_download` and `error`
 * update them.
 *
 * The pure functions `Hook`, `Started` and `ErrorState` give each handler's
 * effect on a `RelayState`; the class `Root` holds the same fields and its
 * methods are proved to have exactly those effects.
 */
module ProgressRelay {
  import opened PercentText

  /** The `status` values of the downloader's progress events that the hook tests for. */
  const DownloadingEvent: string := "downloading"
  const FinishedEvent: string := "finished"

  /** The status lines the widget shows. */
  const WaitingText: string := "Waiting for URL"
  const DownloadingText: string := "Downloading..."
  const FinishedText: string := "Finished..."
  const ErrorText: string := "Oops something went wrong..."

  /** How many characters of an error message the status line keeps. */
  const MessageLimit: nat := 100

  /** One progress event: its `status` and its `_percent_str`. */
  datatype ProgressEvent = ProgressEvent(status: string, percentStr: string)

  datatype RelayState = RelayState(
    previousPercentDown: int,
    percentDown: int,
    progNum: int,
    downStatus: string,
    buttonDisabled: bool)

  /** The state after a call of the hook, and whether `int()` raised `ValueError` in it. */
  datatype HookResult = HookResult(state: RelayState, raised: bool)

  /** What `start_download` hands to the worker thread. */
  datatype DownloadJob = DownloadJob(url: string, audioOnly: bool)

  /**
   * `n // 10 * 10`. Python's `//` floors; Dafny's `/` is Euclidean, which
   * for the positive divisor 10 is the same floor, negative `n` included.
   */
  function Decile(n: int): (r: int)
    ensures r % 10 == 0 && r <= n < r + 10
  {
    n / 10 * 10
  }

  /** The published values are multiples of 10, the high-water mark is never negative, and
      the mark equals the published value except right after a finished event. */
  predicate Consistent(s: RelayState) {
    && s.progNum % 10 == 0
    && s.percentDown % 10 == 0
    && s.previousPercentDown % 10 == 0
    && 0 <= s.previousPercentDown
    && (s.previousPercentDown == s.progNum || (s.previousPercentDown == 0 && s.progNum == 100))
  }

  /**
   * What the hook reads from an event: its status and the integer part of
   * its percentage, `None` where `int()` raises. The hook only looks at the
   * integer part of a downloading event.
   */
  datatype Reading = Reading(status: string, integerPart: Option<int>)

  function Read(e: ProgressEvent): Reading
  {
    Reading(e.status, IntegerPart(e.percentStr))
  }

  /** The effect of `prog_hook(d)`. */
  function Hook(s: RelayState, e: ProgressEvent): HookResult
  {
    Step(s, Read(e))
  }

  /** The hook's state machine, given what it reads from the event. */
  function Step(s: RelayState, r: Reading): HookResult
  {
    if r.status == DownloadingEvent then
      var disabled := s.(buttonDisabled := true);
      match r.integerPart
      case None => HookResult(disabled, true)
      case Some(n) =>
        var d := Decile(n);
        if d > s.previousPercentDown then
          HookResult(disabled.(percentDown := d, progNum := d, previousPercentDown := d), false)
        else
          HookResult(disabled.(percentDown := d, buttonDisabled := false), false)
    else if r.status == FinishedEvent then
      HookResult(s.(downStatus := FinishedText, previousPercentDown := 0, progNum := 100, buttonDisabled := false), false)
    else
      HookResult(s.(buttonDisabled := false), false)
  }

  /** The effect of `start_download` on the relay. */
  function Started(s: RelayState): RelayState
  {
    s.(downStatus := DownloadingText, previousPercentDown := 0, progNum := 0, buttonDisabled := true)
  }

  /** `msg[:limit]`: the first `limit` characters, or all of a shorter `msg`. */
  function Truncate(msg: string, limit: nat): (r: string)
    ensures r <= msg
    ensures |r| == if |msg| < limit then |msg| else limit
  {
    if |msg| <= limit then msg else msg[..limit]
  }

  /** The effect of `error(msg)`. */
  function ErrorState(s: RelayState, msg: string): (r: RelayState)
    ensures |ErrorText| <= |r.downStatus| <= |ErrorText| + MessageLimit
    ensures r.downStatus[..|ErrorText|] == ErrorText
    ensures r.downStatus[|ErrorText|..] <= msg
    ensures |msg| <= MessageLimit ==> r.downStatus == ErrorText + msg
    ensures |msg| > MessageLimit ==> r.downStatus == ErrorText + msg[..MessageLimit]
    ensures !r.buttonDisabled
    ensures r.progNum == s.progNum && r.previousPercentDown == s.previousPercentDown
  {
    s.(downStatus := ErrorText + Truncate(msg, MessageLimit), buttonDisabled := false)
  }

  lemma StepKeepsConsistent(s: RelayState, r: Reading)
    requires Consistent(s)
    ensures Consistent(Step(s, r).state)
  {
  }

  /** One event that is not a finished event, seen while the mark equals the published value. */
  lemma StepBeforeFinish(s: RelayState, r: Reading)
    requires Consistent(s) && s.previousPercentDown == s.progNum
    requires r.status != FinishedEvent
    ensures var t := Step(s, r).state;
      && Consistent(t) && t.previousPercentDown == t.progNum
      && (t.progNum == s.progNum || s.progNum < t.progNum)
  {
    StepKeepsConsistent(s, r);
  }

  /** `start_download` leaves a consistent relay, reset to 0 and waiting for the download. */
  lemma StartedIsConsistent(s: RelayState)
    requires Consistent(s)
    ensures Consistent(Started(s))
    ensures Started(s).progNum == 0 && Started(s).previousPercentDown == 0
    ensures Started(s).downStatus == DownloadingText && Started(s).buttonDisabled
  {
  }

  /**
   * A downloading event leaves the status line alone; it raises the mark and
   * the published value together exactly when the decile of its integer part
   * is above the mark, and that decile is what is published; the button stays
   * disabled exactly when the decile rose or the text was not a number.
   */
  lemma DownloadingEventEffect(s: RelayState, e: ProgressEvent)
    requires e.status == DownloadingEvent
    ensures var r := Hook(s, e);
      && r.state.downStatus == s.downStatus
      && (r.raised <==> IntegerPart(e.percentStr).None?)
      && ((r.state.progNum, r.state.previousPercentDown) != (s.progNum, s.previousPercentDown)
          <==> IntegerPart(e.percentStr).Some? && Decile(IntegerPart(e.percentStr).value) > s.previousPercentDown)
      && (IntegerPart(e.percentStr).Some? && Decile(IntegerPart(e.percentStr).value) > s.previousPercentDown
          ==> r.state.progNum == r.state.previousPercentDown == Decile(IntegerPart(e.percentStr).value))
      && (r.state.buttonDisabled <==> r.raised || r.state.previousPercentDown != s.previousPercentDown)
  {
  }

  /** A finished event publishes 100, clears the mark and re-enables the button, whatever came before. */
  lemma FinishedEventEffect(s: RelayState, e: ProgressEvent)
    requires e.status == FinishedEvent
    ensures var r := Hook(s, e);
      && !r.raised && r.state.downStatus == FinishedText
      && r.state.progNum == 100 && r.state.previousPercentDown == 0 && !r.state.buttonDisabled
  {
  }

  /** Only a finished event changes the status line. */
  lemma StepStatusLine(s: RelayState, r: Reading)
    ensures Step(s, r).state.downStatus != s.downStatus ==> r.status == FinishedEvent
    ensures r.status == FinishedEvent ==> Step(s, r).state.downStatus == FinishedText
  {
  }

  /** What the hook reads from each of `events`, in order. */
  function Readings(events: seq<ProgressEvent>): (rs: seq<Reading>)
    ensures |rs| == |events|
    ensures forall i :: 0 <= i < |events| ==> rs[i] == Read(events[i])
  {
    if events == [] then [] else [Read(events[0])] + Readings(events[1..])
  }

  /** The state after the hook has read `rs` in order. */
  function Run(s: RelayState, rs: seq<Reading>): RelayState
    decreases |rs|
  {
    if rs == [] then s else Run(Step(s, rs[0]).state, rs[1..])
  }

  /** The successive values `progNum` takes while the hook reads `rs` (a repeated value is not a change). */
  function Published(s: RelayState, rs: seq<Reading>): seq<int>
    decreases |rs|
  {
    if rs == [] then []
    else
      var t := Step(s, rs[0]).state;
      (if t.progNum != s.progNum then [t.progNum] else []) + Published(t, rs[1..])
  }

  predicate NoFinished(rs: seq<Reading>) {
    forall i :: 0 <= i < |rs| ==> rs[i].status != FinishedEvent
  }

  predicate StrictlyIncreasing(p: seq<int>) {
    forall i, j :: 0 <= i < j < |p| ==> p[i] < p[j]
  }

  /**
   * Between a reset and a finished event the published percentage only
   * grows: every value published is a multiple of 10 above the one before.
   */
  lemma {:induction false} ProgressNeverDecreases(s: RelayState, rs: seq<Reading>)
    requires Consistent(s) && s.previousPercentDown == s.progNum
    requires NoFinished(rs)
    ensures var t := Run(s, rs);
      Consistent(t) && t.previousPercentDown == t.progNum && s.progNum <= t.progNum
    ensures StrictlyIncreasing(Published(s, rs))
    ensures forall i :: 0 <= i < |Published(s, rs)| ==>
      s.progNum < Published(s, rs)[i] && Published(s, rs)[i] % 10 == 0
    decreases |rs|
  {
    if rs != [] {
      var t := Step(s, rs[0]).state;
      assert rs[0].status != FinishedEvent;
      StepBeforeFinish(s, rs[0]);
      assert NoFinished(rs[1..]) by {
        forall i | 0 <= i < |rs[1..]| ensures rs[1..][i].status != FinishedEvent {
          assert rs[1..][i] == rs[i + 1];
        }
      }
      ProgressNeverDecreases(t, rs[1..]);
    }
  }

  /** The same, stated of the events the downloader reports. */
  lemma EventsNeverLowerProgress(s: RelayState, events: seq<ProgressEvent>)
    requires Consistent(s) && s.previousPercentDown == s.progNum
    requires forall i :: 0 <= i < |events| ==> events[i].status != FinishedEvent
    ensures var t := Run(s, Readings(events));
      Consistent(t) && t.previousPercentDown == t.progNum && s.progNum <= t.progNum
    ensures StrictlyIncreasing(Published(s, Readings(events)))
    ensures forall i :: 0 <= i < |Published(s, Readings(events))| ==>
      s.progNum < Published(s, Readings(events))[i] && Published(s, Readings(events))[i] % 10 == 0
  {
    var rs := Readings(events);
    forall i | 0 <= i < |rs| ensures rs[i].status != FinishedEvent {
      assert rs[i].status == events[i].status;
    }
    ProgressNeverDecreases(s, rs);
  }

  /**
   * Readings of 5, 12 and 27 percent, then a finished event, publish 10, 20
   * and 100 after a start: the 5 is floored to 0, which is not above the
   * mark.
   */
  lemma RisingTrace(s: RelayState)
    ensures Published(Started(s), [
      Reading(DownloadingEvent, Some(5)),
      Reading(DownloadingEvent, Some(12)),
      Reading(DownloadingEvent, Some(27)),
      Reading(FinishedEvent, None)]) == [10, 20, 100]
  {
    var r5, r12, r27, fin := Reading(DownloadingEvent, Some(5)), Reading(DownloadingEvent, Some(12)),
      Reading(DownloadingEvent, Some(27)), Reading(FinishedEvent, None);
    assert Decile(5) == 0 && Decile(12) == 10 && Decile(27) == 20;
    var s0 := Started(s);
    var s1 := Step(s0, r5).state;
    var s2 := Step(s1, r12).state;
    var s3 := Step(s2, r27).state;
    assert s1.progNum == 0 && s2.progNum == 10 && s3.progNum == 20;
    assert Published(s3, [fin]) == [100];
    assert [r27, fin][1..] == [fin];
    assert Published(s2, [r27, fin]) == [20, 100];
    assert [r12, r27, fin][1..] == [r27, fin];
    assert Published(s1, [r12, r27, fin]) == [10, 20, 100];
    assert [r5, r12, r27, fin][1..] == [r12, r27, fin];
  }

  /**
   * The downloader pads its percentages to six characters with one decimal;
   * the hook reads " 12.0%" as 12, and so on: the readings `RisingTrace`
   * starts from.
   */
  lemma SamplePercents()
    ensures Read(ProgressEvent(DownloadingEvent, "  5.0%")) == Reading(DownloadingEvent, Some(5))
    ensures Read(ProgressEvent(DownloadingEvent, " 12.0%")) == Reading(DownloadingEvent, Some(12))
    ensures Read(ProgressEvent(DownloadingEvent, " 27.0%")) == Reading(DownloadingEvent, Some(27))
  {
    assert Decimal(5) == "5" && Decimal(12) == "12" && Decimal(27) == "27";
    assert "  " + Decimal(5) + "." + "0%" == "  5.0%";
    assert " " + Decimal(12) + "." + "0%" == " 12.0%";
    assert " " + Decimal(27) + "." + "0%" == " 27.0%";
    IntegerPartOfPercent("  ", 5, "0%");
    IntegerPartOfPercent(" ", 12, "0%");
    IntegerPartOfPercent(" ", 27, "0%");
  }

  /** The root widget's relay fields; the button's `disabled` flag is `downButtonDisabled`. */
  class Root {
    var previousPercentDown: int
    var percentDown: int
    var progNum: int
    var downStatus: string
    var downButtonDisabled: bool

    function State(): RelayState
      reads this
    {
      RelayState(previousPercentDown, percentDown, progNum, downStatus, downButtonDisabled)
    }

    ghost predicate Valid()
      reads this
    {
      Consistent(State())
    }

    constructor ()
      ensures Valid()
      ensures State() == RelayState(0, 0, 0, WaitingText, false)
    {
      previousPercentDown, percentDown, progNum := 0, 0, 0;
      downStatus := WaitingText;
      downButtonDisabled := false;
    }

    /** `prog_hook(d)`; `raised` reports the `ValueError` of an unreadable percentage. */
    method ProgHook(d: ProgressEvent) returns (raised: bool)
      requires Valid()
      modifies this
      ensures Valid()
      ensures HookResult(State(), raised) == Hook(old(State()), d)
    {
      raised := false;
      if d.status == DownloadingEvent {
        downButtonDisabled := true;
        var n := IntegerPart(d.percentStr);
        if n.None? {
          raised := true;
          return;
        }
        percentDown := Decile(n.value);
        if percentDown > previousPercentDown {
          progNum := percentDown;
          previousPercentDown := percentDown;
          return;
        }
      }
      if d.status == FinishedEvent {
        downStatus := FinishedText;
        previousPercentDown := 0;
        progNum := 100;
      }
      downButtonDisabled := false;
    }

    /** `start_download`: reset the relay, disable the button, and hand the job to the worker. */
    method StartDownload(url: string, audioOnly: bool) returns (job: DownloadJob)
      requires Valid()
      modifies this
      ensures Valid()
      ensures State() == Started(old(State()))
      ensures job == DownloadJob(url, audioOnly)
    {
      downStatus := DownloadingText;
      previousPercentDown := 0;
      progNum := 0;
      downButtonDisabled := true;
      job := DownloadJob(url, audioOnly);
    }

    /** `error(msg)`, the downloader's error logger. */
    method Error(msg: string)
      requires Valid()
      modifies this
      ensures Valid()
      ensures State() == ErrorState(old(State()), msg)
    {
      downStatus := ErrorText + Truncate(msg, MessageLimit);
      downButtonDisabled := false;
    }
  }
}
