/**
 The presenter of the activity indicator: a state changed by calls and by delayed closures of earlier calls.

 The main queue runs one thing at a time, and a closure no earlier than its due time; any order of these is
 a run. The window holds the container view; at any moment there may be no window.
 */
module IndicatorPresenter {

  datatype State = WaitingToShow | Showed | WaitingToHide | Hidden

  /** The two times of an activity, in milliseconds. */
  datatype ActivityData = ActivityData(displayTimeThreshold: int, minimumDisplayTime: int)

  /** The closure of the start with this number. */
  datatype ShowClosure = ShowClosure(start: nat, due: int, data: ActivityData)

  /** The closure of the show with this number. */
  datatype HideClosure = HideClosure(show: nat, due: int)

  /** What asked for the view to be hidden. */
  datatype Cause = Stopped | Elapsed(show: nat)

  /**
   What happened. `missed`: the latest start's view was not shown for want of a window. `hides`: the requests
   since the latest show. `blocked`: how many of them found no window to hide the view in.
   */
  datatype History = History(starts: nat, startedAt: int, threshold: int, missed: bool,
                             shows: nat, shownAt: int, minimum: int, hides: seq<Cause>, blocked: nat)

  datatype Snapshot = Snapshot(state: State, group: int, containers: nat, now: int,
                               pendingShows: set<ShowClosure>, pendingHides: set<HideClosure>, history: History)

  datatype Event =
    | Start(data: ActivityData)
    | Stop(window: bool)
    | FireShow(show: ShowClosure, window: bool)
    | FireHide(hide: HideClosure, window: bool)
    | Wait(milliseconds: nat)

  const NO_HISTORY := History(0, 0, 0, false, 0, 0, 0, [], 0)
  const INITIAL := Snapshot(Hidden, 0, 0, 0, {}, {}, NO_HISTORY)

  // ----- one step -----

  predicate Enabled(s: Snapshot, e: Event) {
    match e
    case FireShow(c, _) => c in s.pendingShows && c.due <= s.now
    case FireHide(c, _) => c in s.pendingHides && c.due <= s.now
    case _ => true
  }

  function Started(s: Snapshot, data: ActivityData): Snapshot {
    if s.state != Hidden then s
    else
      var n := s.history.starts + 1;
      s.(state := WaitingToShow, group := s.group + 1,
         pendingShows := s.pendingShows + {ShowClosure(n, s.now + data.displayTimeThreshold, data)},
         history := s.history.(starts := n, startedAt := s.now, threshold := data.displayTimeThreshold,
                                missed := false))
  }

  function Shown(s: Snapshot, data: ActivityData, window: bool): Snapshot {
    if !window then s.(history := s.history.(missed := true))
    else
      var n := s.history.shows + 1;
      s.(state := Showed, containers := s.containers + 1,
         pendingHides := s.pendingHides + {HideClosure(n, s.now + data.minimumDisplayTime)},
         history := s.history.(shows := n, shownAt := s.now, minimum := data.minimumDisplayTime, hides := [],
                                blocked := 0))
  }

  function ShowFired(s: Snapshot, c: ShowClosure, window: bool): Snapshot {
    var left := s.(pendingShows := s.pendingShows - {c}, group := s.group - 1);
    if s.state == WaitingToShow then Shown(left, c.data, window) else left
  }

  function HideRequested(s: Snapshot, cause: Cause, window: bool): Snapshot {
    var asked := s.(history := s.history.(hides := s.history.hides + [cause]));
    match s.state
    case WaitingToHide =>
      if window then asked.(state := Hidden, containers := 0)
      else asked.(history := asked.history.(blocked := s.history.blocked + 1))
    case WaitingToShow => s.(state := Hidden)
    case Showed => asked.(state := WaitingToHide)
    case Hidden => s
  }

  function Step(s: Snapshot, e: Event): Snapshot {
    match e
    case Start(data) => Started(s, data)
    case Stop(window) => HideRequested(s, Stopped, window)
    case FireShow(c, window) => ShowFired(s, c, window)
    case FireHide(c, window) => HideRequested(s.(pendingHides := s.pendingHides - {c}), Elapsed(c.show), window)
    case Wait(milliseconds) => s.(now := s.now + milliseconds)
  }

  // ----- the presenter -----

  class Presenter {
    var state: State
    var startAnimatingGroup: int
    var containers: nat               // the container views in the window
    ghost var now: int                // the clock, and the closures the main queue holds
    ghost var pendingShows: set<ShowClosure>
    ghost var pendingHides: set<HideClosure>
    ghost var history: History

    ghost function View(): Snapshot
      reads this
    {
      Snapshot(state, startAnimatingGroup, containers, now, pendingShows, pendingHides, history)
    }

    constructor ()
      ensures View() == INITIAL
    {
      state, startAnimatingGroup, containers, now := Hidden, 0, 0, 0;
      pendingShows, pendingHides, history := {}, {}, NO_HISTORY;
    }

    method StartAnimating(data: ActivityData)
      modifies this
      ensures View() == Step(old(View()), Start(data))
    {
      if state != Hidden {
        return;
      }
      state := WaitingToShow;
      startAnimatingGroup := startAnimatingGroup + 1;
      history := history.(starts := history.starts + 1, startedAt := now,
                          threshold := data.displayTimeThreshold, missed := false);
      pendingShows := pendingShows + {ShowClosure(history.starts, now + data.displayTimeThreshold, data)};
    }

    /** The closure that a start schedules. */
    method RunShowClosure(data: ActivityData, window: bool, ghost closure: ShowClosure)
      requires Enabled(View(), FireShow(closure, window)) && closure.data == data
      modifies this
      ensures View() == Step(old(View()), FireShow(closure, window))
    {
      pendingShows := pendingShows - {closure};
      if state != WaitingToShow {
        startAnimatingGroup := startAnimatingGroup - 1;
        return;
      }
      Show(data, window);
      startAnimatingGroup := startAnimatingGroup - 1;
    }

    method Show(data: ActivityData, window: bool)
      modifies this
      ensures View() == Shown(old(View()), data, window)
    {
      if !window {
        history := history.(missed := true);
        return;
      }
      containers := containers + 1;
      state := Showed;
      history := history.(shows := history.shows + 1, shownAt := now, minimum := data.minimumDisplayTime,
                          hides := [], blocked := 0);
      pendingHides := pendingHides + {HideClosure(history.shows, now + data.minimumDisplayTime)};
    }

    method StopAnimating(window: bool)
      modifies this
      ensures View() == Step(old(View()), Stop(window))
    {
      RequestHide(window, Stopped);
    }

    /** The closure that a show schedules. */
    method RunHideClosure(window: bool, ghost closure: HideClosure)
      requires Enabled(View(), FireHide(closure, window))
      modifies this
      ensures View() == Step(old(View()), FireHide(closure, window))
    {
      pendingHides := pendingHides - {closure};
      RequestHide(window, Elapsed(closure.show));
    }

    /** `_hide`. */
    method RequestHide(window: bool, ghost cause: Cause)
      modifies this
      ensures View() == HideRequested(old(View()), cause, window)
    {
      if state == WaitingToHide {
        history := history.(hides := history.hides + [cause]);
        Hide(window);
      } else if state == WaitingToShow {
        state := Hidden;
      } else if state != Hidden {
        history := history.(hides := history.hides + [cause]);
        state := WaitingToHide;
      }
    }

    method Hide(window: bool)
      modifies this
      ensures View() == if window then old(View()).(state := Hidden, containers := 0)
                        else old(View()).(history := old(history).(blocked := old(history).blocked + 1))
    {
      if !window {
        history := history.(blocked := history.blocked + 1);
        return;
      }
      containers := 0;
      state := Hidden;
    }
  }

  // ----- what holds in every state -----

  /** The latest start's closure has not run. */
  predicate OwnShowPending(s: Snapshot) {
    exists c :: c in s.pendingShows && c.start == s.history.starts
  }

  /** The latest show's closure has not run. */
  predicate OwnHidePending(s: Snapshot) {
    exists c :: c in s.pendingHides && c.show == s.history.shows
  }

  /** Each closure belongs to one start or show; those of the latest are due when its time is over. */
  ghost predicate ClosuresOk(s: Snapshot) {
    && (forall c :: c in s.pendingShows ==> c.start <= s.history.starts)
    && (forall c :: c in s.pendingShows && c.start == s.history.starts ==>
          c.due == s.history.startedAt + s.history.threshold)
    && (forall c :: c in s.pendingHides ==> c.show <= s.history.shows)
    && (forall c :: c in s.pendingHides && c.show == s.history.shows ==>
          c.due == s.history.shownAt + s.history.minimum)
  }

  /** The container is there exactly in the two shown states, and the group counts the waiting show closures. */
  predicate ViewOk(s: Snapshot) {
    && s.containers == (if s.state == Showed || s.state == WaitingToHide then 1 else 0)
    && s.group == |s.pendingShows|
  }

  /** Nobody waits in vain for the first request, and later requests have met no window. */
  predicate RequestsOk(s: Snapshot) {
    && (s.state == WaitingToShow ==> s.history.missed || OwnShowPending(s))
    && (s.state == Showed ==> OwnHidePending(s) && s.history.hides == [] && s.history.blocked == 0)
    && (s.state == WaitingToHide ==> |s.history.hides| == 1 + s.history.blocked)
  }

  /** The latest show's closure is among the requests exactly once it has run, and then the time is over. */
  ghost predicate MinimumOk(s: Snapshot) {
    && (forall n: nat :: Elapsed(n) in s.history.hides ==> n <= s.history.shows)
    && (Elapsed(s.history.shows) in s.history.hides ==> s.history.shownAt + s.history.minimum <= s.now)
    && ((s.state == Showed || s.state == WaitingToHide) ==>
          (Elapsed(s.history.shows) in s.history.hides <==> !OwnHidePending(s)))
  }

  ghost predicate Invariant(s: Snapshot) {
    ClosuresOk(s) && ViewOk(s) && RequestsOk(s) && MinimumOk(s)
  }

  lemma StepKeepsInvariant(s: Snapshot, e: Event)
    requires Invariant(s) && Enabled(s, e)
    ensures Invariant(Step(s, e))
  {
    match e
    case Start(data) => StartKeeps(s, data);
    case Stop(window) => RequestKeeps(s, Stopped, window);
    case FireShow(c, window) => ShowKeeps(s, c, window);
    case FireHide(c, window) => FireHideKeeps(s, c, window);
    case Wait(_) =>
  }

  lemma StartKeeps(s: Snapshot, data: ActivityData)
    requires Invariant(s)
    ensures Invariant(Started(s, data))
  {
  }

  lemma ShowKeeps(s: Snapshot, c: ShowClosure, window: bool)
    requires Invariant(s) && c in s.pendingShows
    ensures Invariant(ShowFired(s, c, window))
  {
  }

  lemma RequestKeeps(s: Snapshot, cause: Cause, window: bool)
    requires Invariant(s)
    requires cause.Stopped?
    ensures Invariant(HideRequested(s, cause, window))
  {
  }

  lemma FireHideKeeps(s: Snapshot, c: HideClosure, window: bool)
    requires Invariant(s) && c in s.pendingHides && c.due <= s.now
    ensures Invariant(HideRequested(s.(pendingHides := s.pendingHides - {c}), Elapsed(c.show), window))
  {
  }

  // ----- runs -----

  /** From `s` each event is enabled when it happens. */
  predicate Possible(s: Snapshot, es: seq<Event>)
    decreases |es|, 0
  {
    es != [] ==> Possible(s, es[..|es| - 1]) && Enabled(After(s, es[..|es| - 1]), es[|es| - 1])
  }

  /** The state that the events lead to. */
  function After(s: Snapshot, es: seq<Event>): Snapshot
    requires Possible(s, es)
    decreases |es|, 1
  {
    if es == [] then s else Step(After(s, es[..|es| - 1]), es[|es| - 1])
  }

  /** `s` is the state after some run. */
  ghost predicate Reachable(s: Snapshot) {
    exists es :: Possible(INITIAL, es) && After(INITIAL, es) == s
  }

  lemma {:induction false} RunKeepsInvariant(s: Snapshot, es: seq<Event>)
    requires Invariant(s) && Possible(s, es)
    ensures Invariant(After(s, es))
    decreases |es|
  {
    hide Invariant, Step, Enabled;
    if es != [] {
      RunKeepsInvariant(s, es[..|es| - 1]);
      StepKeepsInvariant(After(s, es[..|es| - 1]), es[|es| - 1]);
    }
  }

  /** In every run, whatever the order of calls and closures. */
  lemma AlwaysInvariant(s: Snapshot)
    requires Reachable(s)
    ensures Invariant(s)
  {
    var es :| Possible(INITIAL, es) && After(INITIAL, es) == s;
    RunKeepsInvariant(INITIAL, es);
  }

  lemma Extend(s: Snapshot, es: seq<Event>, e: Event)
    requires Possible(s, es) && Enabled(After(s, es), e)
    ensures Possible(s, es + [e]) && After(s, es + [e]) == Step(After(s, es), e)
  {
    assert (es + [e])[..|es + [e]| - 1] == es;
  }

  // ----- what users may rely on -----

  predicate IsRequest(e: Event) {
    e.Stop? || e.FireHide?
  }

  predicate Removes(s: Snapshot, e: Event) {
    s.containers > 0 && Step(s, e).containers == 0
  }

  predicate Adds(s: Snapshot, e: Event) {
    Step(s, e).containers > s.containers
  }

  /**
   Hiding takes two requests since the show, from whomever: the view goes with a request that finds a window
   after an earlier one, and all requests between these two have met no window.
   */
  lemma RemovedAtSecondRequest(s: Snapshot, e: Event)
    requires Reachable(s) && Enabled(s, e)
    ensures Removes(s, e) <==> s.containers == 1 && s.history.hides != [] && IsRequest(e) && e.window
    ensures var r := Step(s, e);
            Removes(s, e) ==> r.history.shows == s.history.shows && |r.history.hides| == 2 + r.history.blocked
  {
    AlwaysInvariant(s);
  }

  /** Once no closure is left the group is empty, and nothing waits but a view for a stop, or for a window. */
  lemma Quiescent(s: Snapshot)
    requires Reachable(s) && s.pendingShows == {} && s.pendingHides == {}
    ensures s.group == 0 && s.state != Showed
    ensures s.state == WaitingToShow ==> s.history.missed
    ensures s.state == WaitingToHide ==> Elapsed(s.history.shows) in s.history.hides
  {
    AlwaysInvariant(s);
  }

  // ----- the display threshold -----

  /** When a closure can run at the earliest. */
  function Earliest(due: int, now: int): int {
    if due < now then now else due
  }

  /** Whatever happens after the start that led to `s`: until the next one no view appears before the time `due`. */
  ghost predicate KeepsThreshold(s: Snapshot, due: int) {
    forall es: seq<Event>, e: Event ::
      Possible(s, es) && After(s, es).history.starts == s.history.starts
      && Enabled(After(s, es), e) && Adds(After(s, es), e) ==>
        due <= After(s, es).now
  }

  /** A start keeps its threshold exactly if no closure of an earlier start can run before it is over. */
  lemma ThresholdCondition(s: Snapshot, data: ActivityData)
    requires Reachable(s) && s.state == Hidden
    ensures KeepsThreshold(Step(s, Start(data)), s.now + data.displayTimeThreshold) <==>
            forall c :: c in s.pendingShows ==> s.now + data.displayTimeThreshold <= Earliest(c.due, s.now)
  {
    var begun := Step(s, Start(data));
    if forall c :: c in s.pendingShows ==> s.now + data.displayTimeThreshold <= Earliest(c.due, s.now) {
      forall es: seq<Event>, e: Event
        | Possible(begun, es) && After(begun, es).history.starts == begun.history.starts
          && Enabled(After(begun, es), e) && Adds(After(begun, es), e)
        ensures s.now + data.displayTimeThreshold <= After(begun, es).now
      {
        NoNewShows(begun, es);
      }
    } else {
      var c :| c in s.pendingShows && Earliest(c.due, s.now) < s.now + data.displayTimeThreshold;
      ShownByOlder(s, data, c);
    }
  }

  /** Without another start no show closure is added, and time does not run backwards. */
  lemma {:induction false} NoNewShows(s: Snapshot, es: seq<Event>)
    requires Possible(s, es)
    ensures s.now <= After(s, es).now && s.history.starts <= After(s, es).history.starts
    ensures After(s, es).history.starts == s.history.starts ==> After(s, es).pendingShows <= s.pendingShows
    decreases |es|
  {
    if es != [] {
      NoNewShows(s, es[..|es| - 1]);
    }
  }

  /** The run in which the closure of an earlier start shows the view. */
  lemma ShownByOlder(s: Snapshot, data: ActivityData, c: ShowClosure)
    requires s.state == Hidden && c in s.pendingShows
    requires Earliest(c.due, s.now) < s.now + data.displayTimeThreshold
    ensures !KeepsThreshold(Step(s, Start(data)), s.now + data.displayTimeThreshold)
  {
    var begun := Step(s, Start(data));
    var wait, show := Wait(Earliest(c.due, s.now) - s.now), FireShow(c, true);
    Extend(begun, [], wait);
    assert [] + [wait] == [wait];
    assert Enabled(After(begun, [wait]), show) && Adds(After(begun, [wait]), show);
  }

  // ----- the minimum display time -----

  /** A view appears only when the closure of a start finds a window, and nobody has stopped that start. */
  lemma OnlyShowsAdd(s: Snapshot, e: Event)
    ensures Adds(s, e) <==> e.FireShow? && e.window && s.state == WaitingToShow
  {
  }

  /** The show schedules one hide request, and that is due when the minimum time is over. */
  lemma ShowSchedulesHide(s: Snapshot, c: ShowClosure)
    requires Reachable(s) && Enabled(s, FireShow(c, true)) && s.state == WaitingToShow
    ensures var added := Step(s, FireShow(c, true)).pendingHides - s.pendingHides;
            |added| == 1 && forall h :: h in added ==> h.due == s.now + c.data.minimumDisplayTime
    ensures s.pendingHides <= Step(s, FireShow(c, true)).pendingHides
  {
    AlwaysInvariant(s);
    var h := HideClosure(s.history.shows + 1, s.now + c.data.minimumDisplayTime);
    assert Step(s, FireShow(c, true)).pendingHides - s.pendingHides == {h};
  }

  /** The start schedules one show, and that is due when the threshold is over. */
  lemma StartSchedulesShow(s: Snapshot, data: ActivityData)
    requires Reachable(s) && s.state == Hidden
    ensures var added := Step(s, Start(data)).pendingShows - s.pendingShows;
            |added| == 1 && forall c :: c in added ==> c.due == s.now + data.displayTimeThreshold && c.data == data
    ensures s.pendingShows <= Step(s, Start(data)).pendingShows
  {
    AlwaysInvariant(s);
    var c := ShowClosure(s.history.starts + 1, s.now + data.displayTimeThreshold, data);
    assert Step(s, Start(data)).pendingShows - s.pendingShows == {c};
  }

  /** A request that is not the view's own closure. */
  predicate IsForeign(shown: Snapshot, e: Event) {
    e.Stop? || (e.FireHide? && e.hide.show < shown.history.shows)
  }

  /** In the run from `shown` the view goes before the time `due`. */
  predicate GoneEarly(shown: Snapshot, es: seq<Event>, due: int)
    requires Possible(shown, es)
    decreases |es|
  {
    && es != []
    && var front, e := es[..|es| - 1], es[|es| - 1];
    || GoneEarly(shown, front, due)
    || (Removes(After(shown, front), e) && After(shown, front).history.shows == shown.history.shows
        && After(shown, front).now < due)
  }

  /** In the run from `shown` a foreign request comes before the time `due`. */
  predicate RequestedEarly(shown: Snapshot, es: seq<Event>, due: int)
    requires Possible(shown, es)
    decreases |es|
  {
    && es != []
    && var front, e := es[..|es| - 1], es[|es| - 1];
    || RequestedEarly(shown, front, due)
    || (IsForeign(shown, e) && After(shown, front).now < due)
  }

  /** Two do, and the second finds a window. */
  predicate RequestedTwiceEarly(shown: Snapshot, es: seq<Event>, due: int)
    requires Possible(shown, es)
    decreases |es|
  {
    && es != []
    && var front, e := es[..|es| - 1], es[|es| - 1];
    || RequestedTwiceEarly(shown, front, due)
    || (RequestedEarly(shown, front, due) && IsForeign(shown, e) && e.window && After(shown, front).now < due)
  }

  /** The view of `shown` is still there. */
  predicate Remains(shown: Snapshot, s: Snapshot) {
    s.history.shows == shown.history.shows && (s.state == Showed || s.state == WaitingToHide)
  }

  /**
   A view goes before its minimum time exactly if two requests, from calls or from closures of earlier shows,
   come before it is over, the second of them with a window.
   */
  lemma MinimumTimeCondition(s: Snapshot, c: ShowClosure, es: seq<Event>)
    requires Reachable(s) && Enabled(s, FireShow(c, true)) && s.state == WaitingToShow
    requires Possible(Step(s, FireShow(c, true)), es)
    ensures var shown, due := Step(s, FireShow(c, true)), s.now + c.data.minimumDisplayTime;
            GoneEarly(shown, es, due) <==> RequestedTwiceEarly(shown, es, due)
  {
    AlwaysInvariant(s);
    StepKeepsInvariant(s, FireShow(c, true));
    ViewStory(Step(s, FireShow(c, true)), es);
  }

  /** The time by which the closure of the latest show is due. */
  function DueTime(shown: Snapshot): int {
    shown.history.shownAt + shown.history.minimum
  }

  /** While the view remains it knows of early requests; once it has gone before its time, that is known. */
  predicate IsStory(shown: Snapshot, s: Snapshot, requested: bool, gone: bool) {
    if Remains(shown, s) then
      && s.history.shownAt == shown.history.shownAt && s.history.minimum == shown.history.minimum
      && (requested ==> s.state == WaitingToHide)
      && (s.state == WaitingToHide && s.now < DueTime(shown) ==> requested)
    else
      && s.history.shows >= shown.history.shows && (s.now < DueTime(shown) ==> gone)
  }

  lemma {:induction false} ViewStory(shown: Snapshot, es: seq<Event>)
    requires Invariant(shown) && shown.state == Showed && Possible(shown, es)
    ensures Invariant(After(shown, es))
    ensures var due := DueTime(shown);
            && IsStory(shown, After(shown, es), RequestedEarly(shown, es, due), GoneEarly(shown, es, due))
            && (GoneEarly(shown, es, due) <==> RequestedTwiceEarly(shown, es, due))
    decreases |es|
  {
    hide Invariant;
    if es != [] {
      hide IsStory, Step, Enabled, IsForeign, Removes;
      var front, e, due := es[..|es| - 1], es[|es| - 1], DueTime(shown);
      ViewStory(shown, front);
      StepKeepsInvariant(After(shown, front), e);
      StoryGoesOn(shown, After(shown, front), e, RequestedEarly(shown, front, due), GoneEarly(shown, front, due));
    } else {
      ViewBegins(shown);
    }
  }

  lemma ViewBegins(shown: Snapshot)
    requires shown.state == Showed
    ensures IsStory(shown, shown, false, false)
  {
  }

  /** One event: a view that goes early has been requested before, and a second request makes it go. */
  lemma StoryGoesOn(shown: Snapshot, s: Snapshot, e: Event, requested: bool, gone: bool)
    requires Invariant(s) && Enabled(s, e) && IsStory(shown, s, requested, gone)
    ensures var early := s.now < DueTime(shown);
            var goes := Removes(s, e) && s.history.shows == shown.history.shows && early;
            && IsStory(shown, Step(s, e), requested || (IsForeign(shown, e) && early), gone || goes)
            && (goes ==> requested && IsForeign(shown, e) && e.window)
            && (requested && IsForeign(shown, e) && e.window && early ==> gone || goes)
  {
  }

  /** How many calls to stop come before the time `due`. */
  function EarlyStops(shown: Snapshot, es: seq<Event>, due: int): nat
    requires Possible(shown, es)
    decreases |es|
  {
    if es == [] then 0
    else
      var front, e := es[..|es| - 1], es[|es| - 1];
      EarlyStops(shown, front, due) + if e.Stop? && After(shown, front).now < due then 1 else 0
  }

  /** Shown with no closure of an earlier show left, a view stays its minimum time if stopped once at most. */
  lemma OneStopKeepsTime(s: Snapshot, c: ShowClosure, es: seq<Event>)
    requires Reachable(s) && Enabled(s, FireShow(c, true)) && s.state == WaitingToShow
    requires Possible(Step(s, FireShow(c, true)), es)
    requires s.pendingHides == {}
    requires EarlyStops(Step(s, FireShow(c, true)), es, s.now + c.data.minimumDisplayTime) <= 1
    ensures !GoneEarly(Step(s, FireShow(c, true)), es, s.now + c.data.minimumDisplayTime)
  {
    AlwaysInvariant(s);
    MinimumTimeCondition(s, c, es);
    OnlyStopsAreForeign(Step(s, FireShow(c, true)), es, s.now + c.data.minimumDisplayTime);
  }

  lemma {:induction false} OnlyStopsAreForeign(shown: Snapshot, es: seq<Event>, due: int)
    requires Possible(shown, es) && forall c :: c in shown.pendingHides ==> c.show >= shown.history.shows
    ensures forall c :: c in After(shown, es).pendingHides ==> c.show >= shown.history.shows
    ensures After(shown, es).history.shows >= shown.history.shows
    ensures RequestedEarly(shown, es, due) ==> EarlyStops(shown, es, due) >= 1
    ensures RequestedTwiceEarly(shown, es, due) ==> EarlyStops(shown, es, due) >= 2
    decreases |es|
  {
    if es != [] {
      OnlyStopsAreForeign(shown, es[..|es| - 1], due);
    }
  }

  // ----- runs -----

  /** A start while the presenter is busy, and a stop while it is hidden, change nothing. */
  lemma IdleCalls(s: Snapshot, data: ActivityData, window: bool)
    ensures s.state != Hidden ==> Step(s, Start(data)) == s
    ensures s.state == Hidden ==> Step(s, Stop(window)) == s
    ensures Step(s, Start(data)).state != Hidden
  {
  }

  /** Without a window a show or a hide request leaves the view as it is, and no closure is added. */
  lemma NoWindowKeeps(s: Snapshot, e: Event)
    requires (e.FireShow? || e.FireHide? || e.Stop?) && !e.window
    ensures Step(s, e).containers == s.containers
    ensures Step(s, e).pendingShows <= s.pendingShows && Step(s, e).pendingHides <= s.pendingHides
    ensures e.FireShow? ==> Step(s, e).state == s.state
  {
  }

  /** A stop before the view has appeared cancels it: until the next start there is none, whatever closures run. */
  lemma {:induction false} StopCancels(s: Snapshot, window: bool, es: seq<Event>)
    requires Reachable(s) && s.state == WaitingToShow && Possible(Step(s, Stop(window)), es)
    requires After(Step(s, Stop(window)), es).history.starts == s.history.starts
    ensures After(Step(s, Stop(window)), es).state == Hidden && After(Step(s, Stop(window)), es).containers == 0
    decreases |es|
  {
    var stopped := Step(s, Stop(window));
    AlwaysInvariant(s);
    StepKeepsInvariant(s, Stop(window));
    RunKeepsInvariant(stopped, es);
    if es != [] {
      RunKeepsInvariant(stopped, es[..|es| - 1]);
      NoNewShows(stopped, es[..|es| - 1]);
      hide Invariant;
      StopCancels(s, window, es[..|es| - 1]);
    }
  }

  /** The view appears when the threshold is over, and goes with a stop after its minimum time. */
  lemma OrdinaryRun(data: ActivityData) returns (es: seq<Event>)
    requires data.displayTimeThreshold >= 0 && data.minimumDisplayTime >= 0
    ensures es == [Start(data), Wait(data.displayTimeThreshold),
                   FireShow(ShowClosure(1, data.displayTimeThreshold, data), true), Wait(data.minimumDisplayTime),
                   FireHide(HideClosure(1, data.displayTimeThreshold + data.minimumDisplayTime), true), Stop(true)]
    ensures Possible(INITIAL, es) && Possible(INITIAL, es[..2]) && Possible(INITIAL, es[..3])
    ensures Possible(INITIAL, es[..5])
    ensures After(INITIAL, es[..2]).containers == 0 && After(INITIAL, es[..3]).containers == 1
    ensures After(INITIAL, es[..5]).containers == 1 && After(INITIAL, es).containers == 0
    ensures After(INITIAL, es).state == Hidden && After(INITIAL, es).group == 0
  {
    var e0, e1 := Start(data), Wait(data.displayTimeThreshold);
    var e2 := FireShow(ShowClosure(1, data.displayTimeThreshold, data), true);
    var e3 := Wait(data.minimumDisplayTime);
    var e4 := FireHide(HideClosure(1, data.displayTimeThreshold + data.minimumDisplayTime), true);
    Extend(INITIAL, [], e0);
    Extend(INITIAL, [] + [e0], e1);
    Extend(INITIAL, [] + [e0] + [e1], e2);
    Extend(INITIAL, [] + [e0] + [e1] + [e2], e3);
    Extend(INITIAL, [] + [e0] + [e1] + [e2] + [e3], e4);
    Extend(INITIAL, [] + [e0] + [e1] + [e2] + [e3] + [e4], Stop(true));
    es := [e0, e1, e2, e3, e4, Stop(true)];
    assert es == [] + [e0] + [e1] + [e2] + [e3] + [e4] + [Stop(true)];
    assert es[..2] == [] + [e0] + [e1] && es[..3] == [] + [e0] + [e1] + [e2];
    assert es[..5] == [] + [e0] + [e1] + [e2] + [e3] + [e4];
  }

  /** Two calls to stop are two requests: the view goes before its time. */
  lemma StoppedTwice(data: ActivityData) returns (es: seq<Event>)
    requires data.displayTimeThreshold == 0 < data.minimumDisplayTime
    ensures es == [Start(data), FireShow(ShowClosure(1, 0, data), true), Stop(true), Stop(true)]
    ensures Possible(INITIAL, es) && Possible(INITIAL, es[..2])
    ensures After(INITIAL, es[..2]).containers == 1 && After(INITIAL, es).containers == 0
    ensures After(INITIAL, es).now == After(INITIAL, es[..2]).now
  {
    var e0, e1, e2 := Start(data), FireShow(ShowClosure(1, 0, data), true), Stop(true);
    Extend(INITIAL, [], e0);
    Extend(INITIAL, [] + [e0], e1);
    Extend(INITIAL, [] + [e0] + [e1], e2);
    Extend(INITIAL, [] + [e0] + [e1] + [e2], e2);
    es := [e0, e1, e2, e2];
    assert es == [] + [e0] + [e1] + [e2] + [e2] && es[..2] == [] + [e0] + [e1];
  }

  /** The closure of an activity that was stopped shows the view 1 ms after the next start, before its threshold. */
  lemma ShownByStaleClosure(data: ActivityData) returns (es: seq<Event>)
    requires data.displayTimeThreshold > 1
    ensures es == [Start(data), Stop(true), Wait(data.displayTimeThreshold - 1), Start(data), Wait(1),
                   FireShow(ShowClosure(1, data.displayTimeThreshold, data), true)]
    ensures Possible(INITIAL, es) && Possible(INITIAL, es[..5])
    ensures After(INITIAL, es[..5]).containers == 0 && After(INITIAL, es).containers == 1
  {
    var wait := data.displayTimeThreshold - 1;
    var e0, e1, e2, e3 := Start(data), Stop(true), Wait(wait), Wait(1);
    var e4 := FireShow(ShowClosure(1, data.displayTimeThreshold, data), true);
    Extend(INITIAL, [], e0);
    Extend(INITIAL, [] + [e0], e1);
    Extend(INITIAL, [] + [e0] + [e1], e2);
    Extend(INITIAL, [] + [e0] + [e1] + [e2], e0);
    Extend(INITIAL, [] + [e0] + [e1] + [e2] + [e0], e3);
    Extend(INITIAL, [] + [e0] + [e1] + [e2] + [e0] + [e3], e4);
    es := [e0, e1, e2, e0, e3, e4];
    assert es == [] + [e0] + [e1] + [e2] + [e0] + [e3] + [e4];
    assert es[..5] == [] + [e0] + [e1] + [e2] + [e0] + [e3];
  }
}
