/** Judging from a log of events that the devices ended in a safe idle state,
    tools/final_safe_idle_evidence.py. Physical routes and the screen enter as the facts the log
    evaluation uses about them. */
module SafeIdle {
  import opened Wrappers
  import opened StableSorting
  import Characters
  import JsonText
  import Names

  datatype Event = Event(timestamp: int, sequence: int, name: string, detail: string)

  /** `_event_order`, as the order of its pairs. */
  function EventOrder(): (Event, Event) -> bool {
    (a: Event, b: Event) => a.timestamp < b.timestamp || (a.timestamp == b.timestamp && a.sequence <= b.sequence)
  }

  lemma EventOrderIsTotal()
    ensures TotalPreorder(EventOrder())
  {
  }

  // ---------- reading the detail text

  predicate WordChar(c: char) {
    'a' <= c <= 'z' || 'A' <= c <= 'Z' || '0' <= c <= '9' || c == '_'
  }

  /** `word` at `i`, not continuing a longer word to its left. */
  predicate WordAt(detail: string, word: string, i: nat) {
    && i + |word| <= |detail|
    && detail[i..i + |word|] == word
    && (i == 0 || !WordChar(detail[i - 1]))
  }

  /** `_detail_has_token` */
  predicate HasToken(detail: string, key: string, value: string) {
    var word := key + "=" + value;
    exists i | 0 <= i <= |detail| ::
      WordAt(detail, word, i) && (i + |word| == |detail| || Characters.Space(detail[i + |word|]))
  }

  /** The optional minus and the digits at the start of a text, as a number. */
  function LeadingNumber(text: string): Option<int> {
    var negative := text != "" && text[0] == '-';
    var unsigned := if negative then text[1..] else text;
    var n := JsonText.DigitRun(unsigned);
    if n == 0 then None
    else
      var value: int := Names.DecimalValue(unsigned[..n]);
      Some(if negative then -value else value)
  }

  /** The last `key=number` that starts before `n`. */
  function LastMetric(detail: string, word: string, n: nat): Option<int>
    requires n <= |detail|
  {
    if n == 0 then None
    else if WordAt(detail, word, n - 1) && LeadingNumber(detail[n - 1 + |word|..]).Some? then
      LeadingNumber(detail[n - 1 + |word|..])
    else LastMetric(detail, word, n - 1)
  }

  /** `_metric_value` */
  function MetricValue(detail: string, key: string): Option<int> {
    LastMetric(detail, key + "=", |detail|)
  }

  /** `_is_runtime_reactivation` */
  predicate IsReactivation(event: Event) {
    || event.name in {"dual_machine_formal_data_plane_continued", "dual_machine_formal_data_plane_opened",
                      "dual_machine_formal_start_exact_retry", "dual_machine_formal_start_recovered"}
    || (event.name == "mobile_runtime_phase_changed"
        && (HasToken(event.detail, "to", "starting") || HasToken(event.detail, "to", "running")))
    || (event.name == "mobile_runtime_health"
        && (HasToken(event.detail, "phase", "running")
            || Positive(MetricValue(event.detail, "output_requested"))
            || Positive(MetricValue(event.detail, "output_enabled"))))
  }

  predicate Positive(value: Option<int>) {
    value.Some? && value.value > 0
  }

  /** The names the log reader keeps. */
  const RELEVANT: set<string> := {
    "control_output_auto_locked", "control_trigger_applied", "dual_machine_formal_data_plane_continued",
    "dual_machine_formal_data_plane_opened", "dual_machine_formal_start_exact_retry",
    "dual_machine_formal_start_recovered", "dual_machine_formal_stop_failed", "dual_machine_formal_stop_finished",
    "mobile_control_output_fail_closed", "mobile_control_output_route_command",
    "mobile_control_output_route_selected", "mobile_pipeline_stop_requested", "mobile_pipeline_stopped",
    "mobile_runtime_health", "mobile_runtime_phase_changed", "mobile_runtime_service_started"}

  // ---------- what the log is judged against

  /** The evidence for one required route: whether its digest matches and its own errors are none. */
  datatype Route = Missing | Present(digestMatches: bool, valid: bool, end: int)

  datatype Screen = Screen(packageScope: bool, makcuRoutePresent: bool, outputGateDisabled: bool)

  predicate RoutesBound(routes: seq<Route>) {
    routes != [] && forall r <- routes :: r.Present? && r.digestMatches && r.valid && r.end > 0
  }

  /** The largest end time, 0 when there is none. */
  function AcceptanceEnd(routes: seq<Route>): int {
    var ends := Filter(routes, (r: Route) => r.Present?);
    if ends == [] then 0 else MaxEnd(ends)
  }

  function MaxEnd(routes: seq<Route>): int
    requires routes != []
  {
    var last := if routes[|routes| - 1].Present? then routes[|routes| - 1].end else 0;
    if |routes| == 1 then last
    else
      var before := MaxEnd(routes[..|routes| - 1]);
      if before > last then before else last
  }

  lemma {:induction false} BoundEndPositive(routes: seq<Route>)
    requires RoutesBound(routes)
    ensures AcceptanceEnd(routes) > 0
  {
    FilterAll(routes, (r: Route) => r.Present?);
    LastCounts(routes);
    assert routes[|routes| - 1] in routes;
  }

  lemma LastCounts(routes: seq<Route>)
    requires routes != [] && routes[|routes| - 1].Present?
    ensures MaxEnd(routes) >= routes[|routes| - 1].end
  {
  }

  // ---------- the evaluation

  function Named(name: string): Event -> bool {
    (e: Event) => e.name == name
  }

  function After(end: int): Event -> bool {
    (e: Event) => e.timestamp > end
  }

  function ClosesFormalUsage(): Event -> bool {
    (e: Event) => e.name == "mobile_runtime_phase_changed" && HasToken(e.detail, "to", "ready")
                  && Contains(e.detail, "reason=formal_usage_closed")
  }

  function LocksOutput(): Event -> bool {
    (e: Event) => e.name == "control_output_auto_locked" || e.name == "mobile_control_output_fail_closed"
  }

  function HealthFrom(end: int): Event -> bool {
    (e: Event) => e.name == "mobile_runtime_health" && e.timestamp >= end
  }

  function ReactivatesAfter(end: int): Event -> bool {
    (e: Event) => e.timestamp > end && IsReactivation(e)
  }

  predicate Contains(text: string, word: string) {
    exists i | 0 <= i <= |text| :: word <= text[i..]
  }

  function Last(events: seq<Event>): Option<Event> {
    if events == [] then None else Some(events[|events| - 1])
  }

  function TimeOf(event: Option<Event>): int {
    if event.Some? then event.value.timestamp else 0
  }

  function DetailOf(event: Option<Event>): string {
    if event.Some? then event.value.detail else ""
  }

  function Latest(a: Option<Event>, b: Option<Event>): Option<Event> {
    if b.None? || (a.Some? && a.value.timestamp >= b.value.timestamp) then a else b
  }

  datatype Checks = Checks(
    dualPhysicalAcceptanceBound: bool, sameApkAndDeviceBound: bool, safeIdleAfterPhysicalAcceptance: bool,
    makcuRouteRestored: bool, sideButton2Restored: bool, formalUsageClosedLocally: bool,
    formalUsageStopServerConfirmed: bool, inferencePipelineStopped: bool, controlOutputFailClosed: bool,
    noPendingNativeMove: bool, terminalHealthAfterRestoration: bool, noLaterRuntimeReactivation: bool,
    uiPackageScope: bool, uiMakcuRoutePresent: bool, uiOutputGateDisabled: bool)

  datatype Metrics = Metrics(
    acceptanceEnd: int, lastRouteAt: int, lastTriggerAt: int, formalClosedAt: int, formalStopAt: int,
    terminalHealthAt: int, outputRequested: Option<int>, outputEnabled: Option<int>, pendingMoves: Option<int>,
    laterReactivations: nat)

  datatype Evaluation = Evaluation(checks: Checks, metrics: Metrics, postAcceptance: nat)

  /** The events every judgement rests on. */
  datatype Landmarks = Landmarks(
    route: Option<Event>, trigger: Option<Event>, phase: Option<Event>, stop: Option<Event>,
    closed: Option<Event>, locked: bool, health: Option<Event>, reactivations: nat)

  /** The latest time among the four terminal events, 0 when there are none. */
  function TerminalEnd(route: Option<Event>, trigger: Option<Event>, stop: Option<Event>, closed: Option<Event>): int {
    TimeOf(Latest(Latest(Latest(route, trigger), stop), closed))
  }

  function FindLandmarks(post: seq<Event>): Landmarks {
    var route := Last(Filter(post, Named("mobile_control_output_route_selected")));
    var trigger := Last(Filter(post, Named("control_trigger_applied")));
    var stop := Last(Filter(post, Named("dual_machine_formal_stop_finished")));
    var closed := Last(Filter(post, ClosesFormalUsage()));
    Landmarks(
      route, trigger, Last(Filter(post, Named("mobile_runtime_phase_changed"))), stop, closed,
      Filter(post, LocksOutput()) != [],
      Last(Filter(post, HealthFrom(TerminalEnd(route, trigger, stop, closed)))),
      if TimeOf(stop) == 0 then 0 else |Filter(post, ReactivatesAfter(TimeOf(stop)))|)
  }

  predicate AfterEnd(event: Option<Event>, end: int) {
    event.Some? && event.value.timestamp > end
  }

  function Judge(routes: seq<Route>, screen: Screen, at: Landmarks): Checks {
    var end := AcceptanceEnd(routes);
    var terminal := TerminalEnd(at.route, at.trigger, at.stop, at.closed);
    var health := DetailOf(at.health);
    Checks(
      RoutesBound(routes),
      RoutesBound(routes),
      AfterEnd(at.route, end) && AfterEnd(at.trigger, end) && AfterEnd(at.stop, end) && AfterEnd(at.closed, end)
        && at.health.Some? && at.health.value.timestamp >= terminal,
      at.route.Some? && HasToken(at.route.value.detail, "route", "makcu_usb"),
      at.trigger.Some? && HasToken(at.trigger.value.detail, "trigger", "mouse5"),
      at.closed.Some? && HasToken(DetailOf(at.stop), "local_closed", "true"),
      HasToken(DetailOf(at.stop), "server_confirmed", "true"),
      at.phase.Some?
        && (HasToken(at.phase.value.detail, "to", "ready") || HasToken(at.phase.value.detail, "to", "stopped"))
        && at.health.Some? && (HasToken(health, "phase", "ready") || HasToken(health, "phase", "stopped")),
      at.locked && MetricValue(health, "output_requested") == Some(0)
        && MetricValue(health, "output_enabled") == Some(0),
      MetricValue(health, "native_move_completion_pending") == Some(0),
      at.health.Some?,
      at.stop.Some? && at.reactivations == 0,
      screen.packageScope, screen.makcuRoutePresent, screen.outputGateDisabled)
  }

  function Measure(end: int, at: Landmarks): Metrics {
    Metrics(
      end, TimeOf(at.route), TimeOf(at.trigger), TimeOf(at.closed), TimeOf(at.stop), TimeOf(at.health),
      MetricValue(DetailOf(at.health), "output_requested"), MetricValue(DetailOf(at.health), "output_enabled"),
      MetricValue(DetailOf(at.health), "native_move_completion_pending"), at.reactivations)
  }

  function PostAcceptance(routes: seq<Route>, events: seq<Event>): seq<Event> {
    Filter(StableSort(events, EventOrder()), After(AcceptanceEnd(routes)))
  }

  /** `evaluate_records` */
  function Evaluate(routes: seq<Route>, events: seq<Event>, screen: Screen): Evaluation {
    var post := PostAcceptance(routes, events);
    var at := FindLandmarks(post);
    Evaluation(Judge(routes, screen, at), Measure(AcceptanceEnd(routes), at), |post|)
  }

  predicate AllHold(c: Checks) {
    && c.dualPhysicalAcceptanceBound && c.sameApkAndDeviceBound && c.safeIdleAfterPhysicalAcceptance
    && c.makcuRouteRestored && c.sideButton2Restored && c.formalUsageClosedLocally
    && c.formalUsageStopServerConfirmed && c.inferencePipelineStopped && c.controlOutputFailClosed
    && c.noPendingNativeMove && c.terminalHealthAfterRestoration && c.noLaterRuntimeReactivation
    && c.uiPackageScope && c.uiMakcuRoutePresent && c.uiOutputGateDisabled
  }

  // ---------- the order of the log does not matter

  ghost predicate DistinctKeys(events: seq<Event>) {
    forall x, y :: x in events && y in events && x.timestamp == y.timestamp && x.sequence == y.sequence ==> x == y
  }

  /** Events with distinct (timestamp, sequence) pairs may be logged in any order. */
  lemma OrderIrrelevant(routes: seq<Route>, screen: Screen, events: seq<Event>, shuffled: seq<Event>)
    requires multiset(events) == multiset(shuffled) && DistinctKeys(events)
    ensures Evaluate(routes, events, screen) == Evaluate(routes, shuffled, screen)
  {
    hide Judge, FindLandmarks, Measure;
    EventOrderIsTotal();
    SortIgnoresOrder(events, shuffled, EventOrder());
  }

  // ---------- irrelevant events do not matter

  function Relevant(): Event -> bool {
    (e: Event) => e.name in RELEVANT
  }

  lemma {:induction false} FilterImplied<T(!new)>(xs: seq<T>, weak: T -> bool, strong: T -> bool)
    requires forall x :: strong(x) ==> weak(x)
    ensures Filter(Filter(xs, weak), strong) == Filter(xs, strong)
  {
    if xs != [] {
      var init, last := xs[..|xs| - 1], xs[|xs| - 1];
      FilterImplied(init, weak, strong);
      if weak(last) {
        assert Filter(xs, weak) == Filter(init, weak) + [last];
        assert Filter(xs, weak)[..|Filter(xs, weak)| - 1] == Filter(init, weak);
      }
    }
  }

  lemma ReactivationsAreRelevant(e: Event)
    requires IsReactivation(e)
    ensures e.name in RELEVANT
  {
  }

  lemma LandmarksAreRelevant(post: seq<Event>)
    ensures FindLandmarks(Filter(post, Relevant())) == FindLandmarks(post)
  {
    hide HasToken, Contains, MetricValue, Filter, IsReactivation, Last, TimeOf, Latest;
    forall e | IsReactivation(e) ensures Relevant()(e) { ReactivationsAreRelevant(e); }
    FilterImplied(post, Relevant(), Named("mobile_control_output_route_selected"));
    FilterImplied(post, Relevant(), Named("control_trigger_applied"));
    FilterImplied(post, Relevant(), Named("dual_machine_formal_stop_finished"));
    FilterImplied(post, Relevant(), Named("mobile_runtime_phase_changed"));
    FilterImplied(post, Relevant(), ClosesFormalUsage());
    FilterImplied(post, Relevant(), LocksOutput());
    var at := FindLandmarks(post);
    FilterImplied(post, Relevant(), HealthFrom(TerminalEnd(at.route, at.trigger, at.stop, at.closed)));
    FilterImplied(post, Relevant(), ReactivatesAfter(TimeOf(at.stop)));
  }

  /** Dropping the events the log reader does not keep changes no check, and no metric but the count
      of events. */
  lemma IrrelevantDropped(routes: seq<Route>, events: seq<Event>, screen: Screen)
    ensures var all, kept := Evaluate(routes, events, screen), Evaluate(routes, Filter(events, Relevant()), screen);
      kept.checks == all.checks && kept.metrics == all.metrics && kept.postAcceptance <= all.postAcceptance
  {
    hide Judge, FindLandmarks, Measure, Filter;
    EventOrderIsTotal();
    FilterSortCommute(events, Relevant(), EventOrder());
    var sorted := StableSort(events, EventOrder());
    FilterFilter(sorted, Relevant(), After(AcceptanceEnd(routes)));
    LandmarksAreRelevant(PostAcceptance(routes, events));
  }

  // ---------- what the last event of a kind is

  /** An event of the trace behind the acceptance, with none of its kind ordered after it. */
  ghost predicate IsLatest(routes: seq<Route>, events: seq<Event>, kind: Event -> bool, e: Event) {
    && e in events && kind(e) && e.timestamp > AcceptanceEnd(routes)
    && forall other :: other in events && kind(other) ==> EventOrder()(other, e)
  }

  ghost predicate SomeOf(routes: seq<Route>, events: seq<Event>, kind: Event -> bool) {
    exists e :: e in events && kind(e) && e.timestamp > AcceptanceEnd(routes)
  }

  lemma PostMembers(routes: seq<Route>, events: seq<Event>, kind: Event -> bool, e: Event)
    ensures e in Filter(PostAcceptance(routes, events), kind)
      <==> e in events && kind(e) && e.timestamp > AcceptanceEnd(routes)
  {
    hide AcceptanceEnd, StableSort, Filter;
    EventOrderIsTotal();
    var sorted := StableSort(events, EventOrder());
    StableSortSorts(events, StableSort(events, EventOrder()), EventOrder());
    StableSortMembers(events, sorted, EventOrder(), e);
    FilterMembers(sorted, After(AcceptanceEnd(routes)));
    FilterMembers(PostAcceptance(routes, events), kind);
  }

  /** The scan over the sorted log finds the latest event of a kind, in terms of the unsorted log. */
  lemma LastIsLatest(routes: seq<Route>, events: seq<Event>, kind: Event -> bool)
    ensures var last := Last(Filter(PostAcceptance(routes, events), kind));
      (last.Some? <==> SomeOf(routes, events, kind)) && (last.Some? ==> IsLatest(routes, events, kind, last.value))
  {
    hide AcceptanceEnd, StableSort, Filter;
    var found := Filter(PostAcceptance(routes, events), kind);
    forall e ensures e in found <==> e in events && kind(e) && e.timestamp > AcceptanceEnd(routes) {
      PostMembers(routes, events, kind, e);
    }
    EventOrderIsTotal();
    StableSortSorts(events, StableSort(events, EventOrder()), EventOrder());
    FilterOrdered(StableSort(events, EventOrder()), After(AcceptanceEnd(routes)), EventOrder());
    FilterOrdered(PostAcceptance(routes, events), kind, EventOrder());
    if found != [] {
      var last := found[|found| - 1];
      assert last in found;
      forall other | other in events && kind(other) ensures EventOrder()(other, last) {
        if other in found {
          var i :| 0 <= i < |found| && found[i] == other;
        }
      }
    }
  }

  // ---------- no reactivation after the stop

  function Stops(): Event -> bool {
    Named("dual_machine_formal_stop_finished")
  }

  ghost predicate QuietAfter(routes: seq<Route>, events: seq<Event>, stop: Event) {
    stop.timestamp == 0 ||
    forall e :: e in events && e.timestamp > stop.timestamp && e.timestamp > AcceptanceEnd(routes) ==>
      !IsReactivation(e)
  }

  /** The check holds exactly when some latest stop is followed, at later times, by no reactivation. */
  lemma QuietExactly(routes: seq<Route>, events: seq<Event>, screen: Screen)
    ensures Evaluate(routes, events, screen).checks.noLaterRuntimeReactivation
      <==> exists stop :: IsLatest(routes, events, Stops(), stop) && QuietAfter(routes, events, stop)
  {
    hide Filter, PostAcceptance, AcceptanceEnd, IsReactivation, HasToken, MetricValue, RoutesBound;
    LastIsLatest(routes, events, Stops());
    var last := Last(Filter(PostAcceptance(routes, events), Stops()));
    if last.Some? {
      ReactivationsCounted(routes, events, last.value.timestamp);
      forall stop | IsLatest(routes, events, Stops(), stop) ensures stop.timestamp == last.value.timestamp {
        assert EventOrder()(stop, last.value) && EventOrder()(last.value, stop);
      }
    } else {
      forall stop ensures !IsLatest(routes, events, Stops(), stop) {
        assert IsLatest(routes, events, Stops(), stop) ==> SomeOf(routes, events, Stops());
      }
    }
  }

  lemma ReactivationsCounted(routes: seq<Route>, events: seq<Event>, time: int)
    ensures |Filter(PostAcceptance(routes, events), ReactivatesAfter(time))| == 0 <==>
      forall e :: e in events && e.timestamp > time && e.timestamp > AcceptanceEnd(routes) ==> !IsReactivation(e)
  {
    hide Filter, PostAcceptance, AcceptanceEnd, IsReactivation;
    var found := Filter(PostAcceptance(routes, events), ReactivatesAfter(time));
    forall e
      ensures e in found
        <==> e in events && e.timestamp > time && IsReactivation(e) && e.timestamp > AcceptanceEnd(routes)
    {
      PostMembers(routes, events, ReactivatesAfter(time), e);
    }
    if found != [] { assert found[0] in found; }
  }

  /** One more event that is no stop, logged anywhere, breaks the check exactly when it is a
      reactivation at a later time than the last stop. */
  lemma OneMoreEvent(routes: seq<Route>, before: seq<Event>, e: Event, behind: seq<Event>, screen: Screen, stop: Event)
    requires RoutesBound(routes) && !Stops()(e)
    requires IsLatest(routes, before + behind, Stops(), stop) && QuietAfter(routes, before + behind, stop)
    ensures Evaluate(routes, before + [e] + behind, screen).checks.noLaterRuntimeReactivation
      <==> !(IsReactivation(e) && e.timestamp > stop.timestamp)
  {
    hide AcceptanceEnd, IsReactivation, Evaluate, RoutesBound;
    var events := before + [e] + behind;
    BoundEndPositive(routes);
    QuietExactly(routes, events, screen);
    assert forall x :: x in events <==> x in before + behind || x == e;
    assert IsLatest(routes, events, Stops(), stop);
    forall other | IsLatest(routes, events, Stops(), other) ensures other.timestamp == stop.timestamp {
      assert EventOrder()(other, stop) && EventOrder()(stop, other);
    }
    if IsReactivation(e) && e.timestamp > stop.timestamp {
      assert e in events;
    } else {
      assert QuietAfter(routes, events, stop);
    }
  }

  /** From a log where every check holds, a reactivation later than all its events is always seen. */
  lemma LateReactivationSeen(routes: seq<Route>, events: seq<Event>, e: Event, screen: Screen)
    requires AllHold(Evaluate(routes, events, screen).checks)
    requires IsReactivation(e) && forall x :: x in events ==> x.timestamp < e.timestamp
    ensures !Evaluate(routes, events + [e], screen).checks.noLaterRuntimeReactivation
  {
    hide AcceptanceEnd, IsReactivation, RoutesBound, QuietAfter;
    QuietExactly(routes, events, screen);
    var stop :| IsLatest(routes, events, Stops(), stop) && QuietAfter(routes, events, stop);
    ReactivationIsNoStop(e);
    assert events + [] == events && events + [e] + [] == events + [e];
    OneMoreEvent(routes, events, e, [], screen, stop);
  }

  lemma ReactivationIsNoStop(e: Event)
    requires IsReactivation(e)
    ensures !Stops()(e)
  {
  }

  /** But times are compared without the sequence: a reactivation ordered after the stop within its
      millisecond goes unseen. */
  lemma SameMillisecondUnseen(routes: seq<Route>, events: seq<Event>, e: Event, screen: Screen, stop: Event)
    requires RoutesBound(routes) && IsLatest(routes, events, Stops(), stop) && QuietAfter(routes, events, stop)
    requires IsReactivation(e) && e.timestamp == stop.timestamp && e.sequence > stop.sequence
    ensures !EventOrder()(e, stop)
    ensures Evaluate(routes, events + [e], screen).checks.noLaterRuntimeReactivation
  {
    hide AcceptanceEnd, IsReactivation, RoutesBound, QuietAfter, Evaluate;
    ReactivationIsNoStop(e);
    assert events + [] == events && events + [e] + [] == events + [e];
    OneMoreEvent(routes, events, e, [], screen, stop);
  }

  // ---------- every check at once, without sorting

  datatype Ending = Ending(
    route: Event, trigger: Event, phase: Event, stop: Event, closed: Event, locked: Event, health: Event)

  function Max(a: int, b: int): int {
    if a >= b then a else b
  }

  function RestoredAt(w: Ending): int {
    Max(Max(w.route.timestamp, w.trigger.timestamp), Max(w.stop.timestamp, w.closed.timestamp))
  }

  predicate Idle(health: Event) {
    && (HasToken(health.detail, "phase", "ready") || HasToken(health.detail, "phase", "stopped"))
    && MetricValue(health.detail, "output_requested") == Some(0)
    && MetricValue(health.detail, "output_enabled") == Some(0)
    && MetricValue(health.detail, "native_move_completion_pending") == Some(0)
  }

  predicate Restored(w: Ending) {
    && HasToken(w.route.detail, "route", "makcu_usb") && HasToken(w.trigger.detail, "trigger", "mouse5")
    && (HasToken(w.phase.detail, "to", "ready") || HasToken(w.phase.detail, "to", "stopped"))
    && HasToken(w.stop.detail, "local_closed", "true") && HasToken(w.stop.detail, "server_confirmed", "true")
  }

  /** Behind the accepted physical run, the latest event of each kind is the restored one, the last
      health report behind them is idle, and nothing reactivates after the stop. */
  ghost predicate EndsSafely(routes: seq<Route>, events: seq<Event>, w: Ending) {
    && IsLatest(routes, events, Named("mobile_control_output_route_selected"), w.route)
    && IsLatest(routes, events, Named("control_trigger_applied"), w.trigger)
    && IsLatest(routes, events, Named("mobile_runtime_phase_changed"), w.phase)
    && IsLatest(routes, events, Stops(), w.stop)
    && IsLatest(routes, events, ClosesFormalUsage(), w.closed)
    && IsLatest(routes, events, LocksOutput(), w.locked)
    && IsLatest(routes, events, HealthFrom(RestoredAt(w)), w.health)
    && Restored(w) && Idle(w.health) && QuietAfter(routes, events, w.stop)
  }

  ghost predicate IsEnding(at: Landmarks, w: Ending) {
    && at.route == Some(w.route) && at.trigger == Some(w.trigger) && at.phase == Some(w.phase)
    && at.stop == Some(w.stop) && at.closed == Some(w.closed) && at.health == Some(w.health) && at.locked
  }

  /** With its landmarks found, a trace passes exactly when they are restored, idle and quiet. */
  lemma JudgedByEnding(routes: seq<Route>, screen: Screen, at: Landmarks, w: Ending)
    requires IsEnding(at, w)
    requires RoutesBound(routes)
    requires AfterEnd(at.route, AcceptanceEnd(routes)) && AfterEnd(at.trigger, AcceptanceEnd(routes))
    requires AfterEnd(at.stop, AcceptanceEnd(routes)) && AfterEnd(at.closed, AcceptanceEnd(routes))
    requires w.health.timestamp >= RestoredAt(w)
    ensures AllHold(Judge(routes, screen, at)) <==>
      Restored(w) && Idle(w.health) && at.reactivations == 0
      && screen.packageScope && screen.makcuRoutePresent && screen.outputGateDisabled
  {
    hide HasToken, MetricValue, AcceptanceEnd, RoutesBound;
    TerminalIsRestored(at, w);
  }

  lemma TerminalIsRestored(at: Landmarks, w: Ending)
    requires IsEnding(at, w)
    ensures TerminalEnd(at.route, at.trigger, at.stop, at.closed) == RestoredAt(w)
  {
  }

  lemma LatestUnique(routes: seq<Route>, events: seq<Event>, kind: Event -> bool, e: Event)
    requires DistinctKeys(events) && IsLatest(routes, events, kind, e)
    ensures Last(Filter(PostAcceptance(routes, events), kind)) == Some(e)
  {
    hide Filter, PostAcceptance, AcceptanceEnd;
    LastIsLatest(routes, events, kind);
    assert SomeOf(routes, events, kind);
    var last := Last(Filter(PostAcceptance(routes, events), kind)).value;
    assert EventOrder()(last, e) && EventOrder()(e, last);
  }

  /** Whatever passes every check ends safely. */
  lemma PassedEndsSafely(routes: seq<Route>, events: seq<Event>, screen: Screen) returns (w: Ending)
    requires AllHold(Evaluate(routes, events, screen).checks)
    ensures RoutesBound(routes) && EndsSafely(routes, events, w)
    ensures screen.packageScope && screen.makcuRoutePresent && screen.outputGateDisabled
  {
    hide Filter, PostAcceptance, AcceptanceEnd, HasToken, MetricValue, IsReactivation, RoutesBound, Last, IsLatest,
         QuietAfter, TerminalEnd;
    var post := PostAcceptance(routes, events);
    var at := FindLandmarks(post);
    LockFound(routes, events);
    var locked := Last(Filter(post, LocksOutput())).value;
    w := Ending(at.route.value, at.trigger.value, at.phase.value, at.stop.value, at.closed.value, locked,
      at.health.value);
    TerminalIsRestored(at, w);
    LastIsLatest(routes, events, Named("mobile_control_output_route_selected"));
    LastIsLatest(routes, events, Named("control_trigger_applied"));
    LastIsLatest(routes, events, Named("mobile_runtime_phase_changed"));
    LastIsLatest(routes, events, Stops());
    LastIsLatest(routes, events, ClosesFormalUsage());
    LastIsLatest(routes, events, LocksOutput());
    LastIsLatest(routes, events, HealthFrom(RestoredAt(w)));
    QuietFound(routes, events, w.stop);
  }

  lemma LockFound(routes: seq<Route>, events: seq<Event>)
    ensures Filter(PostAcceptance(routes, events), LocksOutput()) != []
      <==> Last(Filter(PostAcceptance(routes, events), LocksOutput())).Some?
  {
  }

  lemma QuietFound(routes: seq<Route>, events: seq<Event>, stop: Event)
    requires FindLandmarks(PostAcceptance(routes, events)).stop == Some(stop)
    ensures FindLandmarks(PostAcceptance(routes, events)).reactivations == 0 <==> QuietAfter(routes, events, stop)
  {
    hide Filter, PostAcceptance, AcceptanceEnd, IsReactivation, Last, TerminalEnd;
    ReactivationsCounted(routes, events, stop.timestamp);
  }

  /** Whatever ends safely passes every check. */
  lemma EndsSafelyPasses(routes: seq<Route>, events: seq<Event>, screen: Screen, w: Ending)
    requires DistinctKeys(events) && RoutesBound(routes) && EndsSafely(routes, events, w)
    requires screen.packageScope && screen.makcuRoutePresent && screen.outputGateDisabled
    ensures AllHold(Evaluate(routes, events, screen).checks)
  {
    hide Filter, PostAcceptance, AcceptanceEnd, HasToken, MetricValue, IsReactivation, RoutesBound, Last, QuietAfter,
         TerminalEnd, Judge;
    LatestUnique(routes, events, Named("mobile_control_output_route_selected"), w.route);
    LatestUnique(routes, events, Named("control_trigger_applied"), w.trigger);
    LatestUnique(routes, events, Named("mobile_runtime_phase_changed"), w.phase);
    LatestUnique(routes, events, Stops(), w.stop);
    LatestUnique(routes, events, ClosesFormalUsage(), w.closed);
    LatestUnique(routes, events, LocksOutput(), w.locked);
    LatestUnique(routes, events, HealthFrom(RestoredAt(w)), w.health);
    LockFound(routes, events);
    var at := FindLandmarks(PostAcceptance(routes, events));
    HealthKind(at, w);
    QuietFound(routes, events, w.stop);
    JudgedByEnding(routes, screen, at, w);
  }

  lemma HealthKind(at: Landmarks, w: Ending)
    requires at.route == Some(w.route) && at.trigger == Some(w.trigger) && at.stop == Some(w.stop)
      && at.closed == Some(w.closed)
    ensures TerminalEnd(at.route, at.trigger, at.stop, at.closed) == RestoredAt(w)
  {
  }

  /** Every check holds exactly for the traces that end safely. */
  lemma SafeExactly(routes: seq<Route>, events: seq<Event>, screen: Screen)
    requires DistinctKeys(events)
    ensures AllHold(Evaluate(routes, events, screen).checks) <==>
      RoutesBound(routes) && screen == Screen(true, true, true) && exists w :: EndsSafely(routes, events, w)
  {
    hide Evaluate, RoutesBound, AllHold, EndsSafely;
    if AllHold(Evaluate(routes, events, screen).checks) {
      var w := PassedEndsSafely(routes, events, screen);
    }
    if RoutesBound(routes) && screen == Screen(true, true, true) && exists w :: EndsSafely(routes, events, w) {
      var w :| EndsSafely(routes, events, w);
      EndsSafelyPasses(routes, events, screen, w);
    }
  }
}
