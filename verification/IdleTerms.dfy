/** The safe ending in plain words: what a detail text must contain, which events reactivate, and what the
    log must hold, without the functions that search it. */
module IdleTerms {
  import opened Wrappers
  import opened StableSorting
  import opened SafeIdle
  import Characters
  import JsonText
  import Names

  // ---------- detail texts

  /** What a word may be continued by: ASCII letters, digits and the underscore. */
  predicate Continues(c: char) {
    c == '_' || '0' <= c <= '9' || 'A' <= c <= 'Z' || 'a' <= c <= 'z'
  }

  /** `before` is followed by a word of its own. */
  predicate BreaksWord(before: string) {
    before == "" || !Continues(before[|before| - 1])
  }

  /** The text says `key=value`: no longer key, no longer value. */
  ghost predicate Says(detail: string, key: string, value: string) {
    exists before, after :: SaysBetween(detail, key + "=" + value, before, after)
  }

  ghost predicate SaysBetween(detail: string, word: string, before: string, after: string) {
    && detail == before + word + after && BreaksWord(before)
    && (after == "" || Characters.Space(after[0]))
  }

  lemma SaysExactly(detail: string, key: string, value: string)
    ensures HasToken(detail, key, value) <==> Says(detail, key, value)
  {
    hide Characters.Space, SaysBetween;
    var word := key + "=" + value;
    if HasToken(detail, key, value) {
      var i :| 0 <= i <= |detail| && WordAt(detail, word, i)
        && (i + |word| == |detail| || Characters.Space(detail[i + |word|]));
      SaysThere(detail, word, i);
    }
    if before, after :| SaysBetween(detail, word, before, after) {
      SaysAt(detail, word, before, after);
    }
  }

  lemma SaysThere(detail: string, word: string, i: nat)
    requires i <= |detail| && WordAt(detail, word, i)
    requires i + |word| == |detail| || Characters.Space(detail[i + |word|])
    ensures SaysBetween(detail, word, detail[..i], detail[i + |word|..])
  {
    hide Characters.Space;
    assert detail == detail[..i] + word + detail[i + |word|..];
  }

  lemma SaysAt(detail: string, word: string, before: string, after: string)
    requires SaysBetween(detail, word, before, after)
    ensures var i := |before|;
      && i <= |detail| && WordAt(detail, word, i)
      && (i + |word| == |detail| || Characters.Space(detail[i + |word|]))
  {
    hide Characters.Space;
    var i := |before|;
    assert detail[i..i + |word|] == word;
    assert i > 0 ==> detail[i - 1] == before[i - 1];
    assert after != "" ==> detail[i + |word|] == after[0];
  }

  // ---------- numbers

  /** A text begins with a whole number in digits, perhaps behind a minus sign, and no digit follows. */
  ghost predicate BeginsWith(text: string, n: int) {
    exists sign, digits, after :: NumberParts(text, sign, digits, after, n)
  }

  ghost predicate NumberParts(text: string, sign: string, digits: string, after: string, n: int) {
    && (sign == "" || sign == "-") && digits != "" && Names.AllDigits(digits)
    && text == sign + (digits + after) && (after == "" || !('0' <= after[0] <= '9'))
    && n == if sign == "-" then 0 - Names.DecimalValue(digits) else Names.DecimalValue(digits)
  }

  lemma {:induction false} DigitRunExactly(text: string, n: nat)
    requires n <= |text|
    ensures JsonText.DigitRun(text) == n <==> Names.AllDigits(text[..n]) && (n < |text| ==> !('0' <= text[n] <= '9'))
  {
    var run := JsonText.DigitRun(text);
    if n < run { assert text[n] == text[..run][n]; }
    if run < n { assert text[run] == text[..n][run]; }
  }

  lemma LeadingExactly(text: string, n: int)
    ensures LeadingNumber(text) == Some(n) <==> BeginsWith(text, n)
  {
    hide NumberParts, LeadingNumber;
    if LeadingNumber(text) == Some(n) { LeadingBegins(text, n); }
    if sign, digits, after :| NumberParts(text, sign, digits, after, n) {
      BeginningLeads(text, sign, digits, after, n);
    }
  }

  lemma LeadingBegins(text: string, n: int)
    requires LeadingNumber(text) == Some(n)
    ensures BeginsWith(text, n)
  {
    var sign := if text != "" && text[0] == '-' then "-" else "";
    var unsigned := text[|sign|..];
    var run := JsonText.DigitRun(unsigned);
    var digits, after := unsigned[..run], unsigned[run..];
    LeadingParts(text, n, sign, digits, after);
    assert NumberParts(text, sign, digits, after, n);
  }

  lemma LeadingParts(text: string, n: int, sign: string, digits: string, after: string)
    requires LeadingNumber(text) == Some(n)
    requires sign == if text != "" && text[0] == '-' then "-" else ""
    requires digits == text[|sign|..][..JsonText.DigitRun(text[|sign|..])]
    requires after == text[|sign|..][JsonText.DigitRun(text[|sign|..])..]
    ensures NumberParts(text, sign, digits, after, n)
  {
    hide Names.DecimalValue, JsonText.DigitRun, Names.AllDigits;
    var unsigned := text[|sign|..];
    assert text == sign + unsigned && unsigned == digits + after;
    if sign == "" { assert text[0..] == text; }
  }

  lemma BeginningLeads(text: string, sign: string, digits: string, after: string, n: int)
    requires NumberParts(text, sign, digits, after, n)
    ensures LeadingNumber(text) == Some(n)
  {
    var unsigned := digits + after;
    assert unsigned[..|digits|] == digits && unsigned[|digits|..] == after;
    DigitRunExactly(unsigned, |digits|);
    assert Names.IsDigit(digits[0]) && unsigned[0] == digits[0];
    hide Names.DecimalValue, JsonText.DigitRun, Names.AllDigits;
    if sign == "-" { assert text[1..] == unsigned; } else { assert text == unsigned; }
  }

  /** A number stands at `i` behind `word`, which is no end of a longer word. */
  ghost predicate NumberAt(detail: string, word: string, i: int, n: int) {
    && 0 <= i <= |detail| && BreaksWord(detail[..i])
    && word <= detail[i..] && BeginsWith(detail[i..][|word|..], n)
  }

  /** The last number said of a key. */
  ghost predicate LastNumber(detail: string, key: string, n: int) {
    exists i :: NumberAt(detail, key + "=", i, n) && forall j, m | j > i :: !NumberAt(detail, key + "=", j, m)
  }

  lemma NumberAtExactly(detail: string, word: string, i: nat, n: int)
    requires i <= |detail|
    ensures NumberAt(detail, word, i, n)
       <==> WordAt(detail, word, i) && LeadingNumber(detail[i + |word|..]) == Some(n)
  {
    hide BeginsWith, LeadingNumber;
    if word <= detail[i..] {
      assert detail[i..][|word|..] == detail[i + |word|..];
      assert detail[i..i + |word|] == detail[i..][..|word|] == word;
      LeadingExactly(detail[i + |word|..], n);
    }
    if WordAt(detail, word, i) { assert detail[i..][..|word|] == word; }
  }

  ghost predicate LastBefore(detail: string, word: string, n: int, value: int, i: int) {
    && 0 <= i < n && NumberAt(detail, word, i, value)
    && forall j, m | i < j < n :: !NumberAt(detail, word, j, m)
  }

  lemma {:induction false} LastMetricExactly(detail: string, word: string, n: nat, value: int)
    requires n <= |detail| && word != ""
    ensures LastMetric(detail, word, n) == Some(value) <==> exists i :: LastBefore(detail, word, n, value, i)
  {
    hide NumberAt, LeadingNumber;
    if n > 0 {
      var last := n - 1;
      LastMetricExactly(detail, word, last, value);
      forall m ensures NumberAt(detail, word, last, m)
        <==> WordAt(detail, word, last) && LeadingNumber(detail[last + |word|..]) == Some(m)
      {
        NumberAtExactly(detail, word, last, m);
      }
      if WordAt(detail, word, last) && LeadingNumber(detail[last + |word|..]).Some? {
        var m := LeadingNumber(detail[last + |word|..]).value;
        assert NumberAt(detail, word, last, m);
        assert LastBefore(detail, word, n, m, last);
      } else {
        assert forall i :: LastBefore(detail, word, n, value, i) <==> LastBefore(detail, word, last, value, i);
      }
    }
  }

  /** The metric is the last number said of its key. */
  lemma MetricExactly(detail: string, key: string, n: int)
    ensures MetricValue(detail, key) == Some(n) <==> LastNumber(detail, key, n)
  {
    hide LastMetric, LeadingNumber, BeginsWith;
    var word := key + "=";
    LastMetricExactly(detail, word, |detail|, n);
    forall j, m ensures NumberAt(detail, word, j, m) ==> 0 <= j < |detail| {
      if NumberAt(detail, word, j, m) { assert |word| <= |detail[j..]|; }
    }
    assert forall i :: (LastBefore(detail, word, |detail|, n, i)
                        <==> NumberAt(detail, word, i, n) && forall j, m | j > i :: !NumberAt(detail, word, j, m));
  }

  // ---------- reactivations

  ghost predicate AboveZero(detail: string, key: string) {
    exists n :: n > 0 && LastNumber(detail, key, n)
  }

  ghost predicate Reactivates(e: Event) {
    || e.name == "dual_machine_formal_data_plane_continued" || e.name == "dual_machine_formal_data_plane_opened"
    || e.name == "dual_machine_formal_start_exact_retry" || e.name == "dual_machine_formal_start_recovered"
    || (e.name == "mobile_runtime_phase_changed"
        && (Says(e.detail, "to", "starting") || Says(e.detail, "to", "running")))
    || (e.name == "mobile_runtime_health"
        && (Says(e.detail, "phase", "running")
            || AboveZero(e.detail, "output_requested") || AboveZero(e.detail, "output_enabled")))
  }

  lemma AboveZeroExactly(detail: string, key: string)
    ensures Positive(MetricValue(detail, key)) <==> AboveZero(detail, key)
  {
    hide MetricValue, LastNumber;
    forall n ensures MetricValue(detail, key) == Some(n) <==> LastNumber(detail, key, n) {
      MetricExactly(detail, key, n);
    }
  }

  lemma ReactivationExactly(e: Event)
    ensures IsReactivation(e) <==> Reactivates(e)
  {
    hide HasToken, Says, MetricValue, AboveZero, Positive;
    SaysExactly(e.detail, "to", "starting");
    SaysExactly(e.detail, "to", "running");
    SaysExactly(e.detail, "phase", "running");
    AboveZeroExactly(e.detail, "output_requested");
    AboveZeroExactly(e.detail, "output_enabled");
  }

  /** The names the log reader keeps. */
  lemma RelevantExactly(name: string)
    ensures name in RELEVANT <==>
      || name == "control_output_auto_locked" || name == "control_trigger_applied"
      || name == "dual_machine_formal_data_plane_continued" || name == "dual_machine_formal_data_plane_opened"
      || name == "dual_machine_formal_start_exact_retry" || name == "dual_machine_formal_start_recovered"
      || name == "dual_machine_formal_stop_failed" || name == "dual_machine_formal_stop_finished"
      || name == "mobile_control_output_fail_closed" || name == "mobile_control_output_route_command"
      || name == "mobile_control_output_route_selected" || name == "mobile_pipeline_stop_requested"
      || name == "mobile_pipeline_stopped" || name == "mobile_runtime_health"
      || name == "mobile_runtime_phase_changed" || name == "mobile_runtime_service_started"
  {
  }

  // ---------- the end of the physical acceptance

  /** The largest end among the routes that are there, 0 when none is. */
  lemma AcceptanceEndExactly(routes: seq<Route>, end: int)
    ensures AcceptanceEnd(routes) == end
       <==> && (forall r | r in routes && r.Present? :: r.end <= end)
            && (if exists r :: r in routes && r.Present? then exists r :: r in routes && r.Present? && r.end == end
                else end == 0)
  {
    var ends := Filter(routes, (r: Route) => r.Present?);
    PresentEnds(routes);
    if ends != [] {
      assert ends[0] in ends;
      MaxEndExactly(ends);
    }
  }

  lemma PresentEnds(routes: seq<Route>)
    ensures var ends := Filter(routes, (r: Route) => r.Present?);
      && AcceptanceEnd(routes) == (if ends == [] then 0 else MaxEnd(ends))
      && forall r :: r in ends <==> r in routes && r.Present?
  {
    FilterMembers(routes, (r: Route) => r.Present?);
  }

  lemma {:induction false} MaxEndExactly(routes: seq<Route>)
    requires routes != [] && forall r | r in routes :: r.Present?
    ensures forall r | r in routes :: r.end <= MaxEnd(routes)
    ensures exists r :: r in routes && r.end == MaxEnd(routes)
  {
    var last := |routes| - 1;
    assert routes == routes[..last] + [routes[last]];
    assert routes[last] in routes;
    if last > 0 { MaxEndExactly(routes[..last]); }
  }

  /** There are routes, and the evidence of each is there, matches, is valid and ends after 0. */
  ghost predicate AllBound(routes: seq<Route>) {
    routes != [] && forall r | r in routes :: r.Present? && r.digestMatches && r.valid && r.end > 0
  }

  ghost predicate BehindAll(routes: seq<Route>, time: int) {
    forall r | r in routes && r.Present? :: time > r.end
  }

  lemma BehindExactly(routes: seq<Route>, time: int)
    requires AllBound(routes)
    ensures time > AcceptanceEnd(routes) <==> BehindAll(routes, time)
  {
    hide AcceptanceEnd;
    AcceptanceEndExactly(routes, AcceptanceEnd(routes));
    assert routes[0] in routes;
  }

  // ---------- the whole judgement

  /** The event is of this kind and behind the acceptance, and none of the kind is ordered after it. */
  ghost predicate LastSuch(routes: seq<Route>, events: seq<Event>, kind: Event -> bool, e: Event) {
    && e in events && kind(e) && BehindAll(routes, e.timestamp)
    && forall other | other in events && kind(other) ::
         other.timestamp < e.timestamp || (other.timestamp == e.timestamp && other.sequence <= e.sequence)
  }

  ghost function Called(name: string): Event -> bool {
    (e: Event) => e.name == name
  }

  ghost function Closing(): Event -> bool {
    (e: Event) => e.name == "mobile_runtime_phase_changed" && Says(e.detail, "to", "ready")
                  && Holds(e.detail, "reason=formal_usage_closed")
  }

  ghost predicate Holds(text: string, word: string) {
    exists before, after :: text == before + word + after
  }

  ghost function Locking(): Event -> bool {
    (e: Event) => e.name == "control_output_auto_locked" || e.name == "mobile_control_output_fail_closed"
  }

  /** Health reports no earlier than any of the four restoring events. */
  ghost function HealthBehind(w: Ending): Event -> bool {
    (e: Event) => e.name == "mobile_runtime_health"
                  && e.timestamp >= w.route.timestamp && e.timestamp >= w.trigger.timestamp
                  && e.timestamp >= w.stop.timestamp && e.timestamp >= w.closed.timestamp
  }

  /** The route, the trigger, the phase and the stop say what a restored device says. */
  ghost predicate RestoredSaid(w: Ending) {
    && Says(w.route.detail, "route", "makcu_usb") && Says(w.trigger.detail, "trigger", "mouse5")
    && (Says(w.phase.detail, "to", "ready") || Says(w.phase.detail, "to", "stopped"))
    && Says(w.stop.detail, "local_closed", "true") && Says(w.stop.detail, "server_confirmed", "true")
  }

  ghost predicate SafeEnding(routes: seq<Route>, events: seq<Event>, w: Ending) {
    && LastSuch(routes, events, Called("mobile_control_output_route_selected"), w.route)
    && LastSuch(routes, events, Called("control_trigger_applied"), w.trigger)
    && LastSuch(routes, events, Called("mobile_runtime_phase_changed"), w.phase)
    && LastSuch(routes, events, Called("dual_machine_formal_stop_finished"), w.stop)
    && LastSuch(routes, events, Closing(), w.closed)
    && RestoredSaid(w)
    && LastSuch(routes, events, Locking(), w.locked)
    && LastSuch(routes, events, HealthBehind(w), w.health) && IdleHealth(w.health.detail)
    && forall e | e in events && e.timestamp > w.stop.timestamp :: !Reactivates(e)
  }

  ghost predicate IdleHealth(detail: string) {
    && (Says(detail, "phase", "ready") || Says(detail, "phase", "stopped"))
    && LastNumber(detail, "output_requested", 0) && LastNumber(detail, "output_enabled", 0)
    && LastNumber(detail, "native_move_completion_pending", 0)
  }

  lemma LatestIsLast(routes: seq<Route>, events: seq<Event>, kind: Event -> bool, said: Event -> bool, e: Event)
    requires AllBound(routes) && forall x :: kind(x) <==> said(x)
    ensures IsLatest(routes, events, kind, e) <==> LastSuch(routes, events, said, e)
  {
    hide AcceptanceEnd, BehindAll;
    BehindExactly(routes, e.timestamp);
  }

  lemma HoldsExactly(text: string, word: string)
    ensures Contains(text, word) <==> Holds(text, word)
  {
    if Contains(text, word) {
      var i :| 0 <= i <= |text| && word <= text[i..];
      assert text == text[..i] + word + text[i..][|word|..];
    }
    if before, after :| text == before + word + after {
      assert text[|before|..] == word + after;
      assert word <= text[|before|..];
    }
  }

  lemma ClosingExactly(e: Event)
    ensures ClosesFormalUsage()(e) <==> Closing()(e)
  {
    hide HasToken, Contains, Says, Holds;
    SaysExactly(e.detail, "to", "ready");
    HoldsExactly(e.detail, "reason=formal_usage_closed");
  }

  lemma IdleExactly(health: Event)
    ensures Idle(health) <==> IdleHealth(health.detail)
  {
    hide HasToken, Says, MetricValue, LastNumber;
    SaysExactly(health.detail, "phase", "ready");
    SaysExactly(health.detail, "phase", "stopped");
    MetricExactly(health.detail, "output_requested", 0);
    MetricExactly(health.detail, "output_enabled", 0);
    MetricExactly(health.detail, "native_move_completion_pending", 0);
  }

  lemma RestoredExactly(w: Ending)
    ensures Restored(w) <==> RestoredSaid(w)
  {
    hide HasToken, Says;
    SaysExactly(w.route.detail, "route", "makcu_usb");
    SaysExactly(w.trigger.detail, "trigger", "mouse5");
    SaysExactly(w.phase.detail, "to", "ready");
    SaysExactly(w.phase.detail, "to", "stopped");
    SaysExactly(w.stop.detail, "local_closed", "true");
    SaysExactly(w.stop.detail, "server_confirmed", "true");
  }

  lemma QuietInWords(routes: seq<Route>, events: seq<Event>, stop: Event)
    requires AllBound(routes) && BehindAll(routes, stop.timestamp)
    ensures QuietAfter(routes, events, stop)
       <==> forall e | e in events && e.timestamp > stop.timestamp :: !Reactivates(e)
  {
    hide AcceptanceEnd, IsReactivation, Reactivates;
    BehindExactly(routes, stop.timestamp);
    assert routes[0] in routes;
    forall e ensures IsReactivation(e) <==> Reactivates(e) { ReactivationExactly(e); }
  }

  lemma EndingInWords(routes: seq<Route>, events: seq<Event>, w: Ending)
    requires AllBound(routes)
    ensures EndsSafely(routes, events, w) <==> SafeEnding(routes, events, w)
  {
    hide Restored, RestoredSaid, Idle, IdleHealth, QuietAfter, IsLatest, LastSuch, Closing, ClosesFormalUsage,
         Says, HasToken, Contains, Reactivates;
    forall e ensures ClosesFormalUsage()(e) <==> Closing()(e) { ClosingExactly(e); }
    LatestIsLast(routes, events, Named("mobile_control_output_route_selected"),
                 Called("mobile_control_output_route_selected"), w.route);
    LatestIsLast(routes, events, Named("control_trigger_applied"), Called("control_trigger_applied"), w.trigger);
    LatestIsLast(routes, events, Named("mobile_runtime_phase_changed"), Called("mobile_runtime_phase_changed"),
                 w.phase);
    LatestIsLast(routes, events, Stops(), Called("dual_machine_formal_stop_finished"), w.stop);
    LatestIsLast(routes, events, ClosesFormalUsage(), Closing(), w.closed);
    LatestIsLast(routes, events, LocksOutput(), Locking(), w.locked);
    LatestIsLast(routes, events, HealthFrom(RestoredAt(w)), HealthBehind(w), w.health);
    RestoredExactly(w);
    IdleExactly(w.health);
    if LastSuch(routes, events, Called("dual_machine_formal_stop_finished"), w.stop) {
      LastIsBehind(routes, events, Called("dual_machine_formal_stop_finished"), w.stop);
      QuietInWords(routes, events, w.stop);
    }
  }

  lemma LastIsBehind(routes: seq<Route>, events: seq<Event>, kind: Event -> bool, e: Event)
    requires LastSuch(routes, events, kind, e)
    ensures BehindAll(routes, e.timestamp)
  {
  }

  /** Every check holds exactly when the routes are bound, the screen shows the three facts, and the log has
      a safe ending in these words. */
  lemma SafeInWords(routes: seq<Route>, events: seq<Event>, screen: Screen)
    requires DistinctKeys(events)
    ensures Evaluate(routes, events, screen).checks
         == Checks(true, true, true, true, true, true, true, true, true, true, true, true, true, true, true)
       <==> && AllBound(routes) && screen == Screen(true, true, true)
            && exists w :: SafeEnding(routes, events, w)
  {
    hide Evaluate, EndsSafely, SafeEnding, RoutesBound;
    SafeExactly(routes, events, screen);
    BoundSame(routes);
    if AllBound(routes) {
      forall w ensures EndsSafely(routes, events, w) <==> SafeEnding(routes, events, w) {
        EndingInWords(routes, events, w);
      }
    }
  }

  lemma BoundSame(routes: seq<Route>)
    ensures RoutesBound(routes) <==> AllBound(routes)
  {
  }

  // ---------- the numbers of the report

  /** `time` is that of the latest event of the kind, and 0 when there is none. */
  ghost predicate TimeOfLatest(routes: seq<Route>, events: seq<Event>, kind: Event -> bool, time: int) {
    if SomeOf(routes, events, kind) then exists e :: IsLatest(routes, events, kind, e) && time == e.timestamp
    else time == 0
  }

  lemma TimeExactly(routes: seq<Route>, events: seq<Event>, kind: Event -> bool)
    ensures TimeOfLatest(routes, events, kind, TimeOf(Last(Filter(PostAcceptance(routes, events), kind))))
  {
    hide Filter, PostAcceptance, IsLatest, SomeOf, Last;
    LastIsLatest(routes, events, kind);
  }

  /** The reported times are those of the latest route, trigger, closing and stop, and of the latest health
      report no earlier than all four. */
  lemma TimesExactly(routes: seq<Route>, events: seq<Event>, screen: Screen)
    ensures var m := Evaluate(routes, events, screen).metrics;
      && m.acceptanceEnd == AcceptanceEnd(routes)
      && TimeOfLatest(routes, events, Named("mobile_control_output_route_selected"), m.lastRouteAt)
      && TimeOfLatest(routes, events, Named("control_trigger_applied"), m.lastTriggerAt)
      && TimeOfLatest(routes, events, ClosesFormalUsage(), m.formalClosedAt)
      && TimeOfLatest(routes, events, Stops(), m.formalStopAt)
      && exists terminal ::
           && TimeOfLatest(routes, events, HealthFrom(terminal), m.terminalHealthAt)
           && (m.acceptanceEnd >= 0 ==>
                 terminal == Max(Max(m.lastRouteAt, m.lastTriggerAt), Max(m.formalStopAt, m.formalClosedAt)))
  {
    hide Filter, PostAcceptance, IsLatest, SomeOf, Last, AcceptanceEnd, Judge, TimeOfLatest, TerminalEnd,
         ClosesFormalUsage;
    TimeExactly(routes, events, Named("mobile_control_output_route_selected"));
    TimeExactly(routes, events, Named("control_trigger_applied"));
    TimeExactly(routes, events, ClosesFormalUsage());
    TimeExactly(routes, events, Stops());
    var at := FindLandmarks(PostAcceptance(routes, events));
    var terminal := TerminalEnd(at.route, at.trigger, at.stop, at.closed);
    TimeExactly(routes, events, HealthFrom(terminal));
    if AcceptanceEnd(routes) >= 0 {
      LandmarksBehind(routes, events);
      TerminalIsMax(at);
    }
  }

  lemma LandmarksBehind(routes: seq<Route>, events: seq<Event>)
    ensures var at := FindLandmarks(PostAcceptance(routes, events));
      && LaterThan(at.route, AcceptanceEnd(routes)) && LaterThan(at.trigger, AcceptanceEnd(routes))
      && LaterThan(at.stop, AcceptanceEnd(routes)) && LaterThan(at.closed, AcceptanceEnd(routes))
  {
    hide Filter, PostAcceptance, SomeOf, Last, AcceptanceEnd, TerminalEnd, ClosesFormalUsage;
    LastIsLatest(routes, events, Named("mobile_control_output_route_selected"));
    LastIsLatest(routes, events, Named("control_trigger_applied"));
    LastIsLatest(routes, events, ClosesFormalUsage());
    LastIsLatest(routes, events, Stops());
  }

  predicate LaterThan(event: Option<Event>, end: int) {
    event.Some? ==> event.value.timestamp > end
  }

  lemma TerminalIsMax(at: Landmarks)
    requires LaterThan(at.route, 0) && LaterThan(at.trigger, 0) && LaterThan(at.stop, 0) && LaterThan(at.closed, 0)
    ensures TerminalEnd(at.route, at.trigger, at.stop, at.closed)
         == Max(Max(TimeOf(at.route), TimeOf(at.trigger)), Max(TimeOf(at.stop), TimeOf(at.closed)))
  {
  }

  /** How many events are behind the acceptance, and how many of them reactivate after the stop. */
  lemma CountsExactly(routes: seq<Route>, events: seq<Event>, screen: Screen)
    ensures var e := Evaluate(routes, events, screen);
      && e.postAcceptance == |Filter(events, After(AcceptanceEnd(routes)))|
      && e.metrics.laterReactivations
         == (if e.metrics.formalStopAt == 0 then 0
             else |Filter(Filter(events, After(AcceptanceEnd(routes))), ReactivatesAfter(e.metrics.formalStopAt))|)
  {
    hide Filter, AcceptanceEnd, Judge, IsReactivation, Last, ClosesFormalUsage;
    EventOrderIsTotal();
    var end := AcceptanceEnd(routes);
    var post := Filter(events, After(end));
    FilterSortCommute(events, After(end), EventOrder());
    StableSortLength(post, EventOrder());
    var time := TimeOf(FindLandmarks(PostAcceptance(routes, events)).stop);
    FilterSortCommute(post, ReactivatesAfter(time), EventOrder());
    StableSortLength(Filter(post, ReactivatesAfter(time)), EventOrder());
  }
}
