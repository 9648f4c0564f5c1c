/** One formal acceptance run: which commands run, which reports are written and how it ends,
    tools/run_formal_release_acceptance.py; and the checks its report meets in
    tools/package_formal_release_bundle.py. */
module Acceptance {
  import opened Wrappers
  import opened InstallerCommand
  import opened StableSorting
  import opened Picking

  datatype Stage = Signing | Builder | ApkPreflight | DevicePreflight | Installer | BundleVerifier | Packager

  /** The order in which blockers are reported. */
  const STAGES: seq<Stage> := [Signing, Builder, ApkPreflight, DevicePreflight, Installer, BundleVerifier, Packager]

  datatype CommandResult = CommandResult(cmd: Command, code: int)

  type Results = map<Stage, CommandResult>

  /** What a run is asked for; `disk` is what an earlier run left at the report's place. */
  datatype Inputs = Inputs(request: Request, apk: string, buildApk: bool, bundleReport: string, signingGiven: bool,
                           disk: Disk)

  /** How looking at files a command left behind turns out. */
  datatype Check = Valid | Invalid | Raising

  /** How writing the report's file turns out: the second and third raise, before and after the old
      file is gone. */
  datatype Write = Written | Unopened | Cut

  /** What the world answers: whether the output directory can be made; the exit code of each command,
      none when running it raises (a timeout); the APK the builder's output and report lead to, if
      any; the evidence path the installer prints, empty for none, and where staging puts it, if it
      succeeds; the verifier's report and the packaged bundle; whether reading the packager's own
      report raises, and the device preflight's, a JSON text that is no object; and how each write
      of the run goes. */
  datatype World = World(
    directory: bool, code: Stage -> Option<int>, builtApk: Option<string>, evidence: string, staged: Option<string>,
    bundleReport: Check, bundle: Check, rejectionRaises: bool, deviceReportOdd: bool, write: nat -> Write)

  datatype Report = Report(
    ok: bool, apk: string, request: Request, deviceEvidence: string, bundleReport: string, results: Results,
    blockers: seq<Stage>, nextActions: seq<Stage>)

  /** What stands at the report's place. */
  datatype Disk = Absent | Unreadable | Holds(report: Report)

  predicate SaysOk(disk: Disk) {
    disk.Holds? && disk.report.ok
  }

  // ---------- what a report says

  predicate Failed(results: Results, stage: Stage) {
    stage in results && results[stage].code != 0
  }

  /** `_release_blockers`, by stage. */
  method ReleaseBlockers(results: Results) returns (blockers: seq<Stage>)
    ensures forall stage :: stage in blockers <==> Failed(results, stage)
    ensures Distinct(blockers) && BlockersOf(results, blockers)
  {
    hide Picked;
    blockers := [];
    for n := 0 to |STAGES|
      invariant blockers == Filter(STAGES[..n], FailedIn(results))
      invariant forall stage :: stage in blockers <==> stage in STAGES[..n] && Failed(results, stage)
      invariant Distinct(blockers)
    {
      StagesDiffer(n);
      assert STAGES[..n + 1] == STAGES[..n] + [STAGES[n]];
      if STAGES[n] in results && results[STAGES[n]].code != 0 { blockers := blockers + [STAGES[n]]; }
    }
    forall stage: Stage ensures stage in STAGES[..|STAGES|] { AllStages(stage); }
    assert STAGES[..|STAGES|] == STAGES;
    FilterPicks(STAGES, blockers, FailedIn(results));
  }

  function FailedIn(results: Results): Stage -> bool {
    (stage: Stage) => stage in results && results[stage].code != 0
  }

  /** The stages that failed, in the order of the report. */
  ghost predicate BlockersOf(results: Results, blockers: seq<Stage>) {
    Picked([Signing, Builder, ApkPreflight, DevicePreflight, Installer, BundleVerifier, Packager], blockers,
           FailedIn(results))
  }

  ghost predicate Distinct(stages: seq<Stage>) {
    forall i, j :: 0 <= i < j < |stages| ==> stages[i] != stages[j]
  }

  lemma StagesDiffer(n: nat)
    requires n < |STAGES|
    ensures STAGES[n] !in STAGES[..n]
  {
  }

  lemma AllStages(stage: Stage)
    ensures stage in STAGES[..|STAGES|]
  {
    assert STAGES[0] == Signing && STAGES[1] == Builder && STAGES[2] == ApkPreflight && STAGES[3] == DevicePreflight;
    assert STAGES[4] == Installer && STAGES[5] == BundleVerifier && STAGES[6] == Packager;
    assert STAGES[..|STAGES|] == STAGES;
  }

  /** `_release_next_actions`: one action for each stage among the blockers, in their order. */
  method ReleaseNextActions(blockers: seq<Stage>) returns (actions: seq<Stage>)
    ensures Distinct(actions) && forall stage :: stage in actions <==> stage in blockers
    ensures Distinct(blockers) ==> actions == blockers
  {
    actions := [];
    var seen: set<Stage> := {};
    for n := 0 to |blockers|
      invariant forall stage :: stage in seen <==> stage in blockers[..n]
      invariant Distinct(actions) && forall stage :: stage in actions <==> stage in seen
      invariant Distinct(blockers) ==> actions == blockers[..n]
    {
      assert blockers[..n + 1] == blockers[..n] + [blockers[n]];
      if blockers[n] in seen { continue; }
      seen := seen + {blockers[n]};
      actions := actions + [blockers[n]];
    }
    assert blockers[..|blockers|] == blockers;
  }

  /** The actions for a failed device preflight are read from its report. */
  predicate ActionsRaise(world: World, results: Results) {
    Failed(results, DevicePreflight) && world.deviceReportOdd
  }

  /** What write number `k` of a run leaves. */
  function DiskAfter(world: World, results: Results, k: nat, disk: Disk, report: Report): Disk {
    if ActionsRaise(world, results) then disk
    else
      match world.write(k)
      case Written => Holds(report)
      case Unopened => disk
      case Cut => Unreadable
  }

  /** `write_acceptance_report` */
  method WriteReport(ok: bool, inputs: Inputs, world: World, apk: string, deviceEvidence: string, results: Results,
                     k: nat, disk: Disk)
    returns (report: Report, after: Disk, raised: bool)
    ensures report.ok == ok && report.apk == apk && report.request == inputs.request
    ensures report.deviceEvidence == deviceEvidence && report.bundleReport == inputs.bundleReport
    ensures report.results == Shown(results)
    ensures BlockersOf(results, report.blockers) && report.nextActions == report.blockers
    ensures (report.blockers == [] <==> AllPassed(results)) && (report.nextActions == [] <==> AllPassed(results))
    ensures after == DiskAfter(world, results, k, disk, report)
    ensures raised <==> ActionsRaise(world, results) || !world.write(k).Written?
  {
    var blockers := ReleaseBlockers(results);
    var actions := ReleaseNextActions(blockers);
    report := Report(ok, apk, inputs.request, deviceEvidence, inputs.bundleReport, Shown(results), blockers, actions);
    NothingFailed(results, blockers);
    after := DiskAfter(world, results, k, disk, report);
    raised := ActionsRaise(world, results) || !world.write(k).Written?;
  }

  lemma NothingFailed(results: Results, blockers: seq<Stage>)
    requires forall stage :: stage in blockers <==> Failed(results, stage)
    ensures blockers == [] <==> AllPassed(results)
  {
    if blockers != [] {
      assert blockers[0] in blockers;
    } else {
      forall stage | stage in results ensures results[stage].code == 0 {
        assert stage !in blockers && !Failed(results, stage);
      }
    }
  }

  ghost predicate AllPassed(results: Results) {
    forall stage :: stage in results ==> results[stage].code == 0
  }

  lemma OneFailed(results: Results, stage: Stage)
    requires Failed(results, stage)
    ensures !AllPassed(results)
  {
  }

  function Shown(results: Results): Results {
    map stage | stage in results :: CommandResult(Redact(results[stage].cmd), results[stage].code)
  }

  // ---------- the packager's checks on the report

  /** `_command_returncode(...) != 0` for the two required commands, `not in (None, 0)` for the others. */
  ghost predicate CommandsPassed(report: Report) {
    && Installer in report.results && report.results[Installer].code == 0
    && BundleVerifier in report.results && report.results[BundleVerifier].code == 0
    && (forall stage :: stage in report.results && stage in {Builder, Signing, ApkPreflight, DevicePreflight} ==>
        report.results[stage].code == 0)
  }

  /** `_validate_acceptance_report` */
  ghost predicate ReportValid(report: Report) {
    && report.ok && report.deviceEvidence != "" && report.bundleReport != ""
    && report.blockers == [] && report.nextActions == [] && CommandsPassed(report)
  }

  // ---------- how a run ends

  /** All gates are passed, and the verifier's report on the bundle holds up. */
  predicate ReachesInterim(inputs: Inputs, world: World) {
    && world.directory
    && (inputs.buildApk ==> world.code(Signing) == Some(0) && world.code(Builder) == Some(0) && world.builtApk.Some?)
    && world.code(DevicePreflight) == Some(0) && world.code(ApkPreflight) == Some(0)
    && world.code(Installer) == Some(0) && world.evidence != "" && world.staged.Some?
    && world.code(BundleVerifier) == Some(0) && world.bundleReport.Valid?
  }

  predicate PackagerPasses(inputs: Inputs, world: World) {
    inputs.signingGiven && world.code(Packager) == Some(0) && world.bundle.Valid?
  }

  /** Everything goes right up to the packager. */
  predicate ReachesPackager(inputs: Inputs, world: World) {
    ReachesInterim(inputs, world) && world.write(0).Written? && inputs.signingGiven
  }

  /** Everything goes right. */
  predicate Succeeds(inputs: Inputs, world: World) {
    ReachesInterim(inputs, world) && world.write(0).Written? && PackagerPasses(inputs, world) && world.write(1).Written?
  }

  /** What a part of the run comes to: on to the next part, a report to write, or an exception. */
  datatype Progress = GoesOn | Writes | Raises

  /** A failure is to be reported, with the actions for the device preflight if that has failed. */
  function Reporting(world: World): Progress {
    if world.code(DevicePreflight) != Some(0) && world.deviceReportOdd then Raises else Writes
  }

  function BuildProgress(inputs: Inputs, world: World): Progress {
    if !inputs.buildApk then GoesOn
    else if world.code(DevicePreflight).None? || world.code(Signing).None? then Raises
    else if world.code(Signing) != Some(0) then Reporting(world)
    else if world.code(Builder).None? then Raises
    else if world.code(Builder) != Some(0) || world.builtApk.None? then Reporting(world)
    else GoesOn
  }

  function PreflightProgress(world: World): Progress {
    if world.code(ApkPreflight).None? || world.code(DevicePreflight).None? then Raises
    else if world.code(ApkPreflight) != Some(0) then
      if world.code(Signing).None? then Raises else Reporting(world)
    else if world.code(DevicePreflight) != Some(0) then Reporting(world)
    else GoesOn
  }

  function InstallProgress(world: World): Progress {
    if world.code(Installer).None? then Raises
    else if world.code(Installer) != Some(0) || world.evidence == "" || world.staged.None? then Writes
    else if world.code(BundleVerifier).None?
      || (world.code(BundleVerifier) == Some(0) && world.bundleReport.Raising?) then Raises
    else Writes
  }

  /** Whether the run comes to its first report. */
  function FirstReport(inputs: Inputs, world: World): Progress {
    if !world.directory then Raises
    else if !BuildProgress(inputs, world).GoesOn? then BuildProgress(inputs, world)
    else if !PreflightProgress(world).GoesOn? then PreflightProgress(world)
    else InstallProgress(world)
  }

  /** Whether a run with its interim report written comes to its last report. */
  function LastReport(inputs: Inputs, world: World): Progress {
    if !inputs.signingGiven then Writes
    else if world.code(Packager).None? || (world.code(Packager) == Some(0) && world.bundle.Raising?) then Raises
    else if !PackagerPasses(inputs, world) && world.rejectionRaises then Raises
    else Writes
  }

  /** The exit code of the first gate that is not passed, 0 when all are. */
  function FailedGate(inputs: Inputs, world: World): int {
    if inputs.buildApk && world.code(Signing) != Some(0) then 7
    else if inputs.buildApk && (world.code(Builder) != Some(0) || world.builtApk.None?) then 4
    else if world.code(ApkPreflight) != Some(0) then 6
    else if world.code(DevicePreflight) != Some(0) then 5
    else if world.code(Installer) != Some(0) || world.evidence == "" || world.staged.None? then 2
    else if world.code(BundleVerifier) != Some(0) || !world.bundleReport.Valid? then 3
    else 0
  }

  /** The exit code, none for a run that raises: that of the failed gate, or 0 or 4 by the packager. */
  function ExitCode(inputs: Inputs, world: World): Option<int> {
    if FirstReport(inputs, world).Raises? || !world.write(0).Written? then None
    else if FailedGate(inputs, world) != 0 then Some(FailedGate(inputs, world))
    else if LastReport(inputs, world).Raises? || !world.write(1).Written? then None
    else Some(if PackagerPasses(inputs, world) then 0 else 4)
  }

  /** When the report left on disk says ok: an earlier one that no write of this run has replaced does;
      or this run has passed everything up to the packager and its interim report was not replaced,
      or it was replaced by the report of success. */
  predicate LeavesOk(inputs: Inputs, world: World) {
    if FirstReport(inputs, world).Raises? || world.write(0).Unopened? then SaysOk(inputs.disk)
    else
      && world.write(0).Written? && ReachesInterim(inputs, world)
      && (LastReport(inputs, world).Raises? || world.write(1).Unopened?
          || (world.write(1).Written? && PackagerPasses(inputs, world)))
  }

  /** The installer has run only behind both preflights, and in a build behind a signed build, all passed. */
  ghost predicate Gated(inputs: Inputs, world: World, ran: seq<Stage>) {
    forall i :: 0 <= i < |ran| && ran[i] == Installer ==>
      && ApkPreflight in ran[..i] && world.code(ApkPreflight) == Some(0)
      && DevicePreflight in ran[..i] && world.code(DevicePreflight) == Some(0)
      && (inputs.buildApk ==>
          && Signing in ran[..i] && world.code(Signing) == Some(0)
          && Builder in ran[..i] && world.code(Builder) == Some(0) && world.builtApk.Some?)
  }

  ghost predicate Clean(report: Report) {
    report.ok ==> report.blockers == [] && report.nextActions == []
  }

  /** How a run ends and what it leaves: its exit code, none when it raised; the commands tried, in
      order; the reports made, in order; what stands at the report's place; and the report the
      packager was handed. */
  datatype Outcome = Outcome(exit: Option<int>, ran: seq<Stage>, reports: seq<Report>, disk: Disk,
                             handed: Option<Report>)

  /** The APK under test once the gates are passed. */
  function TestedApk(inputs: Inputs, world: World): string {
    if inputs.buildApk && world.builtApk.Some? then world.builtApk.value else inputs.apk
  }

  /** What holds of every run. The installer is gated. No report that says ok lists a blocker or an
      action. The exit code is 0 exactly when everything goes right and names the failed gate otherwise,
      and what is left on disk says ok exactly when `LeavesOk`. The packager runs exactly when everything
      went right before it, and is handed a report that its own checks accept, with the installer's
      command as built. Failures are explained. */
  ghost predicate Law(inputs: Inputs, world: World, o: Outcome) {
    && Gated(inputs, world, o.ran)
    && (forall i :: 0 <= i < |o.reports| ==> Clean(o.reports[i]))
    && (o.exit == Some(0) <==> Succeeds(inputs, world))
    && o.exit == ExitCode(inputs, world)
    && (SaysOk(o.disk) <==> LeavesOk(inputs, world))
    && (o.handed.Some? <==> ReachesPackager(inputs, world))
    && (Packager in o.ran <==> ReachesPackager(inputs, world))
    && (o.handed.Some? ==> HandedOver(inputs, world, o.handed.value))
    && (o.exit.Some? && o.exit != Some(0) ==> Explained(world, o.disk))
  }

  /** A failed run names a blocker, unless the installer passed and printed no evidence path. */
  ghost predicate Explained(world: World, disk: Disk) {
    && disk.Holds? && !disk.report.ok
    && (disk.report.blockers == [] <==>
        Installer in disk.report.results && world.code(Installer) == Some(0) && world.evidence == "")
  }

  ghost predicate HandedOver(inputs: Inputs, world: World, report: Report) {
    && ReportValid(report) && report.request == inputs.request && report.apk == TestedApk(inputs, world)
    && report.results[Installer].cmd == Redact(Build(inputs.request, report.apk))
  }

  // ---------- ending before the installer

  /** A first report, of failure, as the disk shows it. */
  ghost predicate FirstFailure(inputs: Inputs, world: World, o: Outcome) {
    match world.write(0)
    case Written =>
      FailedGate(inputs, world) != 0 && o.exit == Some(FailedGate(inputs, world)) && Explained(world, o.disk)
    case Unopened => o.exit.None? && o.disk == inputs.disk
    case Cut => o.exit.None? && o.disk == Unreadable
  }

  /** The disk is as the run found it, and the run is not over or has raised. */
  ghost predicate Untouched(inputs: Inputs, o: Outcome) {
    o.exit.None? && o.disk == inputs.disk
  }

  ghost predicate NotOk(reports: seq<Report>) {
    forall i :: 0 <= i < |reports| ==> !reports[i].ok
  }

  /** Where a part of the run before the installer stands that has come to `p`. */
  ghost predicate Early(inputs: Inputs, world: World, o: Outcome, p: Progress) {
    && Installer !in o.ran && Packager !in o.ran && o.handed.None? && NotOk(o.reports)
    && if p.Writes? then FirstFailure(inputs, world, o) else Untouched(inputs, o)
  }

  lemma EarlyLaw(inputs: Inputs, world: World, o: Outcome, p: Progress)
    requires Early(inputs, world, o, p) && p == FirstReport(inputs, world) && !p.GoesOn?
    requires !ReachesInterim(inputs, world)
    ensures Law(inputs, world, o)
  {
    hide FirstReport, ReachesInterim;
  }

  /** Reports a failure before the installer. */
  method FailEarly(exit: int, inputs: Inputs, world: World, apk: string, results: Results, ran: seq<Stage>)
    returns (o: Outcome)
    requires exit != 0 && !AllPassed(results) && Installer !in results && Installer !in ran && Packager !in ran
    requires exit == FailedGate(inputs, world)
    requires DevicePreflight in results && world.code(DevicePreflight) == Some(results[DevicePreflight].code)
    ensures Early(inputs, world, o, Reporting(world))
  {
    var report, disk, raised := WriteReport(false, inputs, world, apk, "", results, 0, inputs.disk);
    o := Outcome(if raised then None else Some(exit), ran, [report], disk, None);
  }

  /** `run_acceptance` */
  method RunAcceptance(inputs: Inputs, world: World) returns (o: Outcome)
    requires inputs.bundleReport != "" && (world.staged.Some? ==> world.staged.value != "")
    ensures Law(inputs, world, o)
  {
    hide Law, Ready, Early, Reporting;
    PassedParts(inputs, world);
    if !world.directory {
      o := Outcome(None, [], [], inputs.disk, None);
      NothingDone(inputs, world, o);
      return;
    }
    var results, apk, ran := map[], inputs.apk, [];
    if inputs.buildApk {
      var built;
      o, results, built := BuildRelease(inputs, world);
      if built.None? {
        EarlyLaw(inputs, world, o, BuildProgress(inputs, world));
        return;
      }
      apk, ran := built.value, o.ran;
    }
    var goOn;
    o, results, goOn := Preflights(inputs, world, apk, results, ran);
    if !goOn {
      EarlyLaw(inputs, world, o, PreflightProgress(world));
      return;
    }
    o := Finish(inputs, world, apk, results, o.ran);
  }

  lemma NothingDone(inputs: Inputs, world: World, o: Outcome)
    requires !world.directory && o == Outcome(None, [], [], inputs.disk, None)
    ensures Law(inputs, world, o)
  {
    EarlyLaw(inputs, world, o, Raises);
  }

  /** Passing every gate means going on at each. */
  lemma PassedParts(inputs: Inputs, world: World)
    ensures ReachesInterim(inputs, world) ==>
      world.directory && BuildProgress(inputs, world).GoesOn? && PreflightProgress(world).GoesOn?
        && InstallProgress(world).Writes?
  {
  }

  /** `run_acceptance`, the part of a run that builds the APK first. */
  method BuildRelease(inputs: Inputs, world: World) returns (o: Outcome, results: Results, built: Option<string>)
    requires inputs.buildApk
    ensures Early(inputs, world, o, BuildProgress(inputs, world))
    ensures built.Some? <==> BuildProgress(inputs, world).GoesOn?
    ensures built.Some? ==> Built(world, built.value, results, o.ran)
  {
    hide AllPassed, FirstFailure;
    results, built := map[], None;
    o := Outcome(None, [DevicePreflight], [], inputs.disk, None);
    if world.code(DevicePreflight).None? { return; }
    results := results[DevicePreflight := CommandResult([], world.code(DevicePreflight).value)];
    o := o.(ran := [DevicePreflight, Signing]);
    if world.code(Signing).None? { return; }
    results := results[Signing := CommandResult([], world.code(Signing).value)];
    if world.code(Signing) != Some(0) {
      OneFailed(results, Signing);
      o := FailEarly(7, inputs, world, inputs.apk, results, o.ran);
      return;
    }
    o := o.(ran := [DevicePreflight, Signing, Builder]);
    if world.code(Builder).None? { return; }
    var code := world.code(Builder).value;
    if code == 0 && world.builtApk.None? { code := 5; }
    results := results[Builder := CommandResult([], code)];
    if code != 0 {
      OneFailed(results, Builder);
      o := FailEarly(4, inputs, world, inputs.apk, results, o.ran);
      return;
    }
    built := world.builtApk;
  }

  /** A build has gone right, whatever the device preflight before it said. */
  ghost predicate Built(world: World, apk: string, results: Results, ran: seq<Stage>) {
    && results.Keys == {DevicePreflight, Signing, Builder}
      && world.code(DevicePreflight) == Some(results[DevicePreflight].code)
    && results[Signing].code == 0 && results[Builder].code == 0
    && Installer !in ran && Packager !in ran
    && Signing in ran && world.code(Signing) == Some(0) && DevicePreflight in ran
    && Builder in ran && world.code(Builder) == Some(0) && world.builtApk == Some(apk)
  }

  /** `run_acceptance`, from the APK preflight to the gate before the installer. */
  method Preflights(inputs: Inputs, world: World, apk: string, built: Results, before: seq<Stage>)
    returns (o: Outcome, results: Results, goOn: bool)
    requires inputs.buildApk ==> Built(world, apk, built, before)
    requires !inputs.buildApk ==> built == map[] && before == [] && apk == inputs.apk
    ensures Early(inputs, world, o, PreflightProgress(world))
    ensures goOn <==> PreflightProgress(world).GoesOn?
    ensures goOn ==> Ready(inputs, world, apk, results, o.ran)
  {
    hide FirstFailure;
    results, goOn := built, false;
    o := Outcome(None, before + [ApkPreflight], [], inputs.disk, None);
    if world.code(ApkPreflight).None? { return; }
    results := results[ApkPreflight := CommandResult([], world.code(ApkPreflight).value)];
    if DevicePreflight !in results {
      o := o.(ran := o.ran + [DevicePreflight]);
      if world.code(DevicePreflight).None? { return; }
      results := results[DevicePreflight := CommandResult([], world.code(DevicePreflight).value)];
    }
    if world.code(ApkPreflight) != Some(0) {
      if Signing !in results {
        o := o.(ran := o.ran + [Signing]);
        if world.code(Signing).None? { return; }
        results := results[Signing := CommandResult([], world.code(Signing).value)];
      }
      OneFailed(results, ApkPreflight);
      o := FailEarly(6, inputs, world, apk, results, o.ran);
      return;
    }
    if world.code(DevicePreflight) != Some(0) {
      OneFailed(results, DevicePreflight);
      o := FailEarly(5, inputs, world, apk, results, o.ran);
      return;
    }
    goOn := true;
  }

  // ---------- from the installer on

  /** What both ways in share: the gates are passed. */
  ghost predicate Ready(inputs: Inputs, world: World, apk: string, results: Results, ran: seq<Stage>) {
    && AllPassed(results) && results.Keys <= {Signing, Builder, ApkPreflight, DevicePreflight}
    && Installer !in ran && Packager !in ran
    && ApkPreflight in ran && world.code(ApkPreflight) == Some(0)
    && DevicePreflight in ran && world.code(DevicePreflight) == Some(0)
    && (inputs.buildApk ==>
        && Signing in ran && world.code(Signing) == Some(0)
        && Builder in ran && world.code(Builder) == Some(0) && world.builtApk == Some(apk))
    && (!inputs.buildApk ==> apk == inputs.apk)
  }

  lemma StillGated(inputs: Inputs, world: World, apk: string, results: Results, before: seq<Stage>, behind: seq<Stage>)
    requires Ready(inputs, world, apk, results, before) && Installer !in behind
    ensures Gated(inputs, world, before + [Installer] + behind)
  {
    var ran := before + [Installer] + behind;
    assert forall i :: 0 <= i < |before| ==> ran[i] == before[i] && before[i] != Installer;
    assert forall i :: 0 <= i < |behind| ==> ran[|before| + 1 + i] == behind[i] && behind[i] != Installer;
    assert forall i :: |before| < i < |ran| ==> ran[i] == behind[i - |before| - 1];
    assert ran[..|before|] == before;
  }

  lemma InterimValid(results: Results, report: Report)
    requires AllPassed(results) && Installer in results && BundleVerifier in results
    requires report.results == Shown(results) && report.ok && report.blockers == [] && report.nextActions == []
    requires report.deviceEvidence != "" && report.bundleReport != ""
    ensures ReportValid(report)
    ensures report.results[Installer].cmd == Redact(results[Installer].cmd)
  {
    hide Redact;
  }

  lemma PassedSoFar(inputs: Inputs, world: World, apk: string, passed: Results, before: seq<Stage>)
    requires Ready(inputs, world, apk, passed, before) && world.directory
    ensures AllPassed(passed) && Installer !in passed && BundleVerifier !in passed && Packager !in passed
    ensures apk == TestedApk(inputs, world) && Packager !in before
    ensures FirstReport(inputs, world) == InstallProgress(world)
    ensures FailedGate(inputs, world) ==
      if world.code(Installer) != Some(0) || world.evidence == "" || world.staged.None? then 2
      else if world.code(BundleVerifier) != Some(0) || !world.bundleReport.Valid? then 3
      else 0
    ensures ReachesInterim(inputs, world) <==>
      && world.code(Installer) == Some(0) && world.evidence != "" && world.staged.Some?
      && world.code(BundleVerifier) == Some(0) && world.bundleReport.Valid?
  {
  }

  /** Endings before an interim report that says ok is written. */
  ghost predicate EndsUnhanded(inputs: Inputs, world: World, behind: seq<Stage>, o: Outcome) {
    && Installer !in behind && Packager !in behind && o.handed.None?
    && (forall i :: 0 <= i < |o.reports| ==> Clean(o.reports[i]))
    && !(ReachesInterim(inputs, world) && world.write(0).Written?)
    && if InstallProgress(world).Raises? then Untouched(inputs, o) else FirstFailure(inputs, world, o)
  }

  lemma UnhandedLaw(inputs: Inputs, world: World, apk: string, passed: Results, before: seq<Stage>, behind: seq<Stage>,
                    o: Outcome)
    requires Ready(inputs, world, apk, passed, before) && world.directory
    requires o.ran == before + [Installer] + behind && EndsUnhanded(inputs, world, behind, o)
    ensures Law(inputs, world, o)
  {
    hide Gated, ReachesInterim, FirstReport, Ready, InstallProgress;
    StillGated(inputs, world, apk, passed, before, behind);
    PassedSoFar(inputs, world, apk, passed, before);
  }

  /** The installer, its evidence, and the verifier: the outcome if the run ends there. */
  method Finish(inputs: Inputs, world: World, apk: string, passed: Results, before: seq<Stage>) returns (o: Outcome)
    requires Ready(inputs, world, apk, passed, before) && world.directory
    requires inputs.bundleReport != "" && (world.staged.Some? ==> world.staged.value != "")
    ensures Law(inputs, world, o)
  {
    hide Build, Redact, Law, Gated, Ready, ReachesInterim, FirstReport, AllPassed, FailedGate, BlockersOf;
    PassedSoFar(inputs, world, apk, passed, before);
    o := Outcome(None, before + [Installer] + [], [], inputs.disk, None);
    if world.code(Installer).None? {
      UnhandedLaw(inputs, world, apk, passed, before, [], o);
      return;
    }
    var command := BuildInstallCommand(inputs.request, apk);
    var code := world.code(Installer).value;
    if code == 0 && world.evidence != "" && world.staged.None? { code := 5; }
    var results := passed[Installer := CommandResult(command, code)];
    WithOneMore(passed, Installer, CommandResult(command, code));
    if code != 0 || world.evidence == "" {
      var report, disk, raised := WriteReport(false, inputs, world, apk, world.evidence, results, 0, inputs.disk);
      o := Outcome(if raised then None else Some(2), o.ran, [report], disk, None);
      UnhandedLaw(inputs, world, apk, passed, before, [], o);
      return;
    }
    o := o.(ran := before + [Installer] + [BundleVerifier]);
    if world.code(BundleVerifier).None? || (world.code(BundleVerifier) == Some(0) && world.bundleReport.Raising?) {
      UnhandedLaw(inputs, world, apk, passed, before, [BundleVerifier], o);
      return;
    }
    code := world.code(BundleVerifier).value;
    if code == 0 && world.bundleReport.Invalid? { code := 5; }
    WithOneMore(results, BundleVerifier, CommandResult([], code));
    results := results[BundleVerifier := CommandResult([], code)];
    var interim, disk, raised :=
      WriteReport(code == 0, inputs, world, apk, world.staged.value, results, 0, inputs.disk);
    o := o.(reports := [interim], disk := disk);
    if raised || code != 0 {
      o := o.(exit := if raised then None else Some(3));
      UnhandedLaw(inputs, world, apk, passed, before, [BundleVerifier], o);
      return;
    }
    o := Package(inputs, world, apk, passed, results, before, interim);
  }

  /** One more command that passed or failed. */
  lemma WithOneMore(results: Results, stage: Stage, result: CommandResult)
    requires AllPassed(results)
    ensures AllPassed(results[stage := result]) <==> result.code == 0
    ensures stage != DevicePreflight ==> !Failed(results[stage := result], DevicePreflight)
  {
    if result.code != 0 { OneFailed(results[stage := result], stage); }
  }

  /** How a run ends whose interim report says ok and is written. */
  ghost predicate EndsBehindInterim(inputs: Inputs, world: World, interim: Report, o: Outcome) {
    && (forall i :: 0 <= i < |o.reports| ==> Clean(o.reports[i]))
    && (o.handed.Some? <==> inputs.signingGiven)
    && (o.handed.Some? ==> o.handed == Some(interim))
    && if LastReport(inputs, world).Raises? then o.exit.None? && o.disk == Holds(interim)
       else
         match world.write(1)
         case Written =>
           if PackagerPasses(inputs, world) then o.exit == Some(0) && SaysOk(o.disk)
           else o.exit == Some(4) && Explained(world, o.disk)
         case Unopened => o.exit.None? && o.disk == Holds(interim)
         case Cut => o.exit.None? && o.disk == Unreadable
  }

  lemma InterimLaw(inputs: Inputs, world: World, apk: string, passed: Results, before: seq<Stage>, interim: Report,
                   o: Outcome)
    requires Ready(inputs, world, apk, passed, before) && world.directory
    requires ReachesInterim(inputs, world) && world.write(0).Written? && HandedOver(inputs, world, interim)
    requires o.ran == before + [Installer]
      + (if inputs.signingGiven then [BundleVerifier, Packager] else [BundleVerifier])
    requires EndsBehindInterim(inputs, world, interim, o)
    ensures Law(inputs, world, o)
  {
    hide Gated, ReachesInterim, FirstReport, Ready, InstallProgress, Redact, Build;
    var behind := if inputs.signingGiven then [BundleVerifier, Packager] else [BundleVerifier];
    StillGated(inputs, world, apk, passed, before, behind);
    PassedSoFar(inputs, world, apk, passed, before);
    PassedParts(inputs, world);
    assert Packager in behind <==> inputs.signingGiven by { assert [BundleVerifier, Packager][1] == Packager; }
  }

  /** Packaging, behind an interim report that says ok. */
  method Package(inputs: Inputs, world: World, apk: string, passed: Results, verified: Results, before: seq<Stage>,
                 interim: Report)
    returns (o: Outcome)
    requires Ready(inputs, world, apk, passed, before) && world.directory
    requires ReachesInterim(inputs, world) && world.write(0).Written?
    requires AllPassed(verified) && Packager !in verified && Installer in verified && BundleVerifier in verified
    requires verified[Installer].cmd == Build(inputs.request, apk)
    requires interim.ok && interim.request == inputs.request && interim.apk == apk && interim.results == Shown(verified)
    requires interim.blockers == [] && interim.nextActions == [] && interim.deviceEvidence != ""
      && interim.bundleReport != ""
    ensures Law(inputs, world, o)
  {
    hide Build, Redact, Law, Ready, ReachesInterim, AllPassed, ReportValid, FailedGate, BlockersOf;
    PassedSoFar(inputs, world, apk, passed, before);
    InterimValid(verified, interim);
    var code := 5;
    o := Outcome(None, before + [Installer] + [BundleVerifier], [interim], Holds(interim), None);
    if inputs.signingGiven {
      o := o.(ran := before + [Installer] + [BundleVerifier, Packager], handed := Some(interim));
      if world.code(Packager).None? || (world.code(Packager) == Some(0) && world.bundle.Raising?) {
        InterimLaw(inputs, world, apk, passed, before, interim, o);
        return;
      }
      code := world.code(Packager).value;
      if code == 0 && world.bundle.Invalid? { code := 5; }
      if code != 0 && world.rejectionRaises {
        InterimLaw(inputs, world, apk, passed, before, interim, o);
        return;
      }
    }
    var results := verified[Packager := CommandResult([], code)];
    WithOneMore(verified, Packager, CommandResult([], code));
    var report, disk, raised :=
      WriteReport(code == 0, inputs, world, apk, interim.deviceEvidence, results, 1, Holds(interim));
    o := o.(reports := [interim, report], disk := disk);
    if !raised { o := o.(exit := if code == 0 then Some(0) else Some(4)); }
    InterimLaw(inputs, world, apk, passed, before, interim, o);
  }

  // ---------- reports that say ok behind runs that did not succeed

  /** A run that raises and still leaves a report that says ok: the exact condition, apart from
      success. */
  predicate OutlivesItsRun(inputs: Inputs, world: World) {
    || ((FirstReport(inputs, world).Raises? || world.write(0).Unopened?) && SaysOk(inputs.disk))
    || (FirstReport(inputs, world).Writes? && world.write(0).Written? && ReachesInterim(inputs, world)
        && (LastReport(inputs, world).Raises? || world.write(1).Unopened?))
  }

  /** A report that says ok is left exactly by the runs that exit with 0 and by these, which raise. */
  lemma OkReportExactly(inputs: Inputs, world: World, o: Outcome)
    requires Law(inputs, world, o)
    ensures SaysOk(o.disk) <==> o.exit == Some(0) || OutlivesItsRun(inputs, world)
    ensures OutlivesItsRun(inputs, world) ==> o.exit.None?
  {
    hide ReachesInterim, Gated, BuildProgress, PreflightProgress, InstallProgress, HandedOver;
    PassedParts(inputs, world);
    FirstReportOfPassed(inputs, world);
  }

  lemma FirstReportOfPassed(inputs: Inputs, world: World)
    ensures ReachesInterim(inputs, world) ==> FirstReport(inputs, world).Writes?
    ensures !FirstReport(inputs, world).GoesOn?
  {
  }

  /** Everything goes right in a world but for what its caller changes. */
  function FairWorld(code: Stage -> Option<int>, rejectionRaises: bool): World {
    World(true, code, Some("built.apk"), "evidence.json", Some("staged.json"), Valid, Valid,
          rejectionRaises, false, (k: nat) => Written)
  }

  /** The packager fails and names a report that is no object: the interim report stays. */
  lemma RejectionLeavesInterim(inputs: Inputs)
    requires inputs.signingGiven
    ensures var world := FairWorld((stage: Stage) => if stage == Packager then Some(1) else Some(0), true);
      LeavesOk(inputs, world) && !Succeeds(inputs, world)
  {
  }

  /** The APK preflight times out: a report of an earlier run stays, and no command behind it has run. */
  lemma TimeoutLeavesEarlierReport(inputs: Inputs)
    requires SaysOk(inputs.disk)
    ensures var world := FairWorld((stage: Stage) => if stage == ApkPreflight then None else Some(0), false);
      LeavesOk(inputs, world) && !Succeeds(inputs, world)
  {
  }

  /** `_validate_installer_command` on the report itself. */
  predicate CommandAccepted(report: Report, resolve: string -> string)
    requires Installer in report.results
  {
    var q := report.request;
    Accepted(report.results[Installer].cmd, q, resolve(report.apk), resolve(q.windowsExe), resolve(q.hostExe), resolve)
  }

  /** The report the packager is handed passes its checks, and so does the installer command in it,
      unless the device serial is mistaken for an option. */
  lemma PackagerAccepts(inputs: Inputs, world: World, o: Outcome, resolve: string -> string)
    requires Law(inputs, world, o) && ReachesPackager(inputs, world)
    requires PlainValues(inputs.request, TestedApk(inputs, world))
    ensures o.handed.Some? && ReportValid(o.handed.value)
    ensures var report := o.handed.value;
      && report.ok && report.deviceEvidence != "" && report.bundleReport != ""
      && report.blockers == [] && report.nextActions == []
      && Installer in report.results && report.results[Installer].code == 0
      && BundleVerifier in report.results && report.results[BundleVerifier].code == 0
      && (forall stage :: stage in report.results && stage in {Signing, Builder, ApkPreflight, DevicePreflight} ==>
          report.results[stage].code == 0)
    ensures CommandAccepted(o.handed.value, resolve) <==> !Clashes(inputs.request)
  {
    hide Build, Redact, Accepted, ReachesPackager, PlainValues, Clashes;
    AcceptedExactly(inputs.request, TestedApk(inputs, world), resolve);
  }
}
