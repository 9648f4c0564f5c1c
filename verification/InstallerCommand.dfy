/** The installer's command line, built by tools/run_formal_release_acceptance.py and checked again
    by tools/package_formal_release_bundle.py. */
module InstallerCommand {
  import opened Wrappers

  type Command = seq<string>

  const APK := "-ApkPath"
  const WINDOWS := "-WindowsExePath"
  const HOST := "-HostExePath"
  const ADB := "-AdbPath"
  const SERIAL := "-DeviceSerial"
  const BUILD := "-Build"
  const LOCKED := "-ExpectControlLocked"
  const LEGACY := "-RemoveLegacyBenchmarkPackage"
  const KEY := "--private-key"
  const REDACTED := "<redacted-offline-key-path>"

  /** The seven evidence paths, each behind its option when given. */
  type Routes = r: seq<Option<string>> | |r| <= 7 witness []

  /** What the run was asked for; paths are non-empty texts. */
  datatype Request = Request(
    script: string, windowsExe: string, hostExe: string, adb: Option<string>, serial: string,
    expectLocked: bool, removeLegacy: bool, routes: Routes)

  function RoutePart(routes: Routes): Command {
    if routes == [] then []
    else
      var last := routes[|routes| - 1];
      RoutePart(routes[..|routes| - 1]) + if last.Some? then [ROUTE_OPTIONS[|routes| - 1], last.value] else []
  }

  const ROUTE_OPTIONS: seq<string> := [
    "-BluetoothRouteEvidencePath", "-BluetoothRouteMobileLogPath", "-MakcuRouteEvidencePath",
    "-MakcuRouteMobileLogPath", "-FinalSafeIdleEvidencePath", "-FinalSafeIdleMobileLogPath", "-FinalSafeIdleUiXmlPath"]

  function Start(script: string): Command {
    ["powershell", "-NoProfile", "-ExecutionPolicy", "Bypass", "-File", script]
  }

  function AdbPart(adb: Option<string>): Command {
    if adb.Some? then [ADB, adb.value] else []
  }

  function SerialPart(serial: string): Command {
    if serial != "" then [SERIAL, serial] else []
  }

  function Flags(q: Request): Command {
    (if q.expectLocked then [LOCKED] else []) + (if q.removeLegacy then [LEGACY] else [])
  }

  /** `build_install_command` as the acceptance run calls it, without a rebuild. */
  function Build(q: Request, apk: string): Command {
    Head(q, apk) + AdbPart(q.adb) + SerialPart(q.serial) + (Flags(q) + RoutePart(q.routes))
  }

  function Head(q: Request, apk: string): Command {
    Start(q.script) + [APK, apk, "-Launch", "-VerifyUi", WINDOWS, q.windowsExe, HOST, q.hostExe]
  }

  /** `build_install_command` */
  method BuildInstallCommand(q: Request, apk: string) returns (command: Command)
    ensures command == Build(q, apk)
  {
    hide RoutePart, Head, Build, Start;
    command := Start(q.script) + [APK, apk, "-Launch", "-VerifyUi", WINDOWS, q.windowsExe, HOST, q.hostExe];
    assert command == Head(q, apk) by { HeadOf(q, apk); }
    if q.adb.Some? { command := command + [ADB, q.adb.value]; }
    assert command == Head(q, apk) + AdbPart(q.adb);
    if q.serial != "" { command := command + [SERIAL, q.serial]; }
    ghost var front := Head(q, apk) + AdbPart(q.adb) + SerialPart(q.serial);
    assert command == front;
    if q.expectLocked { command := command + [LOCKED]; }
    if q.removeLegacy { command := command + [LEGACY]; }
    front := front + Flags(q);
    assert command == front;
    command := AppendRoutes(command, q.routes);
    BuildInOrder(q, apk);
  }

  /** The loop of `build_install_command` over its route arguments. */
  method AppendRoutes(front: Command, routes: Routes) returns (command: Command)
    ensures command == front + RoutePart(routes)
  {
    hide RoutePart;
    NoRoutes();
    command := front;
    for i := 0 to |routes|
      invariant command == front + RoutePart(routes[..i])
    {
      OneMoreRoute(routes, i);
      if routes[i].Some? { command := command + [ROUTE_OPTIONS[i], routes[i].value]; }
    }
    assert routes[..|routes|] == routes;
  }

  lemma BuildInOrder(q: Request, apk: string)
    ensures Build(q, apk) == Head(q, apk) + AdbPart(q.adb) + SerialPart(q.serial) + Flags(q) + RoutePart(q.routes)
  {
    hide Head, AdbPart, SerialPart, Flags, RoutePart;
  }

  lemma HeadOf(q: Request, apk: string)
    ensures Head(q, apk) == Start(q.script) + [APK, apk, "-Launch", "-VerifyUi", WINDOWS, q.windowsExe, HOST, q.hostExe]
  {
  }

  lemma NoRoutes()
    ensures RoutePart([]) == []
  {
  }

  lemma OneMoreRoute(routes: Routes, i: nat)
    requires i < |routes|
    ensures RoutePart(routes[..i + 1])
      == RoutePart(routes[..i]) + if routes[i].Some? then [ROUTE_OPTIONS[i], routes[i].value] else []
  {
    assert routes[..i + 1][..i] == routes[..i];
  }

  function First(command: Command, option: string): (n: nat)
    ensures n <= |command|
    ensures n < |command| ==> command[n] == option
    ensures n == |command| <==> option !in command
  {
    if command == [] || command[0] == option then 0 else 1 + First(command[1..], option)
  }

  /** `_command_json` hides what follows the first `--private-key`. */
  function Redact(command: Command): Command {
    var n := First(command, KEY);
    if n + 1 < |command| then command[n + 1 := REDACTED] else command
  }

  /** `_command_option_value` */
  function OptionValue(command: Command, option: string): Result<string, string> {
    var n := First(command, option);
    if n == |command| then Ok("")
    else if n + 1 >= |command| then Err("option has no value")
    else Ok(command[n + 1])
  }

  /** `_require_command_path` */
  predicate PathGiven(command: Command, option: string, expected: string, resolve: string -> string) {
    var value := OptionValue(command, option);
    value.Ok? && value.value != "" && resolve(value.value) == expected
  }

  /** `_require_command_optional_path` */
  predicate OptionalPathGiven(command: Command, option: string, expected: string, resolve: string -> string) {
    var value := OptionValue(command, option);
    && value.Ok?
    && if expected != "" then value.value != "" && resolve(value.value) == resolve(expected) else value.value == ""
  }

  /** `_require_command_optional_value` */
  predicate OptionalValueGiven(command: Command, option: string, expected: string) {
    var value := OptionValue(command, option);
    value.Ok? && value.value == expected
  }

  /** `_validate_installer_command`: `expected` are the resolved artifact paths of the report, `q` its
      parameters. */
  predicate Accepted(command: Command, q: Request, apk: string, windowsExe: string, hostExe: string,
                     resolve: string -> string) {
    && PathGiven(command, APK, apk, resolve)
    && PathGiven(command, WINDOWS, windowsExe, resolve)
    && PathGiven(command, HOST, hostExe, resolve)
    && OptionalPathGiven(command, ADB, if q.adb.Some? then q.adb.value else "", resolve)
    && OptionalValueGiven(command, SERIAL, q.serial)
    && BUILD !in command
    && (LOCKED in command <==> q.expectLocked)
    && (LEGACY in command <==> q.removeLegacy)
  }

  // ---------- searching a command line

  predicate Special(word: string) {
    word == APK || word == WINDOWS || word == HOST || word == ADB || word == SERIAL || word == BUILD
    || word == LOCKED || word == LEGACY || word == KEY
  }

  lemma SpecialsDiffer()
    ensures APK != WINDOWS && APK != HOST && APK != ADB && APK != SERIAL && APK != BUILD && APK != LOCKED
      && APK != LEGACY && APK != KEY
    ensures WINDOWS != HOST && WINDOWS != ADB && WINDOWS != SERIAL && WINDOWS != BUILD && WINDOWS != LOCKED
      && WINDOWS != LEGACY && WINDOWS != KEY
    ensures HOST != ADB && HOST != SERIAL && HOST != BUILD && HOST != LOCKED && HOST != LEGACY && HOST != KEY
    ensures ADB != SERIAL && ADB != BUILD && ADB != LOCKED && ADB != LEGACY && ADB != KEY
    ensures SERIAL != BUILD && SERIAL != LOCKED && SERIAL != LEGACY && SERIAL != KEY
    ensures BUILD != LOCKED && BUILD != LEGACY && BUILD != KEY && LOCKED != LEGACY && LOCKED != KEY && LEGACY != KEY
  {
    assert |APK| == 8 && |WINDOWS| == 15 && |HOST| == 12 && |ADB| == 8 && |SERIAL| == 13 && |BUILD| == 6;
    assert |LOCKED| == 20 && |LEGACY| == 29 && |KEY| == 13;
    assert APK[2] != ADB[2] && SERIAL[1] != KEY[1];
  }

  lemma PlainWords()
    ensures !Special("powershell") && !Special("-NoProfile") && !Special("-ExecutionPolicy") && !Special("Bypass")
    ensures !Special("-File") && !Special("-Launch") && !Special("-VerifyUi") && !Special(REDACTED)
  {
    assert |"powershell"| == 10 && |"-NoProfile"| == 10 && |"-ExecutionPolicy"| == 16 && |"Bypass"| == 6;
    assert "Bypass"[0] != BUILD[0];
    assert |"-File"| == 5 && |"-Launch"| == 7 && |"-VerifyUi"| == 9 && |REDACTED| == 27;
    assert |APK| == 8 && |WINDOWS| == 15 && |HOST| == 12 && |ADB| == 8 && |SERIAL| == 13 && |BUILD| == 6;
    assert |LOCKED| == 20 && |LEGACY| == 29 && |KEY| == 13;
  }

  /** No word is one the packager looks for. */
  ghost predicate Plain(command: Command) {
    forall i :: 0 <= i < |command| ==> !Special(command[i])
  }

  ghost predicate PlainRoutes(routes: Routes) {
    forall i :: 0 <= i < |routes| && routes[i].Some? ==> !Special(routes[i].value)
  }

  lemma RouteOptionsPlain(i: nat)
    requires i < 7
    ensures !Special(ROUTE_OPTIONS[i]) && ROUTE_OPTIONS[i] != ""
  {
    assert |ROUTE_OPTIONS[0]| == 27 && |ROUTE_OPTIONS[1]| == 28 && |ROUTE_OPTIONS[2]| == 23 && |ROUTE_OPTIONS[3]| == 24;
    assert |ROUTE_OPTIONS[4]| == 26 && |ROUTE_OPTIONS[5]| == 27 && |ROUTE_OPTIONS[6]| == 23;
    assert |APK| == 8 && |WINDOWS| == 15 && |HOST| == 12 && |ADB| == 8 && |SERIAL| == 13 && |BUILD| == 6;
    assert |LOCKED| == 20 && |LEGACY| == 29 && |KEY| == 13;
  }

  lemma {:induction false} PlainRoutePart(routes: Routes)
    requires PlainRoutes(routes)
    ensures Plain(RoutePart(routes))
    ensures RoutePart(routes) != [] ==> RoutePart(routes)[0] != ""
  {
    hide Special;
    if routes != [] {
      PlainRoutePart(routes[..|routes| - 1]);
      RouteOptionsPlain(|routes| - 1);
    }
  }

  lemma {:induction false} FirstAt(front: Command, option: string, rest: Command)
    requires option !in front
    ensures First(front + [option] + rest, option) == |front|
  {
    var command := front + [option] + rest;
    if front == [] {
      assert command[0] == option;
    } else {
      assert command[0] == front[0] && command[1..] == front[1..] + [option] + rest;
      FirstAt(front[1..], option, rest);
    }
  }

  /** The word behind the first occurrence. */
  lemma ValueBehind(front: Command, option: string, rest: Command)
    requires option !in front
    ensures OptionValue(front + [option] + rest, option)
      == if rest == [] then Err("option has no value") else Ok(rest[0])
  {
    FirstAt(front, option, rest);
  }

  // ---------- which commands pass the check

  /** Every value but the serial is no word the packager looks for, and paths are not empty. */
  ghost predicate PlainValues(q: Request, apk: string) {
    && Plain([q.script, apk, q.windowsExe, q.hostExe]) && apk != "" && q.windowsExe != "" && q.hostExe != ""
    && (q.adb.Some? ==> q.adb.value != "" && !Special(q.adb.value))
    && PlainRoutes(q.routes)
  }

  /** The serials that the packager mistakes for an option, or that hide a flag from it. */
  predicate Clashes(q: Request) {
    || q.serial == BUILD
    || (q.serial == LOCKED && !q.expectLocked)
    || (q.serial == LEGACY && !q.removeLegacy)
    || (q.serial == ADB && q.adb.None?)
    || (q.serial == KEY && (q.expectLocked || q.removeLegacy))
  }

  /** The end of the command as the report shows it. */
  function ShownTail(q: Request): Command {
    var tail := Flags(q) + RoutePart(q.routes);
    if q.serial == KEY && tail != [] then [REDACTED] + tail[1..] else tail
  }

  function ShownFront(q: Request, apk: string): Command {
    Head(q, apk) + AdbPart(q.adb) + SerialPart(q.serial)
  }

  lemma TailWords(q: Request, word: string)
    requires PlainRoutes(q.routes) && Special(word)
    ensures word in Flags(q) + RoutePart(q.routes)
      <==> (word == LOCKED && q.expectLocked) || (word == LEGACY && q.removeLegacy)
  {
    hide Special, RoutePart;
    SpecialsDiffer();
    RoutesPlain(q, word);
    var flags, routes := Flags(q), RoutePart(q.routes);
    assert word in flags + routes <==> word in flags || word in routes;
  }

  lemma ShownTailWords(q: Request, word: string)
    requires PlainRoutes(q.routes) && Special(word)
    ensures word in ShownTail(q) <==>
      (word == LOCKED && q.expectLocked && q.serial != KEY)
      || (word == LEGACY && q.removeLegacy && (q.serial != KEY || q.expectLocked))
  {
    hide Special, RoutePart;
    TailWords(q, word);
    SpecialsDiffer();
    var tail := Flags(q) + RoutePart(q.routes);
    if q.serial == KEY && tail != [] {
      PlainWords();
      assert word != REDACTED;
      assert forall x :: x in [REDACTED] + tail[1..] <==> x == REDACTED || x in tail[1..];
      RestOfTail(q, word);
    }
  }

  lemma RestOfTail(q: Request, word: string)
    requires PlainRoutes(q.routes) && Special(word) && Flags(q) + RoutePart(q.routes) != []
    ensures word in (Flags(q) + RoutePart(q.routes))[1..] <==> word == LEGACY && q.removeLegacy && q.expectLocked
  {
    hide Special, RoutePart;
    var routes := RoutePart(q.routes);
    var tail := Flags(q) + routes;
    PlainRoutePart(q.routes);
    RoutesPlain(q, word);
    SpecialsDiffer();
    if q.expectLocked && q.removeLegacy {
      assert tail[1..] == [LEGACY] + routes;
    } else if q.expectLocked || q.removeLegacy {
      assert tail[1..] == routes;
    } else {
      assert tail == routes;
      assert word in tail[1..] ==> word in tail;
    }
  }

  lemma RoutesPlain(q: Request, word: string)
    requires PlainRoutes(q.routes) && Special(word)
    ensures word !in RoutePart(q.routes)
  {
    PlainRoutePart(q.routes);
  }

  lemma HeadWords(q: Request, apk: string, word: string)
    requires PlainValues(q, apk) && Special(word)
    ensures word in Head(q, apk) <==> word == APK || word == WINDOWS || word == HOST
    ensures word !in Start(q.script)
  {
    hide Special;
    PlainWords();
    assert Plain([q.script, apk, q.windowsExe, q.hostExe]);
    var values := [q.script, apk, q.windowsExe, q.hostExe];
    assert values[0] == q.script && values[1] == apk && values[2] == q.windowsExe && values[3] == q.hostExe;
  }

  lemma FrontWords(q: Request, apk: string, word: string)
    requires PlainValues(q, apk) && Special(word)
    ensures word in ShownFront(q, apk) <==>
      word == APK || word == WINDOWS || word == HOST || (word == ADB && q.adb.Some?)
      || (q.serial != "" && (word == SERIAL || word == q.serial))
  {
    hide Head, Special;
    HeadWords(q, apk, word);
  }

  lemma ShownCommand(q: Request, apk: string)
    requires PlainValues(q, apk)
    ensures Redact(Build(q, apk)) == ShownFront(q, apk) + ShownTail(q)
  {
    hide Head, Flags, RoutePart, Redact, AdbPart, SerialPart, Special, PlainValues;
    var front, tail := ShownFront(q, apk), Flags(q) + RoutePart(q.routes);
    assert Build(q, apk) == front + tail;
    SpecialOnes();
    RoutesOfPlain(q, apk);
    FrontWords(q, apk, KEY);
    TailWords(q, KEY);
    SpecialsDiffer();
    if q.serial == KEY {
      KeyRedacted(q, apk, tail);
    } else {
      NothingRedacted(front + tail);
    }
  }

  lemma NothingRedacted(command: Command)
    requires KEY !in command
    ensures Redact(command) == command
  {
  }

  lemma KeyRedacted(q: Request, apk: string, tail: Command)
    requires PlainValues(q, apk) && q.serial == KEY
    ensures Redact(ShownFront(q, apk) + tail)
      == ShownFront(q, apk) + if tail == [] then tail else [REDACTED] + tail[1..]
  {
    hide Head, Special, PlainValues;
    SpecialsDiffer();
    SpecialOnes();
    var front, before := ShownFront(q, apk), Head(q, apk) + AdbPart(q.adb) + [SERIAL];
    BeforeSerial(q, apk);
    assert front == before + [KEY];
    FirstAt(before, KEY, tail);
    assert front + tail == before + [KEY] + tail;
    if tail != [] {
      assert (front + tail)[|front| := REDACTED] == front + ([REDACTED] + tail[1..]);
    }
  }

  lemma BeforeSerial(q: Request, apk: string)
    requires PlainValues(q, apk)
    ensures KEY !in Head(q, apk) + AdbPart(q.adb) + [SERIAL]
  {
    hide Head;
    SpecialsDiffer();
    HeadWords(q, apk, KEY);
  }

  lemma HeadApk(q: Request, apk: string, rest: Command)
    requires PlainValues(q, apk)
    ensures OptionValue(Head(q, apk) + rest, APK) == Ok(apk)
  {
    hide Special, Start, PlainValues;
    SpecialOnes();
    HeadWords(q, apk, APK);
    var behind := [apk, "-Launch", "-VerifyUi", WINDOWS, q.windowsExe, HOST, q.hostExe] + rest;
    ValueBehind(Start(q.script), APK, behind);
    assert Head(q, apk) + rest == Start(q.script) + [APK] + behind;
  }

  lemma HeadWindows(q: Request, apk: string, rest: Command)
    requires PlainValues(q, apk)
    ensures OptionValue(Head(q, apk) + rest, WINDOWS) == Ok(q.windowsExe)
  {
    hide Special, Start;
    SpecialsDiffer();
    SpecialOnes();
    HeadWords(q, apk, WINDOWS);
    PlainWords();
    assert !Special([q.script, apk, q.windowsExe, q.hostExe][1]);
    var front, behind := Start(q.script) + [APK, apk, "-Launch", "-VerifyUi"], [q.windowsExe, HOST, q.hostExe] + rest;
    ValueBehind(front, WINDOWS, behind);
    assert Head(q, apk) + rest == front + [WINDOWS] + behind;
  }

  lemma HeadHost(q: Request, apk: string, rest: Command)
    requires PlainValues(q, apk)
    ensures OptionValue(Head(q, apk) + rest, HOST) == Ok(q.hostExe)
  {
    hide Special, Start;
    SpecialsDiffer();
    SpecialOnes();
    HeadWords(q, apk, HOST);
    PlainWords();
    var values := [q.script, apk, q.windowsExe, q.hostExe];
    assert !Special(values[1]) && !Special(values[2]);
    var front, behind :=
      Start(q.script) + [APK, apk, "-Launch", "-VerifyUi", WINDOWS, q.windowsExe], [q.hostExe] + rest;
    ValueBehind(front, HOST, behind);
    assert Head(q, apk) + rest == front + [HOST] + behind;
  }

  lemma SpecialOnes()
    ensures Special(APK) && Special(WINDOWS) && Special(HOST) && Special(ADB) && Special(SERIAL) && Special(BUILD)
    ensures Special(LOCKED) && Special(LEGACY) && Special(KEY)
  {
  }

  lemma AdbChecked(q: Request, apk: string, resolve: string -> string)
    requires PlainValues(q, apk)
    ensures OptionalPathGiven(ShownFront(q, apk) + ShownTail(q), ADB, if q.adb.Some? then q.adb.value else "", resolve)
      <==> q.adb.Some? || q.serial != ADB
  {
    hide Special, Head, ShownTail;
    SpecialsDiffer();
    SpecialOnes();
    var tail := ShownTail(q);
    HeadWords(q, apk, ADB);
    if q.adb.Some? {
      ValueBehind(Head(q, apk), ADB, [q.adb.value] + SerialPart(q.serial) + tail);
      assert ShownFront(q, apk) + tail == Head(q, apk) + [ADB] + ([q.adb.value] + SerialPart(q.serial) + tail);
    } else if q.serial == ADB {
      ValueBehind(Head(q, apk) + [SERIAL], ADB, tail);
      assert ShownFront(q, apk) + tail == Head(q, apk) + [SERIAL] + [ADB] + tail;
      if tail != [] { TailStart(q); }
    } else {
      FrontWords(q, apk, ADB);
      ShownTailWords(q, ADB);
      assert ADB !in ShownFront(q, apk) + tail;
    }
  }

  lemma TailStart(q: Request)
    requires PlainRoutes(q.routes) && ShownTail(q) != []
    ensures ShownTail(q)[0] != ""
  {
    hide RoutePart;
    PlainRoutePart(q.routes);
  }

  lemma SerialChecked(q: Request, apk: string)
    requires PlainValues(q, apk)
    ensures OptionalValueGiven(ShownFront(q, apk) + ShownTail(q), SERIAL, q.serial)
  {
    hide Special, Head, ShownTail;
    SpecialsDiffer();
    SpecialOnes();
    var tail := ShownTail(q);
    if q.serial != "" {
      HeadWords(q, apk, SERIAL);
      var front := Head(q, apk) + AdbPart(q.adb);
      assert SERIAL !in front;
      ValueBehind(front, SERIAL, [q.serial] + tail);
      assert ShownFront(q, apk) + tail == front + [SERIAL] + ([q.serial] + tail);
    } else {
      FrontWords(q, apk, SERIAL);
      ShownTailWords(q, SERIAL);
      assert SERIAL !in ShownFront(q, apk) + tail;
    }
  }

  lemma FlagsChecked(q: Request, apk: string)
    requires PlainValues(q, apk)
    ensures var command := ShownFront(q, apk) + ShownTail(q);
      && (BUILD in command <==> q.serial == BUILD)
      && (LOCKED in command <==> q.serial == LOCKED || (q.expectLocked && q.serial != KEY))
      && (LEGACY in command <==> q.serial == LEGACY || (q.removeLegacy && (q.serial != KEY || q.expectLocked)))
  {
    hide Special, ShownFront, ShownTail, PlainValues;
    SpecialsDiffer();
    SpecialOnes();
    RoutesOfPlain(q, apk);
    FrontWords(q, apk, BUILD);
    FrontWords(q, apk, LOCKED);
    FrontWords(q, apk, LEGACY);
    ShownTailWords(q, BUILD);
    ShownTailWords(q, LOCKED);
    ShownTailWords(q, LEGACY);
    NotEmpty();
  }

  lemma RoutesOfPlain(q: Request, apk: string)
    requires PlainValues(q, apk)
    ensures PlainRoutes(q.routes)
  {
  }

  lemma NotEmpty()
    ensures BUILD != "" && LOCKED != "" && LEGACY != ""
  {
    assert |BUILD| == 6 && |LOCKED| == 20 && |LEGACY| == 29;
  }

  /** The command a run reports passes the packager's check exactly when its serial does not clash.
      Paths need only agree in how the two tools resolve them. */
  lemma AcceptedExactly(q: Request, apk: string, resolve: string -> string)
    requires PlainValues(q, apk)
    ensures Accepted(Redact(Build(q, apk)), q, resolve(apk), resolve(q.windowsExe), resolve(q.hostExe), resolve)
      <==> !Clashes(q)
  {
    hide Special, Head, ShownFront, ShownTail, Redact, Build, PathGiven, OptionalPathGiven, OptionalValueGiven,
         PlainValues;
    ShownCommand(q, apk);
    PathsChecked(q, apk, resolve);
    AdbChecked(q, apk, resolve);
    SerialChecked(q, apk);
    FlagsChecked(q, apk);
    SpecialsDiffer();
  }

  lemma PathsChecked(q: Request, apk: string, resolve: string -> string)
    requires PlainValues(q, apk)
    ensures var command := ShownFront(q, apk) + ShownTail(q);
      && PathGiven(command, APK, resolve(apk), resolve)
      && PathGiven(command, WINDOWS, resolve(q.windowsExe), resolve)
      && PathGiven(command, HOST, resolve(q.hostExe), resolve)
  {
    hide Special, Head, ShownTail, OptionValue;
    var rest := AdbPart(q.adb) + SerialPart(q.serial) + ShownTail(q);
    assert ShownFront(q, apk) + ShownTail(q) == Head(q, apk) + rest;
    HeadApk(q, apk, rest);
    HeadWindows(q, apk, rest);
    HeadHost(q, apk, rest);
  }
}
