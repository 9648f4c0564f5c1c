/** The installer's command line word by word, and when a report agrees with the command it shows. */
module InstallerTerms {
  import opened Wrappers
  import opened InstallerCommand

  /** An option and its value, when there is one. */
  function Asked(option: string, value: Option<string>): Command {
    if value.Some? then [option, value.value] else []
  }

  function RouteAt(routes: Routes, i: nat): Option<string> {
    if i < |routes| then routes[i] else None
  }

  function When(asked: bool, option: string): Command {
    if asked then [option] else []
  }

  /** The whole command: where every path and every switch stands. */
  lemma CommandSpelled(q: Request, apk: string)
    ensures Build(q, apk)
         == ["powershell", "-NoProfile", "-ExecutionPolicy", "Bypass", "-File", q.script, "-ApkPath", apk, "-Launch",
             "-VerifyUi", "-WindowsExePath", q.windowsExe, "-HostExePath", q.hostExe]
            + Asked("-AdbPath", q.adb) + Asked("-DeviceSerial", if q.serial == "" then None else Some(q.serial))
            + (When(q.expectLocked, "-ExpectControlLocked") + When(q.removeLegacy, "-RemoveLegacyBenchmarkPackage")
               + RoutesSpelled(q.routes))
  {
    RoutesExactly(q.routes);
    PartsSpelled(q);
    HeadSpelled(q, apk);
    hide *;
    BuildGrouped(q, apk);
  }

  lemma BuildGrouped(q: Request, apk: string)
    ensures Build(q, apk) == Head(q, apk) + AdbPart(q.adb) + SerialPart(q.serial) + (Flags(q) + RoutePart(q.routes))
  {
    hide Head, AdbPart, SerialPart, Flags, RoutePart;
  }

  lemma PartsSpelled(q: Request)
    ensures AdbPart(q.adb) == Asked("-AdbPath", q.adb)
    ensures SerialPart(q.serial) == Asked("-DeviceSerial", if q.serial == "" then None else Some(q.serial))
    ensures Flags(q)
         == When(q.expectLocked, "-ExpectControlLocked") + When(q.removeLegacy, "-RemoveLegacyBenchmarkPackage")
  {
  }

  lemma HeadSpelled(q: Request, apk: string)
    ensures Head(q, apk)
         == ["powershell", "-NoProfile", "-ExecutionPolicy", "Bypass", "-File", q.script, "-ApkPath", apk, "-Launch",
             "-VerifyUi", "-WindowsExePath", q.windowsExe, "-HostExePath", q.hostExe]
  {
  }

  /** The seven evidence paths in order. */
  function RoutesSpelled(routes: Routes): Command {
    Asked("-BluetoothRouteEvidencePath", RouteAt(routes, 0)) + Asked("-BluetoothRouteMobileLogPath", RouteAt(routes, 1))
    + Asked("-MakcuRouteEvidencePath", RouteAt(routes, 2)) + Asked("-MakcuRouteMobileLogPath", RouteAt(routes, 3))
    + Asked("-FinalSafeIdleEvidencePath", RouteAt(routes, 4)) + Asked("-FinalSafeIdleMobileLogPath", RouteAt(routes, 5))
    + Asked("-FinalSafeIdleUiXmlPath", RouteAt(routes, 6))
  }

  lemma RoutesExactly(routes: Routes)
    ensures RoutePart(routes) == RoutesSpelled(routes)
  {
    RoutesPrefix(routes, |routes|);
    assert routes[..|routes|] == routes;
  }

  lemma {:induction false} RoutesPrefix(routes: Routes, n: nat)
    requires n <= |routes|
    ensures RoutePart(routes[..n]) == RoutesSpelled(routes[..n])
  {
    hide RoutePart, RoutesSpelled, ROUTE_OPTIONS;
    if n == 0 {
      NoRoutes();
      NothingSpelled(routes[..0]);
    } else {
      RoutesPrefix(routes, n - 1);
      OneMoreRoute(routes, n - 1);
      OneMoreSpelled(routes, n - 1);
    }
  }

  lemma NothingSpelled(routes: Routes)
    requires routes == []
    ensures RoutesSpelled(routes) == []
  {
  }

  lemma OneMoreSpelled(routes: Routes, i: nat)
    requires i < |routes|
    ensures RoutesSpelled(routes[..i + 1]) == RoutesSpelled(routes[..i]) + Asked(ROUTE_OPTIONS[i], routes[i])
  {
    hide ROUTE_OPTIONS;
    var before, after := routes[..i], routes[..i + 1];
    forall j: nat | j != i ensures RouteAt(before, j) == RouteAt(after, j) {}
    OptionNames();
  }

  lemma OptionNames()
    ensures |ROUTE_OPTIONS| == 7
    ensures ROUTE_OPTIONS[0] == "-BluetoothRouteEvidencePath" && ROUTE_OPTIONS[1] == "-BluetoothRouteMobileLogPath"
    ensures ROUTE_OPTIONS[2] == "-MakcuRouteEvidencePath" && ROUTE_OPTIONS[3] == "-MakcuRouteMobileLogPath"
    ensures ROUTE_OPTIONS[4] == "-FinalSafeIdleEvidencePath" && ROUTE_OPTIONS[5] == "-FinalSafeIdleMobileLogPath"
    ensures ROUTE_OPTIONS[6] == "-FinalSafeIdleUiXmlPath"
  {
  }

  /** What is shown of a command: the word behind the first `--private-key` is covered, the rest stays. */
  lemma RedactSpelled(front: Command, secret: string, rest: Command)
    requires "--private-key" !in front
    ensures Redact(front) == front && Redact(front + ["--private-key"]) == front + ["--private-key"]
    ensures Redact(front + ["--private-key"] + ([secret] + rest))
         == front + ["--private-key", "<redacted-offline-key-path>"] + rest
  {
    hide First;
    FirstAt(front, KEY, []);
    assert front + [KEY] + [] == front + [KEY];
    FirstAt(front, KEY, [secret] + rest);
    var command := front + [KEY] + ([secret] + rest);
    assert command[|front| + 1 := REDACTED] == front + [KEY, REDACTED] + rest;
  }

  // ---------- the command against the report

  /** The path of the report's debug bridge, empty without one. */
  function AdbText(q: Request): string {
    if q.adb.Some? then q.adb.value else ""
  }

  /** Both tools were given the same: every path resolves alike, the serial and the switches are equal. */
  ghost predicate Agree(q: Request, apk: string, r: Request, apkAt: string, windowsAt: string, hostAt: string,
                        resolve: string -> string) {
    && resolve(apk) == apkAt && resolve(q.windowsExe) == windowsAt && resolve(q.hostExe) == hostAt
    && (if q.adb.Some? then AdbText(r) != "" && resolve(q.adb.value) == resolve(AdbText(r)) else AdbText(r) == "")
    && q.serial == r.serial && q.expectLocked == r.expectLocked && q.removeLegacy == r.removeLegacy
  }

  /** A command that was built for `q`, and whose serial clashes with no option, passes the check against a
      report of `r` exactly when the two agree. */
  lemma PassesIffAgrees(q: Request, apk: string, r: Request, apkAt: string, windowsAt: string, hostAt: string,
                        resolve: string -> string)
    requires PlainValues(q, apk) && !Clashes(q)
    ensures Accepted(Redact(Build(q, apk)), r, apkAt, windowsAt, hostAt, resolve)
       <==> Agree(q, apk, r, apkAt, windowsAt, hostAt, resolve)
  {
    hide Special, Head, ShownFront, ShownTail, Redact, Build, PathGiven, OptionalPathGiven, OptionalValueGiven,
         PlainValues;
    ShownCommand(q, apk);
    PathsCompared(q, apk, apkAt, windowsAt, hostAt, resolve);
    AdbCompared(q, apk, AdbText(r), resolve);
    SerialCompared(q, apk, r.serial);
    FlagsChecked(q, apk);
    SpecialsDiffer();
  }

  lemma PathsCompared(q: Request, apk: string, apkAt: string, windowsAt: string, hostAt: string,
                      resolve: string -> string)
    requires PlainValues(q, apk)
    ensures var command := ShownFront(q, apk) + ShownTail(q);
      && (PathGiven(command, APK, apkAt, resolve) <==> resolve(apk) == apkAt)
      && (PathGiven(command, WINDOWS, windowsAt, resolve) <==> resolve(q.windowsExe) == windowsAt)
      && (PathGiven(command, HOST, hostAt, resolve) <==> resolve(q.hostExe) == hostAt)
  {
    hide Special, Head, ShownTail, OptionValue;
    var rest := AdbPart(q.adb) + SerialPart(q.serial) + ShownTail(q);
    assert ShownFront(q, apk) + ShownTail(q) == Head(q, apk) + rest;
    HeadApk(q, apk, rest);
    HeadWindows(q, apk, rest);
    HeadHost(q, apk, rest);
  }

  lemma AdbCompared(q: Request, apk: string, expected: string, resolve: string -> string)
    requires PlainValues(q, apk) && (q.serial == ADB ==> q.adb.Some?)
    ensures OptionalPathGiven(ShownFront(q, apk) + ShownTail(q), ADB, expected, resolve)
       <==> if q.adb.Some? then expected != "" && resolve(q.adb.value) == resolve(expected) else expected == ""
  {
    hide Special, Head, ShownTail;
    SpecialsDiffer();
    SpecialOnes();
    var tail := ShownTail(q);
    HeadWords(q, apk, ADB);
    if q.adb.Some? {
      ValueBehind(Head(q, apk), ADB, [q.adb.value] + SerialPart(q.serial) + tail);
      assert ShownFront(q, apk) + tail == Head(q, apk) + [ADB] + ([q.adb.value] + SerialPart(q.serial) + tail);
    } else {
      FrontWords(q, apk, ADB);
      ShownTailWords(q, ADB);
      assert ADB !in ShownFront(q, apk) + tail;
    }
  }

  lemma SerialCompared(q: Request, apk: string, expected: string)
    requires PlainValues(q, apk)
    ensures OptionalValueGiven(ShownFront(q, apk) + ShownTail(q), SERIAL, expected) <==> q.serial == expected
  {
    hide Special, Head, ShownTail, ShownFront, OptionValue;
    SerialChecked(q, apk);
  }
}
