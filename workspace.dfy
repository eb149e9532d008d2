/**
 * The workspace scan of index.js: the command-line ignore list, the root
 * manifest, `inspectDependencies` over the `./packages` directory and the
 * exit status chosen by `run`. The file system is an input: the directory
 * listing, with each entry's manifest already read and parsed (or not).
 */
module Workspace {
  import opened Wrappers
  import opened Text
  import opened Problems
  import opened Report

  /** The exceptions that end a run. */
  datatype Error =
    | InvalidArguments              // wrong number of command-line arguments
    | RootManifestUnreadable        // `./package.json` cannot be read or parsed
    | ManifestMissing(path: string) // `fs.statSync` throws on a missing sub-package manifest
    | CannotProcess(path: string)   // a sub-package manifest that cannot be read or parsed

  /** The two fields of a parsed manifest that matter; `None` is an absent (or falsy) field. */
  datatype Manifest = Manifest(devDependencies: Option<VersionMap>, peerDependencies: Option<VersionMap>)

  /**
   * A `package.json` as the file system and `JSON.parse` deliver it:
   * missing, unreadable or unparsable, or parsed.
   */
  datatype ManifestFile = Missing | Unreadable | Parsed(manifest: Manifest)

  /** An entry of `./packages` and the manifest inside it. */
  datatype Entry = Entry(name: string, file: ManifestFile)

  /** Each token of `ts` trimmed: the `map(pkgName => pkgName.trim())` step. */
  function TrimAll(ts: seq<string>): (r: seq<string>)
    ensures |r| == |ts|
    ensures forall k :: 0 <= k < |ts| ==> r[k] == Trim(ts[k]) && Trimmed(r[k])
  {
    seq(|ts|, k requires 0 <= k < |ts| => Trim(ts[k]))
  }

  /**
   * `readIgnorePackages`: no arguments ignore nothing; two arguments ignore
   * the comma-separated names of the second; any other count is an error.
   */
  function ReadIgnorePackages(args: seq<string>): (r: Result<seq<string>, Error>)
    ensures r.Failure? <==> |args| == 1 || |args| > 2
    ensures r.Failure? ==> r.error == InvalidArguments
    ensures |args| == 0 ==> r == Success([])
  {
    if |args| > 0 && |args| != 2 then Failure(InvalidArguments)
    else if |args| == 2 then Success(TrimAll(Split(args[1], ',')))
    else Success([])
  }

  /**
   * With two arguments there is one name per comma-separated piece of the
   * second, trimmed; no name holds a comma or starts or ends with whitespace.
   */
  lemma IgnoreListNames(flag: string, list: string)
    ensures var r := ReadIgnorePackages([flag, list]);
      && r.Success?
      && |r.value| == Count(list, ',') + 1
      && forall k :: 0 <= k < |r.value| ==>
           && r.value[k] == Trim(Split(list, ',')[k])
           && Trimmed(r.value[k])
           && ',' !in r.value[k]
  {
  }

  /** The first argument is never looked at. */
  lemma IgnoreFlagUnchecked(flag1: string, flag2: string, list: string)
    ensures ReadIgnorePackages([flag1, list]) == ReadIgnorePackages([flag2, list])
  {
  }

  /**
   * `readBaseDependencies`: the root manifest's `devDependencies`, or no
   * dependencies when the field is absent; a root manifest that cannot be
   * read or parsed is fatal.
   */
  function BaseDependencies(root: ManifestFile): (r: Result<map<string, string>, Error>)
    ensures r.Failure? <==> !root.Parsed?
    ensures r.Failure? ==> r.error == RootManifestUnreadable
    ensures root.Parsed? && root.manifest.devDependencies.None? ==> r == Success(map[])
    ensures root.Parsed? && root.manifest.devDependencies.Some? ==>
      var dev := root.manifest.devDependencies.value;
      && (forall d :: d in r.value <==> d in Keys(dev))
      && (DistinctKeys(dev) ==> forall i :: 0 <= i < |dev| ==> r.value[dev[i].0] == dev[i].1)
  {
    match root
    case Parsed(m) => Success(ToMap(m.devDependencies.GetOr([])))
    case _ => Failure(RootManifestUnreadable)
  }

  /** `./packages/<dir>/package.json`. */
  function ManifestPath(dir: string): string {
    "./packages/" + dir + "/package.json"
  }

  /** `pkgDirs.filter(dir => ignoredPackages.indexOf(dir) < 0)`. */
  function Visible(ignored: seq<string>, dirs: seq<Entry>): (r: seq<Entry>)
    ensures |r| <= |dirs|
    ensures forall e :: e in r <==> e in dirs && e.name !in ignored
    ensures IsSubsequence(r, dirs)
    decreases |dirs|
  {
    if dirs == [] then []
    else
      var rest := Visible(ignored, dirs[1..]);
      if dirs[0].name in ignored then
        assert rest != [] ==> IsSubsequence(rest, dirs[1..]);
        rest
      else
        assert ([dirs[0]] + rest)[1..] == rest;
        [dirs[0]] + rest
  }

  /** What scanning part of the workspace has produced: the result so far and the lines printed. */
  datatype Scan = Scan(result: Result<bool, Error>, lines: seq<Line>)

  /** One iteration of the `forEach` in `inspectDependencies`, for the package `e`. */
  function PackageStep(base: map<string, string>, e: Entry): Scan {
    match e.file
    case Missing => Scan(Failure(ManifestMissing(ManifestPath(e.name))), [])
    case Unreadable => Scan(Failure(CannotProcess(ManifestPath(e.name))), [])
    case Parsed(m) =>
      if m.peerDependencies.None? then Scan(Success(false), [])
      else
        var deps := m.peerDependencies.value;
        Scan(Success(FindProblems(base, deps) != []), ReportLines(e.name, base, deps))
  }

  /** The scan so far followed by one more package that has been inspected with result `step`. */
  function Continue(before: Scan, step: Scan): Scan
    requires before.result.Success?
  {
    var result := if step.result.Failure? then step.result
                  else Success(before.result.value || step.result.value);
    Scan(result, before.lines + step.lines)
  }

  /** Scanning the packages `es` in order; the first failing package ends the scan. */
  function InspectAll(base: map<string, string>, es: seq<Entry>): Scan
    decreases |es|
  {
    if es == [] then Scan(Success(false), [])
    else
      var before := InspectAll(base, es[..|es| - 1]);
      if before.result.Failure? then before
      else Continue(before, PackageStep(base, es[|es| - 1]))
  }

  /** Scanning one package more, after a prefix that has not failed. */
  lemma InspectOneMore(base: map<string, string>, es: seq<Entry>, n: nat)
    requires n < |es| && InspectAll(base, es[..n]).result.Success?
    ensures InspectAll(base, es[..n + 1]) == Continue(InspectAll(base, es[..n]), PackageStep(base, es[n]))
  {
    assert es[..n + 1][..n] == es[..n] && es[..n + 1][n] == es[n];
  }

  /** Once a prefix of the scan has failed, the later packages change nothing. */
  lemma {:induction false} FailureStops(base: map<string, string>, es: seq<Entry>, n: nat)
    requires n <= |es| && InspectAll(base, es[..n]).result.Failure?
    ensures InspectAll(base, es) == InspectAll(base, es[..n])
    decreases |es| - n
  {
    if n < |es| {
      var init := es[..|es| - 1];
      assert init[..n] == es[..n];
      FailureStops(base, init, n);
    } else {
      assert es[..n] == es;
    }
  }

  /**
   * The `forEach` callback of `inspectDependencies` for one package: a
   * missing or unusable manifest is an error, a manifest without
   * `peerDependencies` is skipped, and any other is reported on.
   */
  method InspectPackage(base: map<string, string>, dir: Entry) returns (scan: Scan)
    ensures scan == PackageStep(base, dir)
  {
    match dir.file {
      case Missing =>
        scan := Scan(Failure(ManifestMissing(ManifestPath(dir.name))), []);
      case Unreadable =>
        scan := Scan(Failure(CannotProcess(ManifestPath(dir.name))), []);
      case Parsed(pkgJson) =>
        scan := Scan(Success(false), []);
        if pkgJson.peerDependencies.Some? {
          var anyProblemPkg, pkgLines := ReportProblems(dir.name, base, pkgJson.peerDependencies.value);
          scan := Scan(Success(anyProblemPkg), pkgLines);
        }
    }
  }

  /**
   * `inspectDependencies`: scans the packages that are not ignored, in
   * listing order, printing each one's report and remembering whether any had a problem.
   */
  method InspectDependencies(base: map<string, string>, ignored: seq<string>, dirs: seq<Entry>)
    returns (result: Result<bool, Error>, lines: seq<Line>)
    ensures Scan(result, lines) == InspectAll(base, Visible(ignored, dirs))
  {
    var anyProblem := false;
    lines := [];
    var pkgDirs := Visible(ignored, dirs);
    var i := 0;
    while i < |pkgDirs|
      invariant 0 <= i <= |pkgDirs|
      invariant InspectAll(base, pkgDirs[..i]) == Scan(Success(anyProblem), lines)
    {
      var dir := pkgDirs[i];
      var step := InspectPackage(base, dir);
      InspectOneMore(base, pkgDirs, i);
      lines := lines + step.lines;
      if step.result.Failure? {
        result := step.result;
        FailureStops(base, pkgDirs, i + 1);
        return;
      }
      if step.result.value {
        anyProblem := true;
      }
      i := i + 1;
    }
    assert pkgDirs[..i] == pkgDirs;
    result := Success(anyProblem);
  }

  /** A package whose manifest cannot be used ends the scan. */
  predicate Fails(e: Entry) {
    !e.file.Parsed?
  }

  /** A package whose peer dependencies disagree with the root. */
  predicate HasProblems(base: map<string, string>, e: Entry) {
    && e.file.Parsed?
    && e.file.manifest.peerDependencies.Some?
    && FindProblems(base, e.file.manifest.peerDependencies.value) != []
  }

  /** A single package fails exactly when its manifest is unusable, and otherwise reports its problems. */
  lemma PackageStepResult(base: map<string, string>, e: Entry)
    ensures PackageStep(base, e).result.Failure? <==> Fails(e)
    ensures PackageStep(base, e).result.Success? ==> (PackageStep(base, e).result.value <==> HasProblems(base, e))
  {
  }

  /** The scan fails exactly when some package's manifest is missing or unusable. */
  lemma {:induction false} InspectAllFails(base: map<string, string>, es: seq<Entry>)
    ensures InspectAll(base, es).result.Failure? <==> exists e :: e in es && Fails(e)
    decreases |es|
  {
    if es != [] {
      var init := es[..|es| - 1];
      var last := es[|es| - 1];
      InspectAllFails(base, init);
      PackageStepResult(base, last);
      assert es == init + [last];
      assert forall e :: e in es <==> e in init || e == last;
    }
  }

  /** A scan that does not fail reports true exactly when some package has a problem. */
  lemma {:induction false} InspectAllFindsProblems(base: map<string, string>, es: seq<Entry>)
    ensures InspectAll(base, es).result.Success? ==>
      (InspectAll(base, es).result.value <==> exists e :: e in es && HasProblems(base, e))
    decreases |es|
  {
    if es != [] {
      var init := es[..|es| - 1];
      var last := es[|es| - 1];
      InspectAllFindsProblems(base, init);
      PackageStepResult(base, last);
      assert es == init + [last];
      assert forall e :: e in es <==> e in init || e == last;
    }
  }

  /** A failing scan carries the error of the first package whose manifest is unusable. */
  lemma {:induction false} InspectAllFirstError(base: map<string, string>, es: seq<Entry>, k: nat)
    requires k < |es| && Fails(es[k])
    requires forall j :: 0 <= j < k ==> !Fails(es[j])
    ensures InspectAll(base, es).result == PackageStep(base, es[k]).result
    decreases |es|
  {
    var init := es[..|es| - 1];
    if k < |init| {
      assert init[k] == es[k];
      InspectAllFirstError(base, init, k);
    } else {
      InspectAllFails(base, init);
    }
  }

  /**
   * `inspectDependencies` fails exactly when a directory that is not ignored
   * has a missing or unusable manifest; otherwise it reports true exactly
   * when a directory that is not ignored has a problem.
   */
  lemma InspectWorkspace(base: map<string, string>, ignored: seq<string>, dirs: seq<Entry>)
    ensures var scan := InspectAll(base, Visible(ignored, dirs));
      && (scan.result.Failure? <==> exists e :: e in dirs && e.name !in ignored && Fails(e))
      && (scan.result.Success? ==>
            (scan.result.value <==> exists e :: e in dirs && e.name !in ignored && HasProblems(base, e)))
  {
    InspectAllFails(base, Visible(ignored, dirs));
    InspectAllFindsProblems(base, Visible(ignored, dirs));
  }

  /** The directories that are ignored are never read: their manifests do not matter. */
  lemma {:induction false} IgnoredNeverRead(ignored: seq<string>, dirs: seq<Entry>, dirs': seq<Entry>)
    requires |dirs| == |dirs'|
    requires forall i :: 0 <= i < |dirs| ==> dirs[i].name == dirs'[i].name
    requires forall i :: 0 <= i < |dirs| && dirs[i].name !in ignored ==> dirs[i].file == dirs'[i].file
    ensures Visible(ignored, dirs) == Visible(ignored, dirs')
    decreases |dirs|
  {
    if dirs != [] {
      IgnoredNeverRead(ignored, dirs[1..], dirs'[1..]);
      if dirs[0].name !in ignored {
        assert dirs[0] == dirs'[0];
      }
    }
  }

  /** How a run ends: an exit status, or an uncaught exception. */
  datatype Termination = Exit(status: nat) | Fatal(error: Error)

  /** The end of a run and everything printed on the way. */
  datatype Outcome = Outcome(termination: Termination, lines: seq<Line>)

  /** The exit status `run` chooses: `process.exit(1)` after a problem, a normal exit otherwise. */
  function ExitStatus(anyProblem: bool): (status: nat)
    ensures status != 0 <==> anyProblem
  {
    if anyProblem then 1 else 0
  }

  /** `run(args)` over the root manifest `root` and the listing `dirs` of `./packages`. */
  function RunOutcome(args: seq<string>, root: ManifestFile, dirs: seq<Entry>): Outcome {
    match ReadIgnorePackages(args)
    case Failure(e) => Outcome(Fatal(e), [])
    case Success(ignored) =>
      match BaseDependencies(root)
      case Failure(e) => Outcome(Fatal(e), [])
      case Success(base) =>
        var scan := InspectAll(base, Visible(ignored, dirs));
        match scan.result
        case Failure(e) => Outcome(Fatal(e), scan.lines)
        case Success(anyProblem) =>
          Outcome(Exit(ExitStatus(anyProblem)), scan.lines + (if anyProblem then [Summary] else []))
  }

  /** `run`: parse the arguments, read the root manifest, inspect the packages, pick the exit status. */
  method Run(args: seq<string>, root: ManifestFile, dirs: seq<Entry>) returns (outcome: Outcome)
    ensures outcome == RunOutcome(args, root, dirs)
  {
    var ignoredPackages := ReadIgnorePackages(args);
    if ignoredPackages.Failure? {
      return Outcome(Fatal(ignoredPackages.error), []);
    }
    var baseDeps := BaseDependencies(root);
    if baseDeps.Failure? {
      return Outcome(Fatal(baseDeps.error), []);
    }
    var anyProblem, lines := InspectDependencies(baseDeps.value, ignoredPackages.value, dirs);
    if anyProblem.Failure? {
      return Outcome(Fatal(anyProblem.error), lines);
    }
    if anyProblem.value {
      lines := lines + [Summary];
    }
    outcome := Outcome(Exit(ExitStatus(anyProblem.value)), lines);
  }

  /**
   * A run that gets past its arguments and the root manifest exits with
   * status 1 exactly when some package that is not ignored has a problem and
   * none has an unusable manifest, with status 0 when none has a problem.
   */
  lemma RunExitStatus(args: seq<string>, root: ManifestFile, dirs: seq<Entry>)
    ensures var o := RunOutcome(args, root, dirs);
      && (o.termination == Exit(1) <==>
            && ReadIgnorePackages(args).Success? && root.Parsed?
            && var base := BaseDependencies(root).value;
               var ignored := ReadIgnorePackages(args).value;
               && (forall e :: e in dirs && e.name !in ignored ==> !Fails(e))
               && exists e :: e in dirs && e.name !in ignored && HasProblems(base, e))
      && (o.termination == Exit(0) <==>
            && ReadIgnorePackages(args).Success? && root.Parsed?
            && var base := BaseDependencies(root).value;
               var ignored := ReadIgnorePackages(args).value;
               forall e :: e in dirs && e.name !in ignored ==> !Fails(e) && !HasProblems(base, e))
  {
    if ReadIgnorePackages(args).Success? && root.Parsed? {
      InspectWorkspace(BaseDependencies(root).value, ReadIgnorePackages(args).value, dirs);
    }
  }

  /**
   * Bad arguments end the run before any file is read, and an unreadable
   * root manifest ends it before `./packages` is listed.
   */
  lemma RunFailsEarly(args: seq<string>, root: ManifestFile, root': ManifestFile, dirs: seq<Entry>, dirs': seq<Entry>)
    ensures |args| == 1 || |args| > 2 ==>
      RunOutcome(args, root, dirs) == RunOutcome(args, root', dirs') == Outcome(Fatal(InvalidArguments), [])
    ensures (|args| == 0 || |args| == 2) && !root.Parsed? ==>
      RunOutcome(args, root, dirs) == RunOutcome(args, root, dirs') == Outcome(Fatal(RootManifestUnreadable), [])
  {
  }
}
