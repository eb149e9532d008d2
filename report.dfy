/**
 * `reportProblems` (index.js): prints a package's problems and says whether
 * there were any. The printed output is a sequence of line records.
 */
module Report {
  import opened Wrappers
  import opened Problems

  /** One line of the report; the wording of each message is not modelled. */
  datatype Line =
    | Header(package: string)
      // the dependency is not found in the main manifest
    | NotFoundLine(dependency: string)
      // the dependency requires version `required` at the root instead of `declared`
    | MismatchLine(dependency: string, required: Option<string>, declared: Option<string>)
      // the closing summary printed by `run` when any package had a problem
    | Summary

  /** `baseDeps[d]` on the root's own entries. */
  function RootVersion(base: map<string, string>, d: string): Option<string> {
    if d in base then Some(base[d]) else None
  }

  /** What the `forEach` callback prints for one record: nothing for a type it does not know. */
  function ProblemLines(base: map<string, string>, deps: VersionMap, p: Problem): seq<Line> {
    if p.kind == NotFound then [NotFoundLine(p.dependency)]
    else if p.kind == VersionMismatch then
      [MismatchLine(p.dependency, RootVersion(base, p.dependency), Get(deps, p.dependency))]
    else []
  }

  /** The lines printed for `ps`, in order. */
  function LinesOf(base: map<string, string>, deps: VersionMap, ps: seq<Problem>): seq<Line>
    decreases |ps|
  {
    if ps == [] then []
    else LinesOf(base, deps, ps[..|ps| - 1]) + ProblemLines(base, deps, ps[|ps| - 1])
  }

  /** Everything `reportProblems(pkgName, baseDeps, deps)` prints. */
  function ReportLines(pkgName: string, base: map<string, string>, deps: VersionMap): seq<Line> {
    var problems := FindProblems(base, deps);
    if problems == [] then [] else [Header(pkgName)] + LinesOf(base, deps, problems)
  }

  /** `reportProblems`: prints the report for one package and returns whether it found a problem. */
  method ReportProblems(pkgName: string, base: map<string, string>, deps: VersionMap)
    returns (anyProblem: bool, lines: seq<Line>)
    ensures anyProblem <==> FindProblems(base, deps) != []
    ensures lines == ReportLines(pkgName, base, deps)
  {
    var problems := FindProblems(base, deps);
    lines := [];
    if |problems| > 0 {
      lines := lines + [Header(pkgName)];
      var problemLines := PrintProblems(base, deps, problems);
      lines := lines + problemLines;
    }
    anyProblem := |problems| > 0;
  }

  /** The `problems.forEach(...)` loop: one line for each record of a known type, in order. */
  method PrintProblems(base: map<string, string>, deps: VersionMap, problems: seq<Problem>)
    returns (lines: seq<Line>)
    ensures lines == LinesOf(base, deps, problems)
  {
    lines := [];
    var i := 0;
    while i < |problems|
      invariant 0 <= i <= |problems|
      invariant lines == LinesOf(base, deps, problems[..i])
    {
      var problem := problems[i];
      assert problems[..i + 1][..i] == problems[..i] && problems[..i + 1][i] == problem;
      if problem.kind == NotFound {
        lines := lines + [NotFoundLine(problem.dependency)];
      } else if problem.kind == VersionMismatch {
        lines := lines + [MismatchLine(problem.dependency, RootVersion(base, problem.dependency), Get(deps, problem.dependency))];
      }
      i := i + 1;
    }
    assert problems[..|problems|] == problems;
  }

  /** With no `Ok` record in `ps`, each record gives exactly one line, in order. */
  lemma {:induction false} LinesOfOnePerProblem(base: map<string, string>, deps: VersionMap, ps: seq<Problem>)
    requires forall k :: 0 <= k < |ps| ==> ps[k].kind != Ok
    ensures |LinesOf(base, deps, ps)| == |ps|
    ensures forall k :: 0 <= k < |ps| ==> LinesOf(base, deps, ps)[k] == ProblemLines(base, deps, ps[k])[0]
    decreases |ps|
  {
    if ps != [] {
      var init := ps[..|ps| - 1];
      var last := ProblemLines(base, deps, ps[|ps| - 1]);
      LinesOfOnePerProblem(base, deps, init);
      assert |last| == 1;
      assert LinesOf(base, deps, ps) == LinesOf(base, deps, init) + last;
      forall k | 0 <= k < |ps|
        ensures LinesOf(base, deps, ps)[k] == ProblemLines(base, deps, ps[k])[0]
      {
        if k < |init| {
          assert init[k] == ps[k];
        }
      }
    }
  }

  /**
   * The report is empty when there is no problem; otherwise it is a header
   * naming the package followed by exactly one line per problem, in order.
   */
  lemma ReportShape(pkgName: string, base: map<string, string>, deps: VersionMap)
    ensures var problems := FindProblems(base, deps);
      var lines := ReportLines(pkgName, base, deps);
      && (problems == [] <==> lines == [])
      && (problems != [] ==>
            && |lines| == 1 + |problems|
            && lines[0] == Header(pkgName)
            && forall k :: 0 <= k < |problems| ==>
                 lines[k + 1] == (if problems[k].kind == NotFound then NotFoundLine(problems[k].dependency)
                                  else MismatchLine(problems[k].dependency, RootVersion(base, problems[k].dependency),
                                                    Get(deps, problems[k].dependency))))
  {
    var problems := FindProblems(base, deps);
    var lines := ReportLines(pkgName, base, deps);
    if problems != [] {
      var body := LinesOf(base, deps, problems);
      assert lines == [Header(pkgName)] + body;
      LinesOfOnePerProblem(base, deps, problems);
      forall k | 0 <= k < |problems|
        ensures lines[k + 1] == (if problems[k].kind == NotFound then NotFoundLine(problems[k].dependency)
                                 else MismatchLine(problems[k].dependency, RootVersion(base, problems[k].dependency),
                                                   Get(deps, problems[k].dependency)))
      {
        var p := problems[k];
        assert p.kind != Ok;
        assert lines[k + 1] == body[k] == ProblemLines(base, deps, p)[0];
      }
    }
  }

  /**
   * A mismatch line shows the root's (non-empty) version as the required one
   * and the package's own, different, version as the declared one.
   */
  lemma ReportMismatchVersions(pkgName: string, base: map<string, string>, deps: VersionMap, k: nat)
    requires DistinctKeys(deps)
    requires k < |FindProblems(base, deps)| && FindProblems(base, deps)[k].kind == VersionMismatch
    ensures var d := FindProblems(base, deps)[k].dependency;
      && d in base && base[d] != ""
      && Get(deps, d).Some? && Get(deps, d).value != base[d]
      && |ReportLines(pkgName, base, deps)| == 1 + |FindProblems(base, deps)|
      && ReportLines(pkgName, base, deps)[k + 1] == MismatchLine(d, Some(base[d]), Get(deps, d))
  {
    var problems := FindProblems(base, deps);
    var d := problems[k].dependency;
    MismatchVersions(base, deps, problems[k]);
    var lines := LinesOf(base, deps, problems);
    assert ReportLines(pkgName, base, deps) == [Header(pkgName)] + lines;
    LinesOfOnePerProblem(base, deps, problems);
    assert lines[k] == ProblemLines(base, deps, problems[k])[0];
  }

  /** The versions a mismatch record is about: the root's is non-empty and differs from the package's. */
  lemma MismatchVersions(base: map<string, string>, deps: VersionMap, p: Problem)
    requires DistinctKeys(deps)
    requires p in FindProblems(base, deps) && p.kind == VersionMismatch
    ensures p.dependency in base && base[p.dependency] != ""
    ensures Get(deps, p.dependency).Some? && Get(deps, p.dependency).value != base[p.dependency]
  {
    FindProblemsMember(base, deps, p);
    var i :| 0 <= i < |deps| && deps[i].0 == p.dependency && Judge(base, {}, deps[i].0, deps[i].1) == VersionMismatch;
    assert Get(deps, p.dependency) == Some(deps[i].1);
  }
}
