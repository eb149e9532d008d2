/**
 * `findProblems` (index.js): compares a sub-package's peer dependencies with
 * the root's development dependencies and lists every discrepancy.
 */
module Problems {
  import opened Wrappers

  /**
   * A JSON object from dependency name to version specifier, as its entries
   * come out of `Object.keys`. Parsed JSON never repeats a key (DistinctKeys).
   */
  type VersionMap = seq<(string, string)>

  predicate DistinctKeys(m: VersionMap) {
    forall i, j :: 0 <= i < j < |m| ==> m[i].0 != m[j].0
  }

  /** `Object.keys(m)`. */
  function Keys(m: VersionMap): (r: seq<string>)
    ensures |r| == |m| && forall i :: 0 <= i < |m| ==> r[i] == m[i].0
  {
    seq(|m|, i requires 0 <= i < |m| => m[i].0)
  }

  /** `Object.keys` lists each property once: a parsed object has one table entry per key. */
  lemma {:induction false} KeysCount(m: VersionMap)
    requires DistinctKeys(m)
    ensures |ToMap(m)| == |Keys(m)|
    decreases |m|
  {
    if m != [] {
      var init := m[..|m| - 1];
      assert DistinctKeys(init);
      KeysCount(init);
      assert m[|m| - 1].0 !in Keys(init);
      assert m[|m| - 1].0 !in ToMap(init);
    }
  }

  /**
   * The object as a lookup table: every key of `m` is defined, nothing else;
   * for a later duplicate the later value wins, as with `JSON.parse`.
   */
  function ToMap(m: VersionMap): (r: map<string, string>)
    ensures forall k :: k in r <==> k in Keys(m)
    ensures DistinctKeys(m) ==> forall i :: 0 <= i < |m| ==> r[m[i].0] == m[i].1
    decreases |m|
  {
    if m == [] then map[]
    else
      var init := m[..|m| - 1];
      assert Keys(m) == Keys(init) + [m[|m| - 1].0];
      ToMap(init)[m[|m| - 1].0 := m[|m| - 1].1]
  }

  /** `m[key]` on an own property: the value, or `undefined`. */
  function Get(m: VersionMap, key: string): (r: Option<string>)
    ensures r.Some? <==> key in Keys(m)
    ensures DistinctKeys(m) ==> forall i :: 0 <= i < |m| && m[i].0 == key ==> r == Some(m[i].1)
  {
    var t := ToMap(m);
    if key in t then Some(t[key]) else None
  }

  /** The three record types of the source; records of type `Ok` are filtered out. */
  datatype Kind = NotFound | VersionMismatch | Ok

  datatype Problem = Problem(kind: Kind, dependency: string)

  /** The dependency names of a list of problems, in order. */
  function Names(ps: seq<Problem>): (r: seq<string>)
    ensures |r| == |ps| && forall k :: 0 <= k < |ps| ==> r[k] == ps[k].dependency
  {
    seq(|ps|, k requires 0 <= k < |ps| => ps[k].dependency)
  }

  /**
   * What the property access `baseDeps[dep]` yields: `undefined`, an own
   * string value, or a member inherited from `Object.prototype` (a function
   * or an object, truthy, and never strictly equal to a string).
   */
  datatype Property = Undefined | Own(value: string) | Inherited

  /** The property names every plain JavaScript object inherits from `Object.prototype`. */
  const ObjectPrototype: set<string> := {
    "constructor", "__proto__", "hasOwnProperty", "isPrototypeOf", "propertyIsEnumerable",
    "toLocaleString", "toString", "valueOf",
    "__defineGetter__", "__defineSetter__", "__lookupGetter__", "__lookupSetter__"
  }

  /** Property lookup on an object with own properties `base` whose prototype provides `prototype`. */
  function PropertyOf(base: map<string, string>, prototype: set<string>, key: string): Property {
    if key in base then Own(base[key])
    else if key in prototype then Inherited
    else Undefined
  }

  /** JavaScript truthiness of a property value: `undefined` and `""` are falsy. */
  predicate Truthy(p: Property) {
    match p
    case Undefined => false
    case Own(v) => v != ""
    case Inherited => true
  }

  /**
   * The callback of the `map` step: the record type for one dependency.
   * It is `Ok` only for a non-empty root version equal to the package's, and
   * `NotFound` when the lookup finds nothing or the falsy `""`; a name the
   * root lacks but the prototype provides is a `VersionMismatch`.
   */
  function Judge(base: map<string, string>, prototype: set<string>, dep: string, version: string): (r: Kind)
    ensures r == Ok <==> dep in base && base[dep] != "" && base[dep] == version
    ensures r == NotFound <==> (dep !in base && dep !in prototype) || (dep in base && base[dep] == "")
  {
    var baseVersion := PropertyOf(base, prototype, dep);
    if !Truthy(baseVersion) then NotFound
    else if baseVersion != Own(version) then VersionMismatch
    else Ok
  }

  /** `Object.keys(deps).map(...).filter(result => result.type !== OK)` for a given prototype. */
  function FindProblemsIn(base: map<string, string>, prototype: set<string>, deps: VersionMap): (r: seq<Problem>)
    ensures |r| <= |deps|
    ensures forall k :: 0 <= k < |r| ==> r[k].kind != Ok
    ensures r == [] <==> forall i :: 0 <= i < |deps| ==> Judge(base, prototype, deps[i].0, deps[i].1) == Ok
    decreases |deps|
  {
    if deps == [] then []
    else
      var result := Problem(Judge(base, prototype, deps[0].0, deps[0].1), deps[0].0);
      (if result.kind == Ok then [] else [result]) + FindProblemsIn(base, prototype, deps[1..])
  }

  /**
   * `findProblems` exactly as written: the lookup `baseDeps[dep]` also sees
   * `Object.prototype`. Whether it finds any problem does not depend on that.
   */
  function FindProblemsAsWritten(base: map<string, string>, deps: VersionMap): (r: seq<Problem>)
    ensures forall k :: 0 <= k < |r| ==> r[k].kind != Ok
    ensures r == [] <==>
      forall i :: 0 <= i < |deps| ==> deps[i].0 in base && base[deps[i].0] != "" && base[deps[i].0] == deps[i].1
  {
    FindProblemsIn(base, ObjectPrototype, deps)
  }

  /**
   * `findProblems` as intended: only the root's own dependency entries are
   * consulted. There is no problem exactly when every declared dependency has
   * the same, non-empty version at the root; so an empty package map gives none.
   */
  function FindProblems(base: map<string, string>, deps: VersionMap): (r: seq<Problem>)
    ensures forall k :: 0 <= k < |r| ==> r[k].kind != Ok
    ensures r == [] <==>
      forall i :: 0 <= i < |deps| ==> deps[i].0 in base && base[deps[i].0] != "" && base[deps[i].0] == deps[i].1
  {
    FindProblemsIn(base, {}, deps)
  }

  /**
   * Records `written` and `intended` that the two readings produce for the same
   * entry: same dependency, and the same type unless the root lacks a name
   * that `Object.prototype` provides.
   */
  predicate Agrees(base: map<string, string>, written: Problem, intended: Problem) {
    && written.dependency == intended.dependency
    && (written.kind == intended.kind <==>
          !(intended.dependency in ObjectPrototype && intended.dependency !in base))
  }

  /** For one entry the two lookups agree on `Ok`, and otherwise differ only on prototype names. */
  lemma JudgeReadings(base: map<string, string>, d: string, v: string)
    ensures var w := Judge(base, ObjectPrototype, d, v);
      var f := Judge(base, {}, d, v);
      && (w == Ok <==> f == Ok)
      && Agrees(base, Problem(w, d), Problem(f, d))
  {
  }

  /**
   * The two readings report the same dependencies in the same order; a
   * record's type differs exactly for a name the root lacks and
   * `Object.prototype` provides, which as written is a `VersionMismatch`.
   */
  lemma {:induction false} AsWrittenRecords(base: map<string, string>, deps: VersionMap)
    ensures var written := FindProblemsAsWritten(base, deps);
      var intended := FindProblems(base, deps);
      && |written| == |intended|
      && forall k :: 0 <= k < |intended| ==> Agrees(base, written[k], intended[k])
    decreases |deps|
  {
    if deps != [] {
      AsWrittenRecords(base, deps[1..]);
      var d := deps[0].0;
      var w := Judge(base, ObjectPrototype, d, deps[0].1);
      var f := Judge(base, {}, d, deps[0].1);
      JudgeReadings(base, d, deps[0].1);
      assert FindProblemsAsWritten(base, deps) ==
        (if w == Ok then [] else [Problem(w, d)]) + FindProblemsAsWritten(base, deps[1..]);
      assert FindProblems(base, deps) ==
        (if f == Ok then [] else [Problem(f, d)]) + FindProblems(base, deps[1..]);
    }
  }

  /** Both readings name the same dependencies, so the flag `reportProblems` returns is the same. */
  lemma AsWrittenSameNames(base: map<string, string>, deps: VersionMap)
    ensures Names(FindProblemsAsWritten(base, deps)) == Names(FindProblems(base, deps))
  {
    AsWrittenRecords(base, deps);
  }

  /**
   * A peer dependency called `constructor` that the root does not declare:
   * as written it is reported as a version mismatch (against the inherited
   * `Object` constructor), where the intended result is "not found".
   */
  lemma ConstructorMisreported()
    ensures FindProblemsAsWritten(map[], [("constructor", "1.0.0")]) == [Problem(VersionMismatch, "constructor")]
    ensures FindProblems(map[], [("constructor", "1.0.0")]) == [Problem(NotFound, "constructor")]
  {
  }

  /**
   * A record is in the result exactly when it is not `Ok` and some entry of
   * the package map has that name and is judged that way.
   */
  lemma {:induction false} FindProblemsMember(base: map<string, string>, deps: VersionMap, p: Problem)
    ensures p in FindProblems(base, deps) <==>
      p.kind != Ok && exists i :: 0 <= i < |deps| && deps[i].0 == p.dependency && Judge(base, {}, deps[i].0, deps[i].1) == p.kind
    decreases |deps|
  {
    if deps != [] {
      FindProblemsMember(base, deps[1..], p);
      var rest := deps[1..];
      if exists i :: 0 <= i < |rest| && rest[i].0 == p.dependency && Judge(base, {}, rest[i].0, rest[i].1) == p.kind {
        var i :| 0 <= i < |rest| && rest[i].0 == p.dependency && Judge(base, {}, rest[i].0, rest[i].1) == p.kind;
        assert deps[i + 1] == rest[i];
      }
      if exists i :: 0 <= i < |deps| && deps[i].0 == p.dependency && Judge(base, {}, deps[i].0, deps[i].1) == p.kind {
        var i :| 0 <= i < |deps| && deps[i].0 == p.dependency && Judge(base, {}, deps[i].0, deps[i].1) == p.kind;
        if i > 0 { assert rest[i - 1] == deps[i]; }
      }
    }
  }

  /** `{NOT_FOUND, d}` is reported exactly for the declared `d` the root lacks or gives the falsy version `""`. */
  lemma FindProblemsNotFound(base: map<string, string>, deps: VersionMap, d: string)
    ensures Problem(NotFound, d) in FindProblems(base, deps) <==>
      d in Keys(deps) && (d !in base || base[d] == "")
  {
    FindProblemsMember(base, deps, Problem(NotFound, d));
    if d in Keys(deps) && (d !in base || base[d] == "") {
      var i :| 0 <= i < |deps| && Keys(deps)[i] == d;
      assert Judge(base, {}, deps[i].0, deps[i].1) == NotFound;
    }
  }

  /**
   * `{VERSION_MISMATCH, d}` is reported exactly when the root's version of
   * `d` is present, non-empty and different from a version the package declares for `d`.
   */
  lemma FindProblemsVersionMismatch(base: map<string, string>, deps: VersionMap, d: string)
    ensures Problem(VersionMismatch, d) in FindProblems(base, deps) <==>
      d in base && base[d] != "" && exists i :: 0 <= i < |deps| && deps[i].0 == d && deps[i].1 != base[d]
  {
    FindProblemsMember(base, deps, Problem(VersionMismatch, d));
  }

  /** A dependency whose version agrees with the root's non-empty version is not reported at all. */
  lemma FindProblemsSkipsMatches(base: map<string, string>, deps: VersionMap, i: nat)
    requires DistinctKeys(deps)
    requires i < |deps| && deps[i].0 in base && base[deps[i].0] != "" && base[deps[i].0] == deps[i].1
    ensures deps[i].0 !in Names(FindProblems(base, deps))
  {
    var r := FindProblems(base, deps);
    if deps[i].0 in Names(r) {
      var k :| 0 <= k < |r| && Names(r)[k] == deps[i].0;
      FindProblemsMember(base, deps, r[k]);
      assert false;
    }
  }

  /** `a` is `b` with some elements left out, in the same order. */
  predicate IsSubsequence<T(==)>(a: seq<T>, b: seq<T>)
    decreases |b|
  {
    if a == [] then true
    else if b == [] then false
    else (a[0] == b[0] && IsSubsequence(a[1..], b[1..])) || IsSubsequence(a, b[1..])
  }

  /** The reported names, in order, are a subsequence of the package map's keys. */
  lemma {:induction false} FindProblemsOrdered(base: map<string, string>, deps: VersionMap)
    ensures IsSubsequence(Names(FindProblems(base, deps)), Keys(deps))
    decreases |deps|
  {
    if deps != [] {
      var rest := FindProblems(base, deps[1..]);
      FindProblemsOrdered(base, deps[1..]);
      assert Keys(deps)[1..] == Keys(deps[1..]);
      var r := FindProblems(base, deps);
      if r != rest {
        assert r == [r[0]] + rest && r[0].dependency == deps[0].0;
        assert Names(r)[1..] == Names(rest);
      }
    }
  }

  /** No name occurs twice. */
  predicate Distinct(s: seq<string>) {
    forall i, j :: 0 <= i < j < |s| ==> s[i] != s[j]
  }

  /** With distinct keys, no dependency is reported twice. */
  lemma {:induction false} FindProblemsAtMostOnce(base: map<string, string>, deps: VersionMap)
    requires DistinctKeys(deps)
    ensures Distinct(Names(FindProblems(base, deps)))
    decreases |deps|
  {
    if deps != [] {
      var rest := FindProblems(base, deps[1..]);
      var r := FindProblems(base, deps);
      assert DistinctKeys(deps[1..]);
      FindProblemsAtMostOnce(base, deps[1..]);
      if r != rest {
        assert r == [r[0]] + rest && r[0].dependency == deps[0].0;
        forall k | 0 <= k < |rest| ensures rest[k].dependency != deps[0].0 {
          FindProblemsMember(base, deps[1..], rest[k]);
          var i :| 0 <= i < |deps[1..]| && deps[1..][i].0 == rest[k].dependency
            && Judge(base, {}, deps[1..][i].0, deps[1..][i].1) == rest[k].kind;
          assert deps[i + 1].0 == rest[k].dependency;
        }
      }
    }
  }
}
