/** Where the theorems of `ModuleOrder` end: scripts required by their literal real path, and
    scripts that export null, undefined or 1. */
module ModuleLimits {
  import opened Search
  import opened Modules
  import opened ModuleCache
  import opened ModuleOrder

  /** Requiring a script that is still loading throws, unless it is named by its literal real
      path: then the name is itself the key of the mark, and the mark is returned. */
  lemma LoopIsCaught(fs: FileSystem, st: State, path: seq<string>, name: string, f: string)
    requires WellFormed(fs) && ProperExports(fs) && CacheSound(fs, st) && Inv(fs, st, path)
    requires Resolve(fs, st.dir, name) == Some(f) && f in path
    ensures var r := Require(fs, st, name);
      && (r.outcome.Thrown? <==> !(IsAbsolute(name) && name == f))
      && (r.outcome.Thrown? ==> r == Result(st, Thrown(Loop(f))))
      && (r.outcome.Returned? ==> r == Result(st, Returned(One)))
  {
    assert f !in st.finished && fs.realPath[f] == f;
    assert Has(st.cache, Path(f)) && st.cache[Path(f)] == One;
    var key := KeyOf(st.dir, name);
    if key.Local? {
      assert !Has(st.cache, key);
    } else {
      assert Has(st.cache, key) <==> name == f;
    }
    if !Has(st.cache, key) {
      assert Fetch(fs, st, name) == Result(st, Thrown(Loop(f)));
    }
  }

  /** `requireAbsolute` runs a script exactly when nothing but null is remembered for it: a
      script that exports null or undefined runs again each time. */
  lemma RunsUnlessRemembered(fs: FileSystem, st: State, p: string)
    requires WellFormed(fs) && p in fs.realPath && fs.realPath[p] in fs.files
    ensures var f := fs.realPath[p]; var r := RequireAbsolute(fs, st, p);
      && (Has(st.cache, Path(f)) ==> r.state.started == st.started)
      && (!Has(st.cache, Path(f)) ==> st.started + [f] <= r.state.started)
      && (r.outcome.Returned? ==>
            (Has(r.state.cache, Path(f)) <==> r.outcome.value != Null))
  {
  }

  /** A script that exports the number 1 is taken for one that is still loading: the second
      load of it throws although nothing is. */
  lemma ExportedMarkThrows(fs: FileSystem, st: State, p: string)
    requires WellFormed(fs) && p in fs.realPath && fs.realPath[p] in fs.files
    requires RequireAbsolute(fs, st, p).outcome.Returned?
    ensures var r := RequireAbsolute(fs, st, p); var again := RequireAbsolute(fs, r.state, p);
      && (r.outcome.value == One ==> again == Result(r.state, Thrown(Loop(fs.realPath[p]))))
      && (r.outcome.value != One && r.outcome.value != Null ==> again == Result(r.state, r.outcome))
  {
  }

  /** `f` is marked as loading. */
  predicate Marked(st: State, f: string) { Path(f) in st.cache && st.cache[Path(f)] == One }

  /** While it is, every path to it throws. */
  lemma MarkedThrows(fs: FileSystem, st: State, p: string)
    requires WellFormed(fs) && p in fs.realPath && Marked(st, fs.realPath[p])
    ensures RequireAbsolute(fs, st, p) == Result(st, Thrown(Loop(fs.realPath[p])))
  {
  }

  /** What was begun from `st` on has either been finished since or is marked. */
  ghost predicate BegunIsMarked(fs: FileSystem, st: State, st': State) {
    && st.started <= st'.started && st.finished <= st'.finished
    && (forall f :: f in fs.files && Marked(st, f) ==> Marked(st', f))
    && (forall f :: f in st'.started[|st.started|..] ==>
          f in fs.files && (f in st'.finished[|st.finished|..] || Marked(st', f)))
  }

  /** Whatever error a load throws, at whatever depth, is true: the file is not there, or it cannot be
      opened, or the path is marked. */
  ghost predicate Truthful(fs: FileSystem, r: Result) {
    r.outcome.Thrown? ==>
      match r.outcome.error
      case CannotFind(n) => n !in fs.realPath || FindInclude(fs, fs.includePath, n).None?
      case CannotOpen(f) => f in fs.realPath && f !in fs.files
      case Loop(f) => f in fs.realPath && Marked(r.state, f)
  }

  lemma BegunJoins(fs: FileSystem, a: State, b: State, c: State)
    requires BegunIsMarked(fs, a, b) && BegunIsMarked(fs, b, c)
    ensures BegunIsMarked(fs, a, c)
  {
    assert c.started[|a.started|..] == b.started[|a.started|..] + c.started[|b.started|..];
    assert c.finished[|a.finished|..] == b.finished[|a.finished|..] + c.finished[|b.finished|..];
  }

  lemma {:induction false} RequireMarks(fs: FileSystem, st: State, name: string)
    requires WellFormed(fs)
    ensures BegunIsMarked(fs, st, Require(fs, st, name).state) && Truthful(fs, Require(fs, st, name))
    decreases Unmarked(fs, st), 1, 1
  {
    if !Has(st.cache, KeyOf(st.dir, name)) {
      FetchMarks(fs, st, name);
    }
  }

  lemma {:induction false} FetchMarks(fs: FileSystem, st: State, name: string)
    requires WellFormed(fs)
    ensures BegunIsMarked(fs, st, Fetch(fs, st, name).state) && Truthful(fs, Fetch(fs, st, name))
    decreases Unmarked(fs, st), 1, 0
  {
    if IsAbsolute(name) {
      AbsoluteMarks(fs, st, name);
    } else if IsRelative(name) {
      AbsoluteMarks(fs, st, JoinPath(st.dir, name));
    } else if FindInclude(fs, fs.includePath, name).Some? {
      AbsoluteMarks(fs, st, FindInclude(fs, fs.includePath, name).value);
    }
  }

  lemma {:induction false} AbsoluteMarks(fs: FileSystem, st: State, p: string)
    requires WellFormed(fs)
    ensures BegunIsMarked(fs, st, RequireAbsolute(fs, st, p).state) && Truthful(fs, RequireAbsolute(fs, st, p))
    ensures p in fs.realPath && RequireAbsolute(fs, st, p).outcome.Thrown? ==>
      Marked(RequireAbsolute(fs, st, p).state, fs.realPath[p])
    decreases Unmarked(fs, st), 0, 0
  {
    if p in fs.realPath && fs.realPath[p] in fs.files && !Has(st.cache, Path(fs.realPath[p])) {
      var f := fs.realPath[p];
      var marked := Remember(st, Path(f), One);
      assert Unmarked(fs, marked) == Unmarked(fs, st) - {f};
      RunMarks(fs, st, marked, f);
    }
  }

  lemma {:induction false} RunMarks(fs: FileSystem, st: State, marked: State, f: string)
    requires WellFormed(fs) && f in fs.files && marked == Remember(st, Path(f), One)
    ensures var r := Run(fs, marked, f);
      && BegunIsMarked(fs, marked, r.state) && Marked(r.state, f) && Truthful(fs, r)
      && (r.outcome.Returned? ==> f in r.state.finished[|st.finished|..])
    decreases Unmarked(fs, marked), 3, 0
  {
    var inside := Begin(marked, f, fs.files[f]);
    var r := Body(fs, inside, fs.files[f].steps);
    assert inside.started[|marked.started|..] == [f];
    BodyMarks(fs, inside, fs.files[f].steps);
    BegunJoins(fs, marked, inside, r.state);
    if r.outcome.Returned? {
      assert (r.state.finished + [f])[|st.finished|..] == r.state.finished[|st.finished|..] + [f];
    }
  }

  lemma {:induction false} BodyMarks(fs: FileSystem, st: State, steps: seq<Step>)
    requires WellFormed(fs)
    ensures BegunIsMarked(fs, st, Body(fs, st, steps).state) && Truthful(fs, Body(fs, st, steps))
    decreases Unmarked(fs, st), 2, |steps|
  {
    if steps != [] {
      match steps[0]
      case Assigns(v) => BodyMarks(fs, st.(exports := v), steps[1..]);
      case Requires(name) =>
        RequireMarks(fs, st, name);
        var r := Require(fs, st, name);
        if r.outcome.Returned? {
          BodyMarks(fs, r.state, steps[1..]);
          BegunJoins(fs, st, r.state, Body(fs, r.state, steps[1..]).state);
        }
    }
  }

  /** So with every require. */
  lemma ErrorsAreTrue(fs: FileSystem, st: State, name: string)
    requires WellFormed(fs)
    ensures Truthful(fs, Require(fs, st, name))
  {
    RequireMarks(fs, st, name);
  }

  // ---- steps and errors ----

  /** Steps are taken in their order: a list of them in two stretches, the second only if the first
      did not throw. */
  lemma {:induction false} BodyInTurn(fs: FileSystem, st: State, a: seq<Step>, b: seq<Step>)
    requires WellFormed(fs)
    ensures var r := Body(fs, st, a);
      Body(fs, st, a + b) == if r.outcome.Thrown? then r else Body(fs, r.state, b)
    decreases |a|
  {
    if a == [] {
      assert a + b == b;
    } else {
      assert (a + b)[1..] == a[1..] + b;
      match a[0]
      case Assigns(v) => BodyInTurn(fs, st.(exports := v), a[1..], b);
      case Requires(name) =>
        var r := Require(fs, st, name);
        if r.outcome.Returned? {
          BodyInTurn(fs, r.state, a[1..], b);
        }
    }
  }

  /** One step: an assignment changes the variable and nothing else, and a require does what it does. */
  lemma OneStepOnly(fs: FileSystem, st: State, step: Step)
    requires WellFormed(fs)
    ensures step.Assigns? ==>
      Body(fs, st, [step]).outcome.Returned? && Body(fs, st, [step]).state == st.(exports := step.value)
    ensures step.Requires? ==>
      var r, q := Body(fs, st, [step]), Require(fs, st, step.name);
      && r.state == q.state
      && (q.outcome.Thrown? ==> r.outcome == q.outcome)
      && (q.outcome.Returned? ==> r.outcome.Returned?)
  {
    assert [step][1..] == [];
  }

  /** What a script throws is what its first failing require threw, error and all, and that is what
      loading it throws. */
  lemma {:induction false} ThrowPassesThrough(fs: FileSystem, st: State, p: string) returns (k: nat)
    requires WellFormed(fs) && p in fs.realPath && fs.realPath[p] in fs.files
    requires !Has(st.cache, Path(fs.realPath[p])) && RequireAbsolute(fs, st, p).outcome.Thrown?
    ensures var f := fs.realPath[p]; var steps := fs.files[f].steps;
      && k < |steps| && steps[k].Requires?
      && var before := Body(fs, Begin(Remember(st, Path(f), One), f, fs.files[f]), steps[..k]);
      && before.outcome.Returned?
      && Require(fs, before.state, steps[k].name).outcome == RequireAbsolute(fs, st, p).outcome
  {
    var f := fs.realPath[p];
    k := FirstThrow(fs, Begin(Remember(st, Path(f), One), f, fs.files[f]), fs.files[f].steps);
  }

  lemma {:induction false} FirstThrow(fs: FileSystem, st: State, steps: seq<Step>) returns (k: nat)
    requires WellFormed(fs) && Body(fs, st, steps).outcome.Thrown?
    ensures k < |steps| && steps[k].Requires?
    ensures var before := Body(fs, st, steps[..k]);
      before.outcome.Returned? && Require(fs, before.state, steps[k].name).outcome == Body(fs, st, steps).outcome
    decreases |steps|
  {
    k := 0;
    match steps[0]
    case Assigns(v) =>
      var j := FirstThrow(fs, st.(exports := v), steps[1..]);
      k := j + 1;
      assert steps[..k][1..] == steps[1..][..j];
    case Requires(name) =>
      var r := Require(fs, st, name);
      if r.outcome.Returned? {
        var j := FirstThrow(fs, r.state, steps[1..]);
        k := j + 1;
        assert steps[..k][1..] == steps[1..][..j];
      } else {
        assert steps[..0] == [];
      }
  }

  /** How a path fails before any script begins: it does not exist, it is marked, or it cannot be
      opened and becomes marked; told apart by the error, which otherwise a script threw that ran. */
  lemma FailsAtOnce(fs: FileSystem, st: State, p: string)
    requires WellFormed(fs)
    ensures var r := RequireAbsolute(fs, st, p);
      && (p !in fs.realPath <==> r == Result(st, Thrown(CannotFind(p))))
      && (p in fs.realPath ==>
            var f := fs.realPath[p];
            && (Marked(st, f) <==> r == Result(st, Thrown(Loop(f))))
            && (!Has(st.cache, Path(f)) && f !in fs.files <==>
                  r == Result(Remember(st, Path(f), One), Thrown(CannotOpen(f))) && r.state != st))
      && (r.outcome.Thrown? && |r.state.started| == |st.started| ==>
            || p !in fs.realPath || Marked(st, fs.realPath[p])
            || (!Has(st.cache, Path(fs.realPath[p])) && fs.realPath[p] !in fs.files))
  {
    if p in fs.realPath && fs.realPath[p] in fs.files && !Has(st.cache, Path(fs.realPath[p])) {
      var f := fs.realPath[p];
      assert st.started + [f] <= Run(fs, Remember(st, Path(f), One), f).state.started;
    }
  }

  /** `f` was begun after `st` and not finished. */
  predicate Unfinished(st: State, st': State, f: string) {
    && |st.started| <= |st'.started| && |st.finished| <= |st'.finished|
    && f in st'.started[|st.started|..] && f !in st'.finished[|st.finished|..]
  }

  /** A load that threw leaves its marks behind: on its own path, whether or not that could be
      opened, on every script that was loading when it began, and on every script that it began
      and did not finish. None of them can ever be loaded again. */
  lemma FailureSticks(fs: FileSystem, st: State, p: string, q: string)
    requires WellFormed(fs) && p in fs.realPath && q in fs.realPath
    requires RequireAbsolute(fs, st, p).outcome.Thrown?
    requires var g := fs.realPath[q]; var st' := RequireAbsolute(fs, st, p).state;
      || g == fs.realPath[p]
      || (g in fs.files && Marked(st, g))
      || Unfinished(st, st', g)
    ensures var st' := RequireAbsolute(fs, st, p).state;
      RequireAbsolute(fs, st', q) == Result(st', Thrown(Loop(fs.realPath[q])))
  {
    AbsoluteMarks(fs, st, p);
    MarkedThrows(fs, RequireAbsolute(fs, st, p).state, q);
  }

  // ---- literal names ----

  /** Loading a script that only requires `name`. */
  lemma OneStep(fs: FileSystem, st: State, p: string, f: string, name: string, v: Value)
    requires WellFormed(fs) && p in fs.realPath && fs.realPath[p] == f && f in fs.files
    requires fs.files[f] == Script([Requires(name)], Some(v)) && !Has(st.cache, Path(f))
    ensures RequireAbsolute(fs, st, p).outcome ==
      var r := Require(fs, Begin(Remember(st, Path(f), One), f, fs.files[f]), name);
      if r.outcome.Thrown? then r.outcome else Returned(v)
  {
    var marked := Remember(st, Path(f), One);
    var inside := Begin(marked, f, fs.files[f]);
    var steps := [Requires(name)];
    assert steps[1..] == [];
    var r := Require(fs, inside, name);
    assert Body(fs, inside, steps) == if r.outcome.Thrown? then r else Result(r.state, Returned(Null));
    assert Run(fs, marked, f).outcome == if r.outcome.Thrown? then r.outcome else Returned(v);
  }

  /** "/a" requires itself by its literal path. */
  const SELF := FileSystem(map["/a" := Script([Requires("/a")], Some(Object(1)))], map["/a" := "/a"], [])

  /** The cycle goes unnoticed: the script is bad, and its load returns. */
  lemma SelfRequireReturns()
    ensures WellFormed(SELF) && ProperExports(SELF) && Bad(SELF, "/a")
    ensures Require(SELF, Fresh("/"), "/a").outcome == Returned(Object(1))
  {
    var f := "/a";
    assert SELF.files[f].steps[0] == Requires(f) && IsAbsolute(f);
    assert Resolve(SELF, Dirname(f), SELF.files[f].steps[0].name) == Some(f);
    assert Edge(SELF, f, f);
    var w := [f, f];
    assert w[0] == w[1] && IsWalk(SELF, w);
    var inside := Begin(Remember(Fresh("/"), Path(f), One), f, SELF.files[f]);
    assert Require(SELF, inside, f) == Result(inside, Returned(One));
    OneStep(SELF, Fresh("/"), f, f, f, Object(1));
    assert Fetch(SELF, Fresh("/"), f) == RequireAbsolute(SELF, Fresh("/"), f);
  }

  /** "/a" requires "./b", and "/b" requires "/a" by its literal path. */
  const MIXED := FileSystem(
    map["/a" := Script([Requires("./b")], Some(Object(1))), "/b" := Script([Requires("/a")], Some(Object(2)))],
    map["/a" := "/a", "/b" := "/b", "//./b" := "/b"], [])

  lemma MixedIsWellFormed()
    ensures WellFormed(MIXED)
  {
  }

  lemma InRoot(st: State)
    requires Local("/", "./b") !in st.cache && st.dir == "/"
    ensures WellFormed(MIXED)
    ensures Fetch(MIXED, st, "./b") == RequireAbsolute(MIXED, st, "//./b")
    ensures Require(MIXED, st, "./b").outcome == RequireAbsolute(MIXED, st, "//./b").outcome
    ensures Dirname("/a") == "/" == Dirname("/b")
  {
    MixedIsWellFormed();
    assert JoinPath("", "a") == "/a" && JoinPath("", "b") == "/b" && JoinPath("/", "./b") == "//./b";
    DirnameOfJoin("", "a");
    DirnameOfJoin("", "b");
    assert "./b"[..2] == "./";
    assert KeyOf("/", "./b") == Local("/", "./b") && IsRelative("./b");
  }

  /** Whether such a cycle is noticed depends on where it is entered: so between what must throw
      and what may throw the graph alone does not decide. */
  lemma EntryMatters()
    ensures WellFormed(MIXED)
    ensures Require(MIXED, Fresh("/"), "/a").outcome == Returned(Object(1))
    ensures Require(MIXED, Fresh("/"), "/b").outcome == Thrown(Loop("/b"))
  {
    MixedIsWellFormed();
    FromA();
    FromB();
  }

  lemma FromA()
    ensures WellFormed(MIXED)
    ensures Require(MIXED, Fresh("/"), "/a").outcome == Returned(Object(1))
  {
    MixedIsWellFormed();
    var st := Fresh("/");
    InRoot(st);
    var a := Begin(Remember(st, Path("/a"), One), "/a", MIXED.files["/a"]);
    InRoot(a);
    var b := Begin(Remember(a, Path("/b"), One), "/b", MIXED.files["/b"]);
    assert Require(MIXED, b, "/a") == Result(b, Returned(One));
    OneStep(MIXED, a, "//./b", "/b", "/a", Object(2));
    OneStep(MIXED, st, "/a", "/a", "./b", Object(1));
    assert Fetch(MIXED, st, "/a") == RequireAbsolute(MIXED, st, "/a");
  }

  /** While "/b" is loading, "/a" requires it by a name that is not its path. */
  lemma InsideB(b: State)
    requires b.dir == "/" && Marked(b, "/b") && b.cache.Keys == {Path("/b")}
    ensures WellFormed(MIXED)
    ensures Require(MIXED, b, "/a").outcome == Thrown(Loop("/b"))
  {
    MixedIsWellFormed();
    var a := Begin(Remember(b, Path("/a"), One), "/a", MIXED.files["/a"]);
    InRoot(a);
    assert RequireAbsolute(MIXED, a, "//./b") == Result(a, Thrown(Loop("/b")));
    OneStep(MIXED, b, "/a", "/a", "./b", Object(1));
    assert Fetch(MIXED, b, "/a") == RequireAbsolute(MIXED, b, "/a");
  }

  lemma FromB()
    ensures WellFormed(MIXED)
    ensures Require(MIXED, Fresh("/"), "/b").outcome == Thrown(Loop("/b"))
  {
    MixedIsWellFormed();
    var st := Fresh("/");
    InRoot(st);
    InsideB(Begin(Remember(st, Path("/b"), One), "/b", MIXED.files["/b"]));
    OneStep(MIXED, st, "/b", "/b", "/a", Object(2));
    assert Fetch(MIXED, st, "/b") == RequireAbsolute(MIXED, st, "/b");
  }

  // ---- keys as text ----

  /** The key of `requiredFiles` as the source writes it. */
  function KeyText(k: Key): string {
    match k
    case Path(p) => p
    case Local(d, n) => d + "?" + n
  }

  lemma FirstMark(d: string, n: string)
    requires '?' !in d
    ensures IndexOf(d + "?" + n, "?", 0) == Some(|d|)
  {
    var s := d + "?" + n;
    assert s[|d|..|d| + 1] == "?";
    forall q | 0 <= q < |d| ensures !OccursAt(s, "?", q) {
      assert s[q..q + 1] == [d[q]];
    }
    IndexOfIs(s, "?", |d|);
  }

  lemma NoMark(p: string)
    requires '?' !in p
    ensures IndexOf(p, "?", 0).None?
  {
    FirstOccurrence(p, "?", 0);
    forall q | 0 <= q && q + 1 <= |p| ensures !OccursAt(p, "?", q) {
      assert p[q..q + 1] == [p[q]];
    }
  }

  predicate NoQuestionMark(k: Key) {
    match k
    case Path(p) => '?' !in p
    case Local(d, _) => '?' !in d
  }

  /** Keeping both kinds of key in one table of strings is safe as long as no path and no
      directory holds a question mark. */
  lemma KeysDoNotCollide(a: Key, b: Key)
    requires NoQuestionMark(a) && NoQuestionMark(b) && KeyText(a) == KeyText(b)
    ensures a == b
  {
    MarkOf(a);
    MarkOf(b);
    if a.Local? {
      assert a.dir == KeyText(a)[..|a.dir|] && a.name == KeyText(a)[|a.dir| + 1..];
      assert b.dir == KeyText(b)[..|b.dir|] && b.name == KeyText(b)[|b.dir| + 1..];
    }
  }

  lemma MarkOf(k: Key)
    requires NoQuestionMark(k)
    ensures IndexOf(KeyText(k), "?", 0) == match k case Path(_) => None case Local(d, _) => Some(|d|)
  {
    match k
    case Path(p) => NoMark(p);
    case Local(d, n) => FirstMark(d, n);
  }
}
