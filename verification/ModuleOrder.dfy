/** What `require` does to a graph of scripts: when it throws, what runs, and in which order. */
module ModuleOrder {
  import opened Search
  import opened Modules
  import opened ModuleCache

  // ---- the graph ----

  /** The name is the literal real path of a script. While that script is loading, its mark is
      found under the name itself, and the loop goes unnoticed. */
  predicate IsLiteral(fs: FileSystem, name: string) { IsAbsolute(name) && name in fs.files }

  function Targets(fs: FileSystem, f: string): set<Option<string>>
    requires f in fs.files
  {
    var steps := fs.files[f].steps;
    set i | 0 <= i < |steps| && steps[i].Requires? :: Resolve(fs, Dirname(f), steps[i].name)
  }

  /** The targets of the names that are not literal. */
  function NoticedTargets(fs: FileSystem, f: string): set<Option<string>>
    requires f in fs.files
  {
    var steps := fs.files[f].steps;
    set i | 0 <= i < |steps| && steps[i].Requires? && !IsLiteral(fs, steps[i].name) ::
      Resolve(fs, Dirname(f), steps[i].name)
  }

  predicate Edge(fs: FileSystem, f: string, g: string) {
    f in fs.files && g in fs.files && Some(g) in Targets(fs, f)
  }

  /** `f` requires `g` by a name that is not literal. */
  predicate Noticed(fs: FileSystem, f: string, g: string) {
    f in fs.files && g in fs.files && Some(g) in NoticedTargets(fs, f)
  }

  /** `f` requires something that is not there. */
  predicate Dangling(fs: FileSystem, f: string) {
    f in fs.files && None in Targets(fs, f)
  }

  predicate IsWalk(fs: FileSystem, w: seq<string>) {
    && |w| >= 1
    && (forall i :: 0 <= i < |w| ==> w[i] in fs.files)
    && (forall i :: 0 <= i < |w| - 1 ==> Edge(fs, w[i], w[i + 1]))
  }

  predicate Distinct(s: seq<string>) {
    forall i, j :: 0 <= i < j < |s| ==> s[i] != s[j]
  }

  ghost predicate Reaches(fs: FileSystem, f: string, g: string) {
    exists w :: IsWalk(fs, w) && w[0] == f && w[|w| - 1] == g
  }

  /** A walk that ends at a missing file. */
  predicate IsMissing(fs: FileSystem, w: seq<string>) { IsWalk(fs, w) && Dangling(fs, w[|w| - 1]) }

  /** A walk that ends with a cycle, from its `i`-th script on, without a literal name. */
  predicate IsNoticedCycle(fs: FileSystem, w: seq<string>, i: nat) {
    && IsWalk(fs, w) && i < |w| - 1 && w[i] == w[|w| - 1]
    && forall j :: i <= j < |w| - 1 ==> Noticed(fs, w[j], w[j + 1])
  }

  /** A walk that ends with a cycle whose last name is not literal. */
  predicate IsNoticedLoop(fs: FileSystem, w: seq<string>) {
    IsWalk(fs, w) && |w| >= 2 && w[|w| - 1] in w[..|w| - 1] && Noticed(fs, w[|w| - 2], w[|w| - 1])
  }

  /** A missing file, or a cycle that is noticed wherever it is entered, is in reach. */
  ghost predicate MustThrow(fs: FileSystem, f: string) {
    || (exists w :: IsMissing(fs, w) && w[0] == f)
    || (exists w, i :: IsNoticedCycle(fs, w, i) && w[0] == f)
  }

  /** A missing file, or a cycle that is noticed if it is entered at the right script, is in reach. */
  ghost predicate MayThrow(fs: FileSystem, f: string) {
    exists w :: (IsMissing(fs, w) || IsNoticedLoop(fs, w)) && w[0] == f
  }

  /** A missing file or any cycle is in reach. */
  ghost predicate Bad(fs: FileSystem, f: string) {
    exists w :: (IsMissing(fs, w) || (IsWalk(fs, w) && !Distinct(w))) && w[0] == f
  }

  /** No script in reach requires another by its literal real path. */
  ghost predicate PlainFrom(fs: FileSystem, f: string) {
    forall g, h :: Reaches(fs, f, g) && Edge(fs, g, h) ==> Noticed(fs, g, h)
  }

  // ---- the invariant ----

  /** Every script finished after all it requires, but for one that it requires only by its
      literal real path and that leads back to it. */
  ghost predicate InOrder(fs: FileSystem, finished: seq<string>) {
    forall i :: 0 <= i < |finished| ==> finished[i] in fs.files && AllBefore(fs, finished[i], finished[..i])
  }

  ghost predicate AllBefore(fs: FileSystem, f: string, before: seq<string>)
    requires f in fs.files
  {
    && None !in Targets(fs, f)
    && forall g :: Edge(fs, f, g) ==> g in before || (!Noticed(fs, f, g) && Reaches(fs, g, f))
  }

  /** What a finished script requires is finished or loading. */
  ghost predicate Closed(fs: FileSystem, finished: seq<string>, path: seq<string>) {
    forall f, g :: f in finished && Edge(fs, f, g) ==> g in finished || g in path
  }

  /** Exactly the loading scripts are marked. */
  ghost predicate Marks(st: State, path: seq<string>) {
    && (forall p :: Path(p) in st.cache && st.cache[Path(p)] == One ==> p in path)
    && (forall f :: f in path ==> Path(f) in st.cache && st.cache[Path(f)] == One)
  }

  /** `path` is the chain of scripts that are loading, outermost first. */
  ghost predicate Inv(fs: FileSystem, st: State, path: seq<string>) {
    && Marks(st, path)
    && InOrder(fs, st.finished) && Closed(fs, st.finished, path)
    && (path != [] ==> IsWalk(fs, path))
    && Distinct(st.started)
    && (forall f :: f in st.started <==> f in path || f in st.finished)
    && (forall f :: f in path ==> f !in st.finished)
    && Distinct(path) && Distinct(st.finished)
  }

  /** From `st` to `st'` only scripts that `root` reaches were finished. */
  ghost predicate Progress(fs: FileSystem, st: State, st': State, root: string) {
    && st.finished <= st'.finished
    && forall f :: f in st'.finished ==> f in st.finished || Reaches(fs, root, f)
  }

  lemma PlaceOf(finished: seq<string>, f: string) returns (i: nat)
    requires f in finished
    ensures i < |finished| && finished[i] == f
  {
    i :| 0 <= i < |finished| && finished[i] == f;
  }

  // ---- walks ----

  lemma WalkExtends(fs: FileSystem, w: seq<string>, g: string)
    requires IsWalk(fs, w) && Edge(fs, w[|w| - 1], g)
    ensures IsWalk(fs, w + [g])
  {
    var v := w + [g];
    forall i | 0 <= i < |v| - 1 ensures Edge(fs, v[i], v[i + 1]) {
      if i < |w| - 1 {
        assert Edge(fs, w[i], w[i + 1]);
      }
    }
  }

  /** A stretch of a walk is a walk. */
  lemma WalkBetween(fs: FileSystem, w: seq<string>, i: nat, j: nat)
    requires IsWalk(fs, w) && i <= j < |w|
    ensures IsWalk(fs, w[i..j + 1]) && Reaches(fs, w[i], w[j])
  {
    var v := w[i..j + 1];
    forall k | 0 <= k < |v| - 1 ensures Edge(fs, v[k], v[k + 1]) {
      assert Edge(fs, w[i + k], w[i + k + 1]);
    }
    assert IsWalk(fs, v) && v[0] == w[i] && v[|v| - 1] == w[j];
  }

  lemma ReachesSelf(fs: FileSystem, f: string)
    requires f in fs.files
    ensures Reaches(fs, f, f)
  {
    assert IsWalk(fs, [f]);
  }

  lemma WalksJoin(fs: FileSystem, v: seq<string>, w: seq<string>)
    requires IsWalk(fs, v) && IsWalk(fs, w) && v[|v| - 1] == w[0]
    ensures IsWalk(fs, v + w[1..])
  {
    var u := v + w[1..];
    forall i | 0 <= i < |u| - 1 ensures Edge(fs, u[i], u[i + 1]) {
      if i < |v| - 1 {
        assert Edge(fs, v[i], v[i + 1]);
      } else {
        assert Edge(fs, w[i - |v| + 1], w[i - |v| + 2]);
      }
    }
  }

  lemma ReachesThrough(fs: FileSystem, f: string, g: string, h: string)
    requires Edge(fs, f, g) && Reaches(fs, g, h)
    ensures Reaches(fs, f, h)
  {
    var w :| IsWalk(fs, w) && w[0] == g && w[|w| - 1] == h;
    ReachesSelf(fs, f);
    WalkExtends(fs, [f], g);
    WalksJoin(fs, [f] + [g], w);
    var v := ([f] + [g]) + w[1..];
    assert v[0] == f && v[|v| - 1] == h;
  }

  // ---- one require ----

  /** Who is to blame when a require throws, in reach of the script the load began with. */
  ghost predicate Blame(fs: FileSystem, path: seq<string>, t: Option<string>) {
    if path != [] then MayThrow(fs, path[0]) else t.None? || MayThrow(fs, t.value)
  }

  /** The innermost loading script requires `t`; if that is loading, not by its literal path. */
  ghost predicate Wanted(fs: FileSystem, path: seq<string>, t: Option<string>) {
    path != [] ==>
      var last := path[|path| - 1];
      && last in fs.files && t in Targets(fs, last)
      && (t.Some? && t.value in path ==> t in NoticedTargets(fs, last))
  }

  /** What a require of `t` promises. */
  ghost predicate Honest(fs: FileSystem, st: State, path: seq<string>, t: Option<string>, r: Result) {
    && (r.outcome.Returned? ==>
          t.Some? && t.value in r.state.finished && Inv(fs, r.state, path) && Progress(fs, st, r.state, t.value))
    && (r.outcome.Thrown? ==> Blame(fs, path, t))
  }

  lemma MissingBlames(fs: FileSystem, st: State, path: seq<string>)
    requires Inv(fs, st, path) && Wanted(fs, path, None)
    ensures Blame(fs, path, None)
  {
    if path != [] {
      assert IsMissing(fs, path);
    }
  }

  lemma {:induction false} LoopBlames(fs: FileSystem, st: State, path: seq<string>, f: string)
    requires Inv(fs, st, path) && Wanted(fs, path, Some(f)) && f in path && f in fs.files
    ensures Blame(fs, path, Some(f))
  {
    WalkExtends(fs, path, f);
    var w := path + [f];
    assert w[..|w| - 1] == path && w[|w| - 2] == path[|path| - 1];
    assert IsNoticedLoop(fs, w) && w[0] == path[0];
  }

  /** Entering a script keeps the invariant, one deeper. */
  lemma Enter(fs: FileSystem, st: State, path: seq<string>, f: string)
    requires WellFormed(fs) && Inv(fs, st, path) && Wanted(fs, path, Some(f)) && f in fs.files
    requires f !in path && f !in st.finished
    ensures Inv(fs, Begin(Remember(st, Path(f), One), f, fs.files[f]), path + [f])
  {
    if path != [] {
      WalkExtends(fs, path, f);
    }
  }

  lemma PathWithout(fs: FileSystem, path: seq<string>, f: string)
    requires IsWalk(fs, path + [f]) && Distinct(path + [f])
    ensures f !in path && Distinct(path) && (path != [] ==> IsWalk(fs, path))
    ensures forall g :: g in path + [f] <==> g in path || g == f
    ensures forall g :: g in path + [f] ==> Reaches(fs, g, f)
  {
    var all := path + [f];
    assert all[|path|] == f;
    assert forall i :: 0 <= i < |path| ==> path[i] == all[i] != f;
    forall i | 0 <= i < |path| - 1 ensures Edge(fs, path[i], path[i + 1]) {
      assert Edge(fs, all[i], all[i + 1]);
    }
    forall g | g in all ensures Reaches(fs, g, f) {
      var i := PlaceOf(all, g);
      WalkBetween(fs, all, i, |path|);
    }
  }

  /** What the `i`-th step of `f` requires is finished, or loading and named by its literal path. */
  ghost predicate Met(fs: FileSystem, st: State, path: seq<string>, f: string, i: nat)
    requires f in fs.files && i < |fs.files[f].steps|
  {
    var step := fs.files[f].steps[i];
    step.Requires? ==>
      var t := Resolve(fs, Dirname(f), step.name);
      t.Some? && (t.value in st.finished || (t.value in path && IsLiteral(fs, step.name)))
  }

  /** A script all of whose requires are met may be finished. */
  lemma MetIsBefore(fs: FileSystem, st: State, path: seq<string>, f: string)
    requires f in fs.files && IsWalk(fs, path + [f]) && Distinct(path + [f])
    requires forall i :: 0 <= i < |fs.files[f].steps| ==> Met(fs, st, path + [f], f, i)
    ensures AllBefore(fs, f, st.finished)
    ensures forall g :: Edge(fs, f, g) ==> g in st.finished + [f] || g in path
  {
    PathWithout(fs, path, f);
    var steps := fs.files[f].steps;
    forall g | Edge(fs, f, g)
      ensures g in st.finished || (!Noticed(fs, f, g) && g in path + [f])
    {
      var i :| 0 <= i < |steps| && steps[i].Requires? && Resolve(fs, Dirname(f), steps[i].name) == Some(g);
      assert Met(fs, st, path + [f], f, i);
      if Noticed(fs, f, g) {
        var j :| 0 <= j < |steps| && steps[j].Requires? && !IsLiteral(fs, steps[j].name)
          && Resolve(fs, Dirname(f), steps[j].name) == Some(g);
        assert Met(fs, st, path + [f], f, j);
      }
    }
    forall i | 0 <= i < |steps| && steps[i].Requires? ensures Resolve(fs, Dirname(f), steps[i].name).Some? {
      assert Met(fs, st, path + [f], f, i);
    }
  }

  lemma FinishedInOrder(fs: FileSystem, finished: seq<string>, f: string)
    requires InOrder(fs, finished) && f in fs.files && AllBefore(fs, f, finished)
    ensures InOrder(fs, finished + [f])
  {
    var fin := finished + [f];
    forall i | 0 <= i < |fin| ensures fin[i] in fs.files && AllBefore(fs, fin[i], fin[..i]) {
      assert fin[..i] == if i < |finished| then finished[..i] else finished;
    }
  }

  lemma LeaveCloses(fs: FileSystem, finished: seq<string>, path: seq<string>, f: string)
    requires Closed(fs, finished, path + [f])
    requires forall g :: Edge(fs, f, g) ==> g in finished + [f] || g in path
    ensures Closed(fs, finished + [f], path)
  {
  }

  lemma LeaveMarks(st: State, path: seq<string>, f: string, v: Value)
    requires Marks(st, path + [f]) && f !in path && v != One
    ensures Marks(Remember(st, Path(f), v), path)
  {
    assert f in path + [f];
  }

  /** Leaving it after its requires succeeded keeps the invariant too. */
  lemma Leave(fs: FileSystem, st: State, path: seq<string>, f: string, dir: string, v: Value)
    requires WellFormed(fs) && Inv(fs, st, path + [f]) && f in fs.files && v != One
    requires forall i :: 0 <= i < |fs.files[f].steps| ==> Met(fs, st, path + [f], f, i)
    ensures Inv(fs, Remember(st.(dir := dir, finished := st.finished + [f]), Path(f), v), path)
  {
    var left := st.(dir := dir, finished := st.finished + [f]);
    PathWithout(fs, path, f);
    MetIsBefore(fs, st, path, f);
    FinishedInOrder(fs, st.finished, f);
    LeaveCloses(fs, st.finished, path, f);
    assert Marks(left, path + [f]);
    LeaveMarks(left, path, f, v);
    assert f in path + [f];
  }

  lemma ProgressThrough(fs: FileSystem, st: State, st1: State, st2: State, f: string, g: string)
    requires Edge(fs, f, g) && Progress(fs, st, st1, g) && Progress(fs, st1, st2, f)
    ensures Progress(fs, st, st2, f)
  {
    forall h | h in st2.finished ensures h in st.finished || Reaches(fs, f, h) {
      if h in st1.finished && h !in st.finished {
        ReachesThrough(fs, f, g, h);
      }
    }
  }

  // ---- whole loads ----

  /** The name is required by the innermost loading script, in its directory. */
  ghost predicate Asked(fs: FileSystem, st: State, path: seq<string>, name: string) {
    path != [] ==>
      var last := path[|path| - 1];
      last in fs.files && st.dir == Dirname(last) && Requires(name) in fs.files[last].steps
  }

  lemma AskedIsWanted(fs: FileSystem, st: State, path: seq<string>, name: string)
    requires WellFormed(fs) && Inv(fs, st, path) && Asked(fs, st, path, name)
    requires !NamesMark(st, name)
    ensures Wanted(fs, path, Resolve(fs, st.dir, name))
  {
    if path != [] {
      var last := path[|path| - 1];
      var steps, t := fs.files[last].steps, Resolve(fs, st.dir, name);
      var i :| 0 <= i < |steps| && steps[i] == Requires(name);
      assert Resolve(fs, Dirname(last), steps[i].name) in Targets(fs, last);
      if t.Some? && t.value in path {
        assert !IsLiteral(fs, name);
        assert Resolve(fs, Dirname(last), steps[i].name) in NoticedTargets(fs, last);
      }
    }
  }

  /** Without a mark under its name, a require is honest; with one it does nothing. */
  lemma {:induction false} RequireCorrect(fs: FileSystem, st: State, path: seq<string>, name: string)
    requires WellFormed(fs) && ProperExports(fs) && CacheSound(fs, st)
    requires Inv(fs, st, path) && Asked(fs, st, path, name)
    ensures var t := Resolve(fs, st.dir, name);
      if NamesMark(st, name) then Require(fs, st, name) == Result(st, Returned(One)) && t == Some(name) && name in path
      else Honest(fs, st, path, t, Require(fs, st, name))
    decreases Unmarked(fs, st), 1, 1
  {
    RequireSound(fs, st, name);
    if !NamesMark(st, name) {
      AskedIsWanted(fs, st, path, name);
      if !Has(st.cache, KeyOf(st.dir, name)) {
        FetchCorrect(fs, st, path, name);
        FetchSound(fs, st, name);
        var r := Fetch(fs, st, name);
        if r.outcome.Returned? {
          RememberKeeps(fs, r.state, path, KeyOf(st.dir, name), r.outcome.value);
        }
      }
    }
  }

  lemma RememberKeeps(fs: FileSystem, st: State, path: seq<string>, key: Key, v: Value)
    requires Inv(fs, st, path) && v != One && (key.Path? ==> key.path !in path)
    ensures Inv(fs, Remember(st, key, v), path)
  {
    assert Marks(Remember(st, key, v), path);
  }

  lemma {:induction false} FetchCorrect(fs: FileSystem, st: State, path: seq<string>, name: string)
    requires WellFormed(fs) && ProperExports(fs) && CacheSound(fs, st)
    requires Inv(fs, st, path) && Wanted(fs, path, Resolve(fs, st.dir, name))
    ensures Honest(fs, st, path, Resolve(fs, st.dir, name), Fetch(fs, st, name))
    decreases Unmarked(fs, st), 1, 0
  {
    match PathOf(fs, st.dir, name)
    case None => MissingBlames(fs, st, path);
    case Some(p) => RequireAbsoluteCorrect(fs, st, path, p);
  }

  lemma {:induction false} RequireAbsoluteCorrect(fs: FileSystem, st: State, path: seq<string>, p: string)
    requires WellFormed(fs) && ProperExports(fs) && CacheSound(fs, st)
    requires Inv(fs, st, path) && Wanted(fs, path, ScriptAt(fs, p))
    ensures Honest(fs, st, path, ScriptAt(fs, p), RequireAbsolute(fs, st, p))
    decreases Unmarked(fs, st), 0, 1
  {
    var t := ScriptAt(fs, p);
    if t.None? {
      MissingBlames(fs, st, path);
      AbsoluteSound(fs, st, p);
    } else if t.value in path {
      LoopBlames(fs, st, path, t.value);
    } else if t.value in st.finished {
    } else {
      LoadCorrect(fs, st, path, t.value);
    }
  }

  /** What a load comes to that runs its script. */
  lemma AbsoluteRuns(fs: FileSystem, st: State, f: string)
    requires WellFormed(fs) && ProperExports(fs) && CacheSound(fs, st) && f in fs.files && !Has(st.cache, Path(f))
    ensures var inside := Begin(Remember(st, Path(f), One), f, fs.files[f]);
      var b := Body(fs, inside, fs.files[f].steps); var r := RequireAbsolute(fs, st, f);
      && CacheSound(fs, inside) && Unmarked(fs, inside) < Unmarked(fs, st)
      && (b.outcome.Thrown? ==> r.outcome.Thrown?)
      && (b.outcome.Returned? ==>
            && r.outcome.Returned?
            && r.state == Remember(b.state.(dir := st.dir, finished := b.state.finished + [f]), Path(f), ValueOf(fs, f)))
  {
    var marked := Remember(st, Path(f), One);
    assert Unmarked(fs, marked) == Unmarked(fs, st) - {f};
    assert f in Unmarked(fs, st);
    RunSound(fs, marked, f);
  }

  /** What running the innermost script from its `k`-th step on promises. */
  ghost predicate BodyHonest(fs: FileSystem, st: State, path: seq<string>, k: nat, r: Result)
    requires path != [] && path[|path| - 1] in fs.files
  {
    var f := path[|path| - 1];
    && (r.outcome.Returned? ==>
          && Inv(fs, r.state, path) && Progress(fs, st, r.state, f)
          && forall i :: k <= i < |fs.files[f].steps| ==> Met(fs, r.state, path, f, i))
    && (r.outcome.Thrown? ==> MayThrow(fs, path[0]))
  }

  /** The script has run. */
  lemma Loaded(fs: FileSystem, st: State, path: seq<string>, f: string, inside: State, b: Result)
    requires WellFormed(fs) && ProperExports(fs) && f in fs.files && (path + [f])[|path|] == f
    requires st.finished == inside.finished && BodyHonest(fs, inside, path + [f], 0, b)
    ensures b.outcome.Thrown? ==> Blame(fs, path, Some(f))
    ensures b.outcome.Returned? ==>
      var left := Remember(b.state.(dir := st.dir, finished := b.state.finished + [f]), Path(f), ValueOf(fs, f));
      Inv(fs, left, path) && Progress(fs, st, left, f) && f in left.finished
  {
    if b.outcome.Returned? {
      Leave(fs, b.state, path, f, st.dir, ValueOf(fs, f));
      ReachesSelf(fs, f);
    }
  }

  /** A script that is neither loading nor finished is run. */
  lemma {:induction false} LoadCorrect(fs: FileSystem, st: State, path: seq<string>, f: string)
    requires WellFormed(fs) && ProperExports(fs) && CacheSound(fs, st)
    requires Inv(fs, st, path) && Wanted(fs, path, Some(f)) && f in fs.files
    requires f !in path && f !in st.finished
    ensures Honest(fs, st, path, Some(f), RequireAbsolute(fs, st, f))
    decreases Unmarked(fs, st), 0, 0
  {
    var inside := Begin(Remember(st, Path(f), One), f, fs.files[f]);
    AbsoluteRuns(fs, st, f);
    Enter(fs, st, path, f);
    BodyCorrect(fs, inside, path + [f], 0);
    assert fs.files[f].steps[0..] == fs.files[f].steps;
    Loaded(fs, st, path, f, inside, Body(fs, inside, fs.files[f].steps));
  }

  lemma MetStays(fs: FileSystem, st: State, st': State, path: seq<string>, f: string, i: nat)
    requires f in fs.files && i < |fs.files[f].steps|
    requires Met(fs, st, path, f, i) && st.finished <= st'.finished
    ensures Met(fs, st', path, f, i)
  {
    forall g | g in st.finished ensures g in st'.finished {
      var j := PlaceOf(st.finished, g);
      assert st'.finished[j] == g;
    }
  }

  /** After a require of the `k`-th step. */
  lemma StepMet(fs: FileSystem, st: State, path: seq<string>, k: nat, r: Result)
    requires WellFormed(fs) && path != [] && Inv(fs, st, path)
    requires var f := path[|path| - 1]; f in fs.files && st.dir == Dirname(f) && k < |fs.files[f].steps|
    requires var step := fs.files[path[|path| - 1]].steps[k];
      && step.Requires? && r.outcome.Returned?
      && var t := Resolve(fs, st.dir, step.name);
         if NamesMark(st, step.name) then r.state == st && t == Some(step.name) && step.name in path
         else Honest(fs, st, path, t, r)
    ensures var f := path[|path| - 1];
      Met(fs, r.state, path, f, k) && Inv(fs, r.state, path) && Progress(fs, st, r.state, f)
  {
    var f := path[|path| - 1];
    var step := fs.files[f].steps[k];
    if !NamesMark(st, step.name) {
      var g := Resolve(fs, st.dir, step.name).value;
      assert Resolve(fs, Dirname(f), step.name) in Targets(fs, f);
      ProgressThrough(fs, st, r.state, r.state, f, g);
    }
  }

  /** The `k`-th step and those after it. */
  lemma BodyJoins(fs: FileSystem, st: State, path: seq<string>, k: nat, r: Result, r': Result)
    requires path != [] && path[|path| - 1] in fs.files && k < |fs.files[path[|path| - 1]].steps|
    requires Met(fs, r.state, path, path[|path| - 1], k) && Progress(fs, st, r.state, path[|path| - 1])
    requires BodyHonest(fs, r.state, path, k + 1, r')
    ensures BodyHonest(fs, st, path, k, r')
  {
    if r'.outcome.Returned? {
      MetStays(fs, r.state, r'.state, path, path[|path| - 1], k);
    }
  }

  lemma {:induction false} StepCorrect(fs: FileSystem, st: State, path: seq<string>, k: nat)
    requires WellFormed(fs) && ProperExports(fs) && CacheSound(fs, st) && Inv(fs, st, path) && path != []
    requires var f := path[|path| - 1];
      f in fs.files && st.dir == Dirname(f) && k < |fs.files[f].steps| && fs.files[f].steps[k].Requires?
    ensures var f := path[|path| - 1]; var r := Require(fs, st, fs.files[f].steps[k].name);
      && CacheSound(fs, r.state)
      && (r.outcome.Returned? ==>
            Met(fs, r.state, path, f, k) && Inv(fs, r.state, path) && Progress(fs, st, r.state, f))
      && (r.outcome.Thrown? ==> MayThrow(fs, path[0]))
    decreases Unmarked(fs, st), 1, 2
  {
    var name := fs.files[path[|path| - 1]].steps[k].name;
    RequireCorrect(fs, st, path, name);
    RequireSound(fs, st, name);
    var r := Require(fs, st, name);
    if r.outcome.Returned? {
      StepMet(fs, st, path, k, r);
    }
  }

  lemma AssignSkips(fs: FileSystem, st: State, v: Value, path: seq<string>, k: nat, r: Result)
    requires path != [] && path[|path| - 1] in fs.files && k < |fs.files[path[|path| - 1]].steps|
    requires fs.files[path[|path| - 1]].steps[k].Assigns?
    requires BodyHonest(fs, st.(exports := v), path, k + 1, r)
    ensures BodyHonest(fs, st, path, k, r)
  {
  }

  lemma {:induction false} BodyCorrect(fs: FileSystem, st: State, path: seq<string>, k: nat)
    requires WellFormed(fs) && ProperExports(fs) && CacheSound(fs, st) && Inv(fs, st, path) && path != []
    requires var f := path[|path| - 1]; f in fs.files && st.dir == Dirname(f) && k <= |fs.files[f].steps|
    ensures BodyHonest(fs, st, path, k, Body(fs, st, fs.files[path[|path| - 1]].steps[k..]))
    decreases Unmarked(fs, st), 2, |fs.files[path[|path| - 1]].steps| - k
  {
    var f := path[|path| - 1];
    var steps := fs.files[f].steps;
    if k < |steps| {
      assert steps[k..][1..] == steps[k + 1..];
      match steps[k]
      case Assigns(v) =>
        BodyCorrect(fs, st.(exports := v), path, k + 1);
        AssignSkips(fs, st, v, path, k, Body(fs, st.(exports := v), steps[k + 1..]));
      case Requires(name) =>
        StepCorrect(fs, st, path, k);
        var r := Require(fs, st, name);
        if r.outcome.Returned? {
          BodyCorrect(fs, r.state, path, k + 1);
          BodyJoins(fs, st, path, k, r, Body(fs, r.state, steps[k + 1..]));
        }
    }
  }

  // ---- the theorems ----

  /** Nothing is loading. */
  ghost predicate Idle(fs: FileSystem, st: State)
    requires ProperExports(fs)
  {
    CacheSound(fs, st) && Inv(fs, st, [])
  }

  lemma WalkContinues(fs: FileSystem, w: seq<string>)
    requires IsWalk(fs, w) && |w| > 1
    ensures IsWalk(fs, w[1..])
  {
    WalkBetween(fs, w, 1, |w| - 1);
    assert w[1..|w|] == w[1..];
  }

  /** All that a finished script reaches is finished, if nothing is loading. */
  lemma {:induction false} ReachIsFinished(fs: FileSystem, finished: seq<string>, w: seq<string>)
    requires Closed(fs, finished, []) && IsWalk(fs, w) && w[0] in finished
    ensures forall k :: 0 <= k < |w| ==> w[k] in finished
    decreases |w|
  {
    if |w| > 1 {
      var rest := w[1..];
      assert Edge(fs, w[0], w[1]);
      WalkContinues(fs, w);
      ReachIsFinished(fs, finished, rest);
      forall k | 0 < k < |w| ensures w[k] in finished {
        assert w[k] == rest[k - 1];
      }
    }
  }

  /** Names that are not literal go down in the order of finishing. */
  lemma {:induction false} NoticedGoesDown(fs: FileSystem, finished: seq<string>, w: seq<string>, i: nat)
    requires InOrder(fs, finished) && IsWalk(fs, w)
    requires forall j :: 0 <= j < |w| - 1 ==> Noticed(fs, w[j], w[j + 1])
    requires i < |finished| && w[0] == finished[i]
    ensures forall k :: 0 < k < |w| ==> w[k] in finished[..i]
    decreases |w|
  {
    if |w| > 1 {
      var rest := w[1..];
      assert Noticed(fs, w[0], w[1]) && Edge(fs, w[0], w[1]);
      var j := PlaceOf(finished[..i], w[1]);
      WalkContinues(fs, w);
      forall k | 0 <= k < |rest| - 1 ensures Noticed(fs, rest[k], rest[k + 1]) {
        assert Noticed(fs, w[k + 1], w[k + 2]);
      }
      NoticedGoesDown(fs, finished, rest, j);
      forall k | 0 < k < |w| ensures w[k] in finished[..i] {
        if k > 1 {
          assert w[k] == rest[k - 1] && rest[k - 1] in finished[..j];
        }
      }
    }
  }

  lemma NoNoticedCycle(fs: FileSystem, finished: seq<string>, w: seq<string>, i: nat)
    requires InOrder(fs, finished) && Distinct(finished)
    requires IsWalk(fs, w) && i < |w| && w[i] in finished
    ensures !IsNoticedCycle(fs, w, i)
  {
    if IsNoticedCycle(fs, w, i) {
      var v := w[i..|w|];
      var at := PlaceOf(finished, w[i]);
      WalkBetween(fs, w, i, |w| - 1);
      forall j | 0 <= j < |v| - 1 ensures Noticed(fs, v[j], v[j + 1]) {
        assert Noticed(fs, w[i + j], w[i + j + 1]);
      }
      NoticedGoesDown(fs, finished, v, at);
    }
  }

  /** What is finished in an idle loader leads to nothing that must throw. */
  lemma FinishedIsFine(fs: FileSystem, st: State, f: string)
    requires Inv(fs, st, []) && f in st.finished
    ensures !MustThrow(fs, f)
  {
    forall w | IsWalk(fs, w) && w[0] == f ensures !IsMissing(fs, w) {
      ReachIsFinished(fs, st.finished, w);
      var i := PlaceOf(st.finished, w[|w| - 1]);
    }
    forall w, i | IsNoticedCycle(fs, w, i) && w[0] == f ensures false {
      ReachIsFinished(fs, st.finished, w);
      NoNoticedCycle(fs, st.finished, w, i);
    }
  }

  /** How the three notions compare: what must throw may throw, and only what is bad may. Without
      literal names in reach they are the same. */
  lemma ThreeGrades(fs: FileSystem, f: string)
    ensures MustThrow(fs, f) ==> MayThrow(fs, f)
    ensures MayThrow(fs, f) ==> Bad(fs, f)
    ensures PlainFrom(fs, f) && Bad(fs, f) ==> MustThrow(fs, f)
  {
    forall w, i: nat | IsNoticedCycle(fs, w, i) && w[0] == f ensures MayThrow(fs, f) {
      var n := |w| - 2;
      assert Noticed(fs, w[n], w[n + 1]) && w[..n + 1][i] == w[n + 1];
      assert IsNoticedLoop(fs, w);
    }
    forall w | IsNoticedLoop(fs, w) && w[0] == f ensures Bad(fs, f) {
      var i := PlaceOf(w[..|w| - 1], w[|w| - 1]);
      assert w[i] == w[|w| - 1];
    }
    if PlainFrom(fs, f) {
      forall w | IsWalk(fs, w) && !Distinct(w) && w[0] == f ensures MustThrow(fs, f) {
        PlainCycle(fs, w);
      }
    }
  }

  lemma PlainCycle(fs: FileSystem, w: seq<string>)
    requires IsWalk(fs, w) && !Distinct(w) && PlainFrom(fs, w[0])
    ensures MustThrow(fs, w[0])
  {
    var i, j :| 0 <= i < j < |w| && w[i] == w[j];
    CutCycle(fs, w, i, j);
    assert w[0..j + 1][0] == w[0];
  }

  lemma CutCycle(fs: FileSystem, w: seq<string>, i: nat, j: nat)
    requires IsWalk(fs, w) && PlainFrom(fs, w[0]) && i < j < |w| && w[i] == w[j]
    ensures IsNoticedCycle(fs, w[0..j + 1], i)
  {
    var v := w[0..j + 1];
    WalkBetween(fs, w, 0, j);
    forall k | i <= k < |v| - 1 ensures Noticed(fs, v[k], v[k + 1]) {
      PlainStep(fs, w, k);
    }
  }

  lemma PlainStep(fs: FileSystem, w: seq<string>, k: nat)
    requires IsWalk(fs, w) && k < |w| - 1 && PlainFrom(fs, w[0])
    ensures Noticed(fs, w[k], w[k + 1])
  {
    WalkBetween(fs, w, 0, k);
    assert Edge(fs, w[k], w[k + 1]);
  }

  lemma IdleRequire(fs: FileSystem, st: State, name: string)
    requires WellFormed(fs) && ProperExports(fs) && Idle(fs, st)
    ensures !NamesMark(st, name)
    ensures var t := Resolve(fs, st.dir, name); var r := Require(fs, st, name);
      && CacheSound(fs, r.state) && Honest(fs, st, [], t, r)
  {
    RequireCorrect(fs, st, [], name);
    RequireSound(fs, st, name);
  }

  /** When a load throws: always if the name leads nowhere, or if a missing file or a cycle without
      literal names is in reach; and only if the name leads nowhere, or if a missing file or a
      cycle that has a name that is not literal is in reach. If no script in reach uses a literal
      name, it throws if and only if a cycle or a missing file is in reach. */
  lemma ThrowsExactly(fs: FileSystem, st: State, name: string)
    requires WellFormed(fs) && ProperExports(fs) && Idle(fs, st)
    ensures var t := Resolve(fs, st.dir, name); var threw := Require(fs, st, name).outcome.Thrown?;
      && (t.None? || MustThrow(fs, t.value) ==> threw)
      && (threw ==> t.None? || MayThrow(fs, t.value))
      && (t.Some? && PlainFrom(fs, t.value) ==> (threw <==> Bad(fs, t.value)))
  {
    var t, r := Resolve(fs, st.dir, name), Require(fs, st, name);
    IdleRequire(fs, st, name);
    if r.outcome.Returned? {
      FinishedIsFine(fs, r.state, t.value);
    }
    if t.Some? {
      ThreeGrades(fs, t.value);
    }
  }

  lemma ReachedIn(fs: FileSystem, st: State, root: string)
    requires Inv(fs, st, []) && root in st.finished
    ensures forall f :: Reaches(fs, root, f) ==> f in st.finished
  {
    forall f | Reaches(fs, root, f) ensures f in st.finished {
      var w :| IsWalk(fs, w) && w[0] == root && w[|w| - 1] == f;
      ReachIsFinished(fs, st.finished, w);
    }
  }

  /** A load that returns leaves the loader idle and has run exactly the scripts in reach that had
      not run before, each of them once and after all the scripts it requires, but for one that
      it requires only by its literal path and that leads back to it. */
  lemma RunsEachOnceInOrder(fs: FileSystem, st: State, name: string)
    requires WellFormed(fs) && ProperExports(fs) && Idle(fs, st)
    requires Require(fs, st, name).outcome.Returned?
    ensures var r := Require(fs, st, name).state; var t := Resolve(fs, st.dir, name);
      && t.Some? && Idle(fs, r)
      && Distinct(r.started) && InOrder(fs, r.finished)
      && (forall f :: f in r.started <==> f in st.started || Reaches(fs, t.value, f))
      && (forall f :: f in r.finished <==> f in r.started)
  {
    var r, t := Require(fs, st, name).state, Resolve(fs, st.dir, name);
    IdleRequire(fs, st, name);
    ReachedIn(fs, r, t.value);
    forall f | f in st.finished ensures f in r.finished {
      var i := PlaceOf(st.finished, f);
      assert r.finished[i] == f;
    }
  }

  lemma LoopIsBad(fs: FileSystem, root: string, f: string, g: string)
    requires Reaches(fs, root, f) && Edge(fs, f, g) && Reaches(fs, g, f)
    ensures Bad(fs, root)
  {
    var v :| IsWalk(fs, v) && v[0] == root && v[|v| - 1] == f;
    var w :| IsWalk(fs, w) && w[0] == g && w[|w| - 1] == f;
    WalkExtends(fs, v, g);
    WalksJoin(fs, v + [g], w);
    var u := (v + [g]) + w[1..];
    assert u[|v| - 1] == f && u[|u| - 1] == f;
    assert IsWalk(fs, u) && !Distinct(u) && u[0] == root;
  }

  /** From a script that no cycle can be reached from, that exception never arises. */
  lemma GoodIsInOrder(fs: FileSystem, finished: seq<string>, root: string, i: nat, g: string)
    requires InOrder(fs, finished) && i < |finished| && !Bad(fs, root)
    requires Reaches(fs, root, finished[i]) && Edge(fs, finished[i], g)
    ensures g in finished[..i]
  {
    if Reaches(fs, g, finished[i]) {
      LoopIsBad(fs, root, finished[i], g);
    }
  }

  // ---- a whole program ----

  ghost predicate InReach(fs: FileSystem, dir: string, steps: seq<Step>, f: string) {
    exists i :: 0 <= i < |steps| && Wants(fs, dir, steps[i], f)
  }

  ghost predicate Wants(fs: FileSystem, dir: string, step: Step, f: string) {
    step.Requires? && Resolve(fs, dir, step.name).Some? && Reaches(fs, Resolve(fs, dir, step.name).value, f)
  }

  /** Nothing that may throw is required. */
  ghost predicate Harmless(fs: FileSystem, dir: string, step: Step) {
    step.Requires? ==> Resolve(fs, dir, step.name).Some? && !MayThrow(fs, Resolve(fs, dir, step.name).value)
  }

  ghost predicate AllHarmless(fs: FileSystem, dir: string, steps: seq<Step>) {
    steps == [] || (Harmless(fs, dir, steps[0]) && AllHarmless(fs, dir, steps[1..]))
  }

  lemma InReachFirst(fs: FileSystem, dir: string, steps: seq<Step>, f: string)
    requires steps != []
    ensures InReach(fs, dir, steps, f) <==> Wants(fs, dir, steps[0], f) || InReach(fs, dir, steps[1..], f)
  {
    var rest := steps[1..];
    if InReach(fs, dir, steps, f) {
      var i :| 0 <= i < |steps| && Wants(fs, dir, steps[i], f);
      assert i > 0 ==> rest[i - 1] == steps[i];
    }
    if InReach(fs, dir, rest, f) {
      var i :| 0 <= i < |rest| && Wants(fs, dir, rest[i], f);
      assert rest[i] == steps[i + 1];
    }
  }

  lemma InReachCons(fs: FileSystem, dir: string, steps: seq<Step>)
    requires steps != []
    ensures forall f ::
      InReach(fs, dir, steps, f) <==> Wants(fs, dir, steps[0], f) || InReach(fs, dir, steps[1..], f)
  {
    forall f ensures InReach(fs, dir, steps, f) <==>
      Wants(fs, dir, steps[0], f) || InReach(fs, dir, steps[1..], f)
    {
      InReachFirst(fs, dir, steps, f);
    }
  }

  /** One require of a program. */
  lemma OneRequire(fs: FileSystem, st: State, name: string)
    requires WellFormed(fs) && ProperExports(fs) && Idle(fs, st)
    ensures var r := Require(fs, st, name);
      && (Harmless(fs, st.dir, Requires(name)) ==> r.outcome.Returned?)
      && (r.outcome.Returned? ==>
            && Idle(fs, r.state)
            && forall f :: f in r.state.started <==> f in st.started || Wants(fs, st.dir, Requires(name), f))
  {
    ThrowsExactly(fs, st, name);
    if Require(fs, st, name).outcome.Returned? {
      RunsEachOnceInOrder(fs, st, name);
    }
  }

  lemma {:induction false} StepByStep(fs: FileSystem, st: State, steps: seq<Step>)
    requires WellFormed(fs) && ProperExports(fs) && Idle(fs, st)
    ensures var r := Body(fs, st, steps);
      && (AllHarmless(fs, st.dir, steps) ==> r.outcome.Returned?)
      && (r.outcome.Returned? ==>
            && Idle(fs, r.state)
            && forall f :: f in r.state.started <==> f in st.started || InReach(fs, st.dir, steps, f))
    decreases |steps|
  {
    if steps != [] {
      InReachCons(fs, st.dir, steps);
      match steps[0]
      case Assigns(v) => StepByStep(fs, st.(exports := v), steps[1..]);
      case Requires(name) =>
        OneRequire(fs, st, name);
        assert Harmless(fs, st.dir, Requires(name)) <==> Harmless(fs, st.dir, steps[0]);
        if Require(fs, st, name).outcome.Returned? {
          StepByStep(fs, Require(fs, st, name).state, steps[1..]);
        }
    }
  }

  /** A program on a fresh loader: it ends normally if nothing it requires may throw; and if it ends
      normally, exactly the scripts in reach have run, each once and in order. */
  lemma {:induction false} WholeProgram(fs: FileSystem, dir: string, steps: seq<Step>)
    requires WellFormed(fs) && ProperExports(fs)
    ensures var r := Body(fs, Fresh(dir), steps);
      && (AllHarmless(fs, dir, steps) ==> r.outcome.Returned?)
      && (r.outcome.Returned? ==>
            && Distinct(r.state.started) && InOrder(fs, r.state.finished)
            && (forall f :: f in r.state.started <==> InReach(fs, dir, steps, f))
            && (forall f :: f in r.state.finished <==> f in r.state.started))
  {
    assert Idle(fs, Fresh(dir));
    StepByStep(fs, Fresh(dir), steps);
  }
}
