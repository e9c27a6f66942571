/** What the loader's table holds, in every state that loads can lead to, whether or not some of
    them threw. */
module ModuleCache {
  import opened Search
  import opened Modules

  // ---- names and values, without any cache ----

  /** The path a name stands for, as seen from a directory. */
  function PathOf(fs: FileSystem, dir: string, name: string): Option<string> {
    if IsAbsolute(name) then Some(name)
    else if IsRelative(name) then Some(JoinPath(dir, name))
    else FindInclude(fs, fs.includePath, name)
  }

  /** The script a path stands for. */
  function ScriptAt(fs: FileSystem, p: string): (t: Option<string>)
    ensures t.Some? ==> t.value in fs.files
  {
    if p in fs.realPath && fs.realPath[p] in fs.files then Some(fs.realPath[p]) else None
  }

  /** The script a name stands for. */
  function Resolve(fs: FileSystem, dir: string, name: string): (t: Option<string>)
    ensures t.Some? ==> t.value in fs.files
  {
    match PathOf(fs, dir, name)
    case None => None
    case Some(p) => ScriptAt(fs, p)
  }

  /** The last word on `exports` is the script's own: its own variable, or a last step that
      assigns the global one, or no step after it was made. */
  predicate HasLastWord(s: Script) {
    s.declared.Some? || s.steps == [] || s.steps[|s.steps| - 1].Assigns?
  }

  function ValueOf(fs: FileSystem, f: string): Value
    requires f in fs.files && HasLastWord(fs.files[f])
  {
    var s := fs.files[f];
    if s.declared.Some? then s.declared.value
    else if s.steps == [] then Own(f)
    else s.steps[|s.steps| - 1].value
  }

  /** Every script has the last word on its exports, and they are not null, undefined or the
      number 1. */
  ghost predicate ProperExports(fs: FileSystem) {
    forall f :: f in fs.files ==>
      HasLastWord(fs.files[f]) && ValueOf(fs, f) != Null && ValueOf(fs, f) != One
  }

  // ---- the table ----

  /** Under a path the table holds a mark, or the value of a finished script; under a name, the
      value of the finished script that the name stands for. */
  ghost predicate CacheSound(fs: FileSystem, st: State)
    requires ProperExports(fs)
  {
    && (forall p :: Path(p) in st.cache && st.cache[Path(p)] != One ==>
          var t := ScriptAt(fs, p);
          t.Some? && t.value in st.finished && st.cache[Path(p)] == ValueOf(fs, t.value))
    && (forall d, n :: Local(d, n) in st.cache ==>
          var t := Resolve(fs, d, n);
          t.Some? && t.value in st.finished && st.cache[Local(d, n)] == ValueOf(fs, t.value))
    && (forall f :: f in st.finished ==>
          f in fs.files && Path(f) in st.cache && st.cache[Path(f)] == ValueOf(fs, f))
  }

  /** The name is the literal path under which the table holds a mark. */
  predicate NamesMark(st: State, name: string) {
    IsAbsolute(name) && Path(name) in st.cache && st.cache[Path(name)] == One
  }

  /** What a load of the script `t` promises. */
  ghost predicate Right(fs: FileSystem, st: State, t: Option<string>, r: Result)
    requires ProperExports(fs)
  {
    && CacheSound(fs, r.state) && st.finished <= r.state.finished
    && (r.outcome.Returned? ==>
          t.Some? && t.value in r.state.finished && r.outcome.value == ValueOf(fs, t.value))
  }

  /** What is remembered under the literal path of a script is remembered under its real path. */
  lemma Remembered(fs: FileSystem, st: State, name: string, f: string)
    requires WellFormed(fs) && ProperExports(fs) && CacheSound(fs, st)
    requires Resolve(fs, st.dir, name) == Some(f) && f in st.finished
    ensures CacheSound(fs, Remember(st, KeyOf(st.dir, name), ValueOf(fs, f)))
  {
  }

  /** A require keeps the table sound. It answers with the value of the script that the name
      stands for, unless the name is the literal path of a mark: then it answers with that. */
  lemma {:induction false} RequireSound(fs: FileSystem, st: State, name: string)
    requires WellFormed(fs) && ProperExports(fs) && CacheSound(fs, st)
    ensures var r := Require(fs, st, name);
      if NamesMark(st, name) then r == Result(st, Returned(One))
      else Right(fs, st, Resolve(fs, st.dir, name), r)
    decreases Unmarked(fs, st), 1, 1
  {
    if !Has(st.cache, KeyOf(st.dir, name)) {
      FetchSound(fs, st, name);
      var r := Fetch(fs, st, name);
      if r.outcome.Returned? {
        Remembered(fs, r.state, name, Resolve(fs, st.dir, name).value);
      }
    }
  }

  lemma {:induction false} FetchSound(fs: FileSystem, st: State, name: string)
    requires WellFormed(fs) && ProperExports(fs) && CacheSound(fs, st)
    ensures Right(fs, st, Resolve(fs, st.dir, name), Fetch(fs, st, name))
    decreases Unmarked(fs, st), 1, 0
  {
    match PathOf(fs, st.dir, name)
    case None =>
    case Some(p) => AbsoluteSound(fs, st, p);
  }

  lemma {:induction false} AbsoluteSound(fs: FileSystem, st: State, p: string)
    requires WellFormed(fs) && ProperExports(fs) && CacheSound(fs, st)
    ensures Right(fs, st, ScriptAt(fs, p), RequireAbsolute(fs, st, p))
    decreases Unmarked(fs, st), 0, 1
  {
    if p in fs.realPath && !Has(st.cache, Path(fs.realPath[p])) {
      var f := fs.realPath[p];
      var marked := Remember(st, Path(f), One);
      if f in fs.files {
        assert Unmarked(fs, marked) == Unmarked(fs, st) - {f};
        RunSound(fs, marked, f);
      }
    }
  }

  lemma FinishSound(fs: FileSystem, st: State, f: string, dir: string)
    requires WellFormed(fs) && ProperExports(fs) && CacheSound(fs, st) && f in fs.files
    ensures CacheSound(fs, st.(dir := dir))
    ensures CacheSound(fs, Remember(st.(dir := dir, finished := st.finished + [f]), Path(f), ValueOf(fs, f)))
  {
  }

  /** Running a script that is marked: until it is remembered, only it is missing from the table. */
  lemma {:induction false} RunSound(fs: FileSystem, st: State, f: string)
    requires WellFormed(fs) && ProperExports(fs) && CacheSound(fs, st) && f in fs.files
    ensures var r := Run(fs, st, f);
      && st.finished <= r.state.finished
      && (r.outcome.Thrown? ==> CacheSound(fs, r.state))
      && (r.outcome.Returned? ==>
            && r.outcome.value == ValueOf(fs, f) && f in r.state.finished
            && CacheSound(fs, Remember(r.state, Path(f), r.outcome.value)))
    decreases Unmarked(fs, st), 3, 0
  {
    var script := fs.files[f];
    BodySound(fs, Begin(st, f, script), script.steps);
    FinishSound(fs, Body(fs, Begin(st, f, script), script.steps).state, f, st.dir);
    RunValue(fs, st, f);
  }

  lemma {:induction false} BodySound(fs: FileSystem, st: State, steps: seq<Step>)
    requires WellFormed(fs) && ProperExports(fs) && CacheSound(fs, st)
    ensures var r := Body(fs, st, steps); CacheSound(fs, r.state) && st.finished <= r.state.finished
    decreases Unmarked(fs, st), 2, |steps|
  {
    if steps != [] {
      match steps[0]
      case Assigns(v) => BodySound(fs, st.(exports := v), steps[1..]);
      case Requires(name) =>
        RequireSound(fs, st, name);
        var r := Require(fs, st, name);
        if r.outcome.Returned? {
          BodySound(fs, r.state, steps[1..]);
        }
    }
  }

  /** The last step decides the global variable, if it assigns it. */
  lemma {:induction false} BodyExports(fs: FileSystem, st: State, steps: seq<Step>)
    requires WellFormed(fs)
    requires steps == [] || steps[|steps| - 1].Assigns?
    ensures var r := Body(fs, st, steps);
      r.outcome.Returned? ==> r.state.exports == if steps == [] then st.exports else steps[|steps| - 1].value
    decreases |steps|
  {
    if steps != [] {
      match steps[0]
      case Assigns(v) => BodyExports(fs, st.(exports := v), steps[1..]);
      case Requires(name) => BodyExports(fs, Require(fs, st, name).state, steps[1..]);
    }
  }

  lemma RunValue(fs: FileSystem, st: State, f: string)
    requires WellFormed(fs) && ProperExports(fs) && f in fs.files
    ensures var r := Run(fs, st, f); r.outcome.Returned? ==> r.outcome.value == ValueOf(fs, f)
  {
    var script := fs.files[f];
    if script.declared.None? {
      BodyExports(fs, Begin(st, f, script), script.steps);
    }
  }

  // ---- from a fresh loader ----

  /** The state after some requires one after the other, those that threw included. */
  ghost function After(fs: FileSystem, st: State, names: seq<string>): (t: State)
    requires WellFormed(fs)
    ensures t.dir == st.dir
    decreases |names|
  {
    if names == [] then st else After(fs, Require(fs, st, names[0]).state, names[1..])
  }

  lemma {:induction false} AfterSound(fs: FileSystem, st: State, names: seq<string>)
    requires WellFormed(fs) && ProperExports(fs) && CacheSound(fs, st)
    ensures CacheSound(fs, After(fs, st, names))
    decreases |names|
  {
    if names != [] {
      RequireSound(fs, st, names[0]);
      AfterSound(fs, Require(fs, st, names[0]).state, names[1..]);
    }
  }

  /** Whatever was loaded before, and whether or not that threw: a require that returns, returns
      the value of the script that the uncached resolver finds, so two names of one script give
      the same exports. The one exception is the literal path of a mark. */
  lemma {:induction false} CacheIsTransparent(fs: FileSystem, dir: string, before: seq<string>, name: string)
    requires WellFormed(fs) && ProperExports(fs)
    ensures var st := After(fs, Fresh(dir), before); var t := Resolve(fs, dir, name);
      var r := Require(fs, st, name);
      && (r.outcome == Returned(One) <==> NamesMark(st, name))
      && (r.outcome.Returned? && !NamesMark(st, name) ==>
            t.Some? && r.outcome.value == ValueOf(fs, t.value))
  {
    AfterSound(fs, Fresh(dir), before);
    RequireSound(fs, After(fs, Fresh(dir), before), name);
  }

  /** In all these states a name is remembered only for a finished script, with the value that is
      remembered under its real path. */
  lemma {:induction false} RememberedNamesAreFinished(
      fs: FileSystem, dir: string, before: seq<string>, d: string, n: string)
    requires WellFormed(fs) && ProperExports(fs)
    ensures var st := After(fs, Fresh(dir), before); var t := Resolve(fs, d, n);
      Local(d, n) in st.cache ==>
        && t.Some? && t.value in st.finished
        && Path(t.value) in st.cache && st.cache[Local(d, n)] == st.cache[Path(t.value)]
  {
    AfterSound(fs, Fresh(dir), before);
  }

  // ---- what is in the table at all ----

  /** A name that is required in that directory: at top level, or by a script that lies there. */
  ghost predicate IsNamed(fs: FileSystem, dir: string, names: seq<string>, d: string, n: string) {
    (d == dir && n in names) || exists f :: f in fs.files && Dirname(f) == d && Requires(n) in fs.files[f].steps
  }

  /** The name stands for no path, or for one that does not exist. */
  predicate LeadsNowhere(fs: FileSystem, dir: string, name: string) {
    var p := PathOf(fs, dir, name);
    p.None? || p.value !in fs.realPath
  }

  ghost predicate SoundIfProper(fs: FileSystem, st: State) {
    ProperExports(fs) ==> CacheSound(fs, st)
  }

  /** The table has keys for real paths and for names that are required and lead to a file, and for
      nothing else; and if no script exports the mark, only real paths carry it. */
  ghost predicate KeysKnown(fs: FileSystem, dir: string, names: seq<string>, st: State) {
    && (forall p :: Path(p) in st.cache ==>
          && p in fs.realPath
          && (fs.realPath[p] == p ||
                ((ProperExports(fs) ==> st.cache[Path(p)] != One) && exists d :: IsNamed(fs, dir, names, d, p))))
    && (forall d, n :: Local(d, n) in st.cache ==> IsNamed(fs, dir, names, d, n) && !LeadsNowhere(fs, d, n))
  }

  lemma {:induction false} RequireKeepsKeys(fs: FileSystem, dir: string, names: seq<string>, st: State, name: string)
    requires WellFormed(fs) && SoundIfProper(fs, st) && KeysKnown(fs, dir, names, st)
    requires IsNamed(fs, dir, names, st.dir, name)
    ensures KeysKnown(fs, dir, names, Require(fs, st, name).state)
    decreases Unmarked(fs, st), 1, 1
  {
    if !Has(st.cache, KeyOf(st.dir, name)) {
      if ProperExports(fs) {
        FetchSound(fs, st, name);
      }
      match PathOf(fs, st.dir, name)
      case None =>
      case Some(p) =>
        AbsoluteKeepsKeys(fs, dir, names, st, p);
        assert Fetch(fs, st, name) == RequireAbsolute(fs, st, p);
    }
  }

  lemma {:induction false} AbsoluteKeepsKeys(fs: FileSystem, dir: string, names: seq<string>, st: State, p: string)
    requires WellFormed(fs) && SoundIfProper(fs, st) && KeysKnown(fs, dir, names, st)
    ensures KeysKnown(fs, dir, names, RequireAbsolute(fs, st, p).state)
    decreases Unmarked(fs, st), 0, 1
  {
    if p in fs.realPath && !Has(st.cache, Path(fs.realPath[p])) {
      var f := fs.realPath[p];
      var marked := Remember(st, Path(f), One);
      RealKey(fs, dir, names, st, f, One);
      if f in fs.files {
        assert Unmarked(fs, marked) == Unmarked(fs, st) - {f};
        BodyKeepsKeys(fs, dir, names, Begin(marked, f, fs.files[f]), f, fs.files[f].steps);
        var r := Run(fs, marked, f);
        assert KeysKnown(fs, dir, names, r.state);
        if r.outcome.Returned? {
          RealKey(fs, dir, names, r.state, f, r.outcome.value);
        }
      }
    }
  }

  lemma RealKey(fs: FileSystem, dir: string, names: seq<string>, st: State, f: string, v: Value)
    requires KeysKnown(fs, dir, names, st) && f in fs.realPath && fs.realPath[f] == f
    ensures KeysKnown(fs, dir, names, Remember(st, Path(f), v))
  {
  }

  lemma {:induction false} BodyKeepsKeys(fs: FileSystem, dir: string, names: seq<string>, st: State,
                                         f: string, steps: seq<Step>)
    requires WellFormed(fs) && SoundIfProper(fs, st) && KeysKnown(fs, dir, names, st)
    requires f in fs.files && st.dir == Dirname(f) && forall step :: step in steps ==> step in fs.files[f].steps
    ensures KeysKnown(fs, dir, names, Body(fs, st, steps).state)
    decreases Unmarked(fs, st), 2, |steps|
  {
    if steps != [] {
      assert steps[0] in steps;
      match steps[0]
      case Assigns(v) => BodyKeepsKeys(fs, dir, names, st.(exports := v), f, steps[1..]);
      case Requires(name) =>
        RequireKeepsKeys(fs, dir, names, st, name);
        if ProperExports(fs) {
          RequireSound(fs, st, name);
        }
        var r := Require(fs, st, name);
        if r.outcome.Returned? {
          BodyKeepsKeys(fs, dir, names, r.state, f, steps[1..]);
        }
    }
  }

  lemma {:induction false} AfterKeepsKeys(fs: FileSystem, dir: string, names: seq<string>, st: State, rest: seq<string>)
    requires WellFormed(fs) && SoundIfProper(fs, st) && KeysKnown(fs, dir, names, st)
    requires st.dir == dir && forall n :: n in rest ==> n in names
    ensures KeysKnown(fs, dir, names, After(fs, st, rest))
    decreases |rest|
  {
    if rest != [] {
      assert rest[0] in rest;
      RequireKeepsKeys(fs, dir, names, st, rest[0]);
      if ProperExports(fs) {
        RequireSound(fs, st, rest[0]);
      }
      AfterKeepsKeys(fs, dir, names, Require(fs, st, rest[0]).state, rest[1..]);
    }
  }

  /** In all states that loads lead to, whatever scripts export: a path is in the table only if it is
      a real one or leads to one and is required, and a name seen from a directory only if it is
      required there and leads to a file. */
  lemma {:induction false} TableIsKnown(fs: FileSystem, dir: string, before: seq<string>)
    requires WellFormed(fs)
    ensures KeysKnown(fs, dir, before, After(fs, Fresh(dir), before))
  {
    AfterKeepsKeys(fs, dir, before, Fresh(dir), before);
  }

  /** Only real paths are marked. */
  lemma {:induction false} MarksAreReal(fs: FileSystem, dir: string, before: seq<string>, p: string)
    requires WellFormed(fs) && ProperExports(fs)
    ensures var st := After(fs, Fresh(dir), before);
      Path(p) in st.cache && st.cache[Path(p)] == One ==> p in fs.realPath && fs.realPath[p] == p
  {
    TableIsKnown(fs, dir, before);
  }

  // ---- names that lead nowhere ----

  /** The path of any name, by its first characters. */
  lemma PathOfAnyName(fs: FileSystem, dir: string, name: string) returns (i: int)
    ensures |name| >= 1 && name[0] == '/' ==> PathOf(fs, dir, name) == Some(name)
    ensures |name| >= 2 && name[0] == '.' && name[1] == '/' ==> PathOf(fs, dir, name) == Some(dir + "/" + name)
    ensures !(|name| >= 1 && name[0] == '/') && !(|name| >= 2 && name[0] == '.' && name[1] == '/') ==>
      if PathOf(fs, dir, name).None? then forall j :: 0 <= j < |fs.includePath| ==> fs.includePath[j] + "/" + name !in fs.realPath
      else
        && 0 <= i < |fs.includePath| && PathOf(fs, dir, name).value == fs.includePath[i] + "/" + name
        && fs.includePath[i] + "/" + name in fs.realPath
        && forall j :: 0 <= j < i ==> fs.includePath[j] + "/" + name !in fs.realPath
  {
    i := IncludeIsFirst(fs, fs.includePath, name);
    if |name| >= 2 {
      assert name[..2] == [name[0], name[1]];
      assert "./" == ['.', '/'];
    }
  }

  /** A name that nothing is cached for fails to be found, with nothing marked, cached or run,
      exactly when it leads nowhere; so a second attempt fails alike, and a require that returns
      has found its file. */
  lemma NotFound(fs: FileSystem, st: State, name: string)
    requires WellFormed(fs) && !Has(st.cache, KeyOf(st.dir, name))
    ensures var r := Require(fs, st, name);
      && (LeadsNowhere(fs, st.dir, name) <==> r.outcome.Thrown? && r.outcome.error.CannotFind? && r.state == st)
      && (LeadsNowhere(fs, st.dir, name) ==>
            var p := PathOf(fs, st.dir, name);
            r == Result(st, Thrown(CannotFind(if p.None? then name else p.value))))
      && (r.outcome.Returned? ==>
            PathOf(fs, st.dir, name).Some? && PathOf(fs, st.dir, name).value in fs.realPath)
  {
    match PathOf(fs, st.dir, name)
    case None =>
      assert Fetch(fs, st, name) == Result(st, Thrown(CannotFind(name)));
    case Some(p) =>
      assert Fetch(fs, st, name) == RequireAbsolute(fs, st, p);
      if p in fs.realPath {
        AbsoluteFound(fs, st, p);
      }
  }

  /** If the file is there, a failure to find one comes from a script that has begun to run. */
  lemma AbsoluteFound(fs: FileSystem, st: State, p: string)
    requires WellFormed(fs) && p in fs.realPath
    ensures var r := RequireAbsolute(fs, st, p);
      r.outcome.Thrown? && r.outcome.error.CannotFind? ==> |st.started| < |r.state.started|
  {
    var f := fs.realPath[p];
    if f in fs.files && !Has(st.cache, Path(f)) {
      assert st.started + [f] <= Run(fs, Remember(st, Path(f), One), f).state.started;
    }
  }

  /** What a require returned is remembered under the name as seen from the directory, and a second
      require is answered with it, unless it is null. */
  lemma SecondRequire(fs: FileSystem, st: State, name: string)
    requires WellFormed(fs) && Require(fs, st, name).outcome.Returned?
    ensures var r := Require(fs, st, name); var key := KeyOf(st.dir, name);
      && key in r.state.cache && r.state.cache[key] == r.outcome.value
      && (r.outcome.value != Null ==> Require(fs, r.state, name) == r)
  {
  }

  // ---- a script that does not have the last word ----

  /** What a load leaves in the global variable: what was there if nothing ran, otherwise what it
      returned, if the script has no variable of its own. */
  ghost predicate Leaves(fs: FileSystem, st: State, t: Option<string>, r: Result) {
    r.outcome.Returned? ==>
      if r.state.started == st.started then r.state.exports == st.exports
      else t.Some? && t.value in fs.files && (fs.files[t.value].declared.None? ==> r.state.exports == r.outcome.value)
  }

  lemma AbsoluteLeaves(fs: FileSystem, st: State, p: string)
    requires WellFormed(fs)
    ensures Leaves(fs, st, ScriptAt(fs, p), RequireAbsolute(fs, st, p))
  {
    if p in fs.realPath && fs.realPath[p] in fs.files && !Has(st.cache, Path(fs.realPath[p])) {
      var f := fs.realPath[p];
      var marked := Remember(st, Path(f), One);
      assert st.started + [f] <= Run(fs, marked, f).state.started;
    }
  }

  lemma RequireLeaves(fs: FileSystem, st: State, name: string)
    requires WellFormed(fs)
    ensures Leaves(fs, st, Resolve(fs, st.dir, name), Require(fs, st, name))
  {
    if !Has(st.cache, KeyOf(st.dir, name)) {
      var r := Fetch(fs, st, name);
      match PathOf(fs, st.dir, name)
      case None =>
        assert r.outcome.Thrown?;
      case Some(p) =>
        AbsoluteLeaves(fs, st, p);
        assert r == RequireAbsolute(fs, st, p);
    }
  }

  lemma {:induction false} LastStep(fs: FileSystem, st: State, steps: seq<Step>, name: string)
    requires WellFormed(fs) && Body(fs, st, steps + [Requires(name)]).outcome.Returned?
    ensures var r := Body(fs, st, steps);
      && r.outcome.Returned? && Require(fs, r.state, name).outcome.Returned?
      && Body(fs, st, steps + [Requires(name)]).state == Require(fs, r.state, name).state
    decreases |steps|
  {
    var all := steps + [Requires(name)];
    if steps == [] {
      assert all[1..] == [];
    } else {
      assert all[1..] == steps[1..] + [Requires(name)];
      match steps[0]
      case Assigns(v) => LastStep(fs, st.(exports := v), steps[1..], name);
      case Requires(n) => LastStep(fs, Require(fs, st, n).state, steps[1..], name);
    }
  }

  /** A script that ends with a require and has no variable of its own does not return what it
      assigned, but what the required script returned, if that (or anything else) ran just then
      and has no variable of its own either. If nothing ran, it returns what it assigned last. */
  lemma {:induction false} WithoutTheLastWord(fs: FileSystem, st: State, f: string, steps: seq<Step>, name: string)
    requires WellFormed(fs) && f in fs.files && fs.files[f] == Script(steps + [Requires(name)], None)
    requires Run(fs, st, f).outcome.Returned?
    ensures var before := Body(fs, Begin(st, f, fs.files[f]), steps).state;
      var r := Require(fs, before, name);
      && r.outcome.Returned?
      && (r.state.started == before.started ==> Run(fs, st, f).outcome.value == before.exports)
      && (r.state.started != before.started ==>
            var t := Resolve(fs, before.dir, name);
            t.Some? && (fs.files[t.value].declared.None? ==> Run(fs, st, f).outcome.value == r.outcome.value))
  {
    LastStep(fs, Begin(st, f, fs.files[f]), steps, name);
    RequireLeaves(fs, Body(fs, Begin(st, f, fs.files[f]), steps).state, name);
  }

  /** Requires that run nothing leave the variable alone. */
  lemma {:induction false} QuietBody(fs: FileSystem, st: State, steps: seq<Step>) returns (k: int)
    requires WellFormed(fs) && Body(fs, st, steps).outcome.Returned?
    requires Body(fs, st, steps).state.started == st.started
    ensures -1 <= k < |steps| && forall j :: k < j < |steps| ==> steps[j].Requires?
    ensures k >= 0 ==> steps[k].Assigns?
    ensures Body(fs, st, steps).state.exports == if k == -1 then st.exports else steps[k].value
    decreases |steps|
  {
    k := -1;
    if steps != [] {
      match steps[0]
      case Assigns(v) =>
        var j := QuietBody(fs, st.(exports := v), steps[1..]);
        k := j + 1;
      case Requires(name) =>
        var r := Require(fs, st, name);
        assert r.state.started == st.started;
        RequireLeaves(fs, st, name);
        var j := QuietBody(fs, r.state, steps[1..]);
        k := if j == -1 then -1 else j + 1;
    }
  }

  /** A script that nothing else runs in. With a variable of its own it returns that; otherwise what
      it assigned last, and a new object of its own if it assigned nothing. A script with a variable
      of its own that assigns nothing leaves the global one as it was. */
  lemma {:induction false} OnlyItself(fs: FileSystem, st: State, f: string) returns (k: int)
    requires WellFormed(fs) && f in fs.files && Run(fs, st, f).outcome.Returned?
    requires Run(fs, st, f).state.started == st.started + [f]
    ensures var script := fs.files[f]; var r := Run(fs, st, f);
      && -1 <= k < |script.steps| && (forall j :: k < j < |script.steps| ==> script.steps[j].Requires?)
      && (k >= 0 ==> script.steps[k].Assigns? && r.state.exports == script.steps[k].value)
      && (script.declared.Some? ==>
            r.outcome.value == script.declared.value && (k == -1 ==> r.state.exports == st.exports))
      && (script.declared.None? ==>
            r.outcome.value == r.state.exports && (k == -1 ==> r.state.exports == Own(f)))
  {
    k := QuietBody(fs, Begin(st, f, fs.files[f]), fs.files[f].steps);
  }

  /** The smallest such system: "/a" only requires "/b", which assigns `exports`. */
  const SHARING := FileSystem(
    map["/a" := Script([Requires("./b")], None), "/b" := Script([Assigns(Object(1))], None)],
    map["/a" := "/a", "/b" := "/b", "//./b" := "/b"], [])

  lemma SharingIsWellFormed()
    ensures WellFormed(SHARING)
  {
  }

  /** "/b" runs once, and then `exports` is what it assigned. */
  lemma LoadsB(st: State, p: string)
    requires p in SHARING.realPath && SHARING.realPath[p] == "/b"
    requires Path("/b") in st.cache ==> st.cache[Path("/b")] == Object(1)
    ensures WellFormed(SHARING)
    ensures var r := RequireAbsolute(SHARING, st, p);
      && r.outcome == Returned(Object(1))
      && r.state.cache == st.cache[Path("/b") := Object(1)]
      && r.state.exports == if Path("/b") in st.cache then st.exports else Object(1)
  {
    SharingIsWellFormed();
    if Path("/b") in st.cache {
      assert st.cache[Path("/b") := Object(1)] == st.cache;
    } else {
      var inside := Begin(Remember(st, Path("/b"), One), "/b", SHARING.files["/b"]);
      var steps := [Assigns(Object(1))];
      assert steps[1..] == [];
      assert Body(SHARING, inside, steps) == Result(inside.(exports := Object(1)), Returned(Null));
    }
  }

  lemma RequiresB(st: State)
    requires st.dir == "/" && Local("/", "./b") !in st.cache
    requires Path("/b") in st.cache ==> st.cache[Path("/b")] == Object(1)
    ensures WellFormed(SHARING)
    ensures var r := Require(SHARING, st, "./b");
      && r.outcome == Returned(Object(1))
      && r.state.exports == if Path("/b") in st.cache then st.exports else Object(1)
  {
    LoadsB(st, "//./b");
    assert JoinPath("/", "./b") == "//./b";
    assert "./b"[..2] == "./";
    assert KeyOf("/", "./b") == Local("/", "./b") && IsRelative("./b");
    assert Fetch(SHARING, st, "./b") == RequireAbsolute(SHARING, st, "//./b");
  }

  lemma LoadsA(st: State)
    requires st.dir == "/" && Path("/a") !in st.cache && Local("/", "./b") !in st.cache
    requires Path("/b") in st.cache ==> st.cache[Path("/b")] == Object(1)
    ensures WellFormed(SHARING)
    ensures Require(SHARING, st, "/a").outcome ==
      Returned(if Path("/b") in st.cache then Own("/a") else Object(1))
  {
    SharingIsWellFormed();
    var marked := Remember(st, Path("/a"), One);
    var inside := Begin(marked, "/a", SHARING.files["/a"]);
    assert JoinPath("", "a") == "/a";
    DirnameOfJoin("", "a");
    RequiresB(inside);
    var steps := [Requires("./b")];
    assert steps[1..] == [];
    var r := Require(SHARING, inside, "./b");
    assert Body(SHARING, inside, steps) == Result(r.state, Returned(Null));
    assert Run(SHARING, marked, "/a").outcome == Returned(r.state.exports);
    assert RequireAbsolute(SHARING, st, "/a").outcome == Returned(r.state.exports);
    assert Fetch(SHARING, st, "/a") == RequireAbsolute(SHARING, st, "/a");
  }

  /** So the value of such a script depends on what was loaded before. */
  lemma HistoryMatters()
    ensures WellFormed(SHARING)
    ensures Require(SHARING, Fresh("/"), "/a").outcome == Returned(Object(1))
    ensures Require(SHARING, After(SHARING, Fresh("/"), ["/b"]), "/a").outcome == Returned(Own("/a"))
  {
    LoadsB(Fresh("/"), "/b");
    assert ["/b"][1..] == [];
    var st := Require(SHARING, Fresh("/"), "/b").state;
    assert After(SHARING, Fresh("/"), ["/b"]) == After(SHARING, st, []) == st;
    LoadsA(Fresh("/"));
    LoadsA(st);
  }
}
