/** The module loader: `require` of coffee/core/startup.coffee over `System::require` of
    src/system.cc, as functions on values. */
module Modules {
  import opened Search

  /** What a module exports: null or undefined, the number 1 (which is also the loader's mark
      for a file that is still loading), the object made for a script when it begins, or
      anything else. */
  datatype Value = Null | One | Own(path: string) | Object(id: nat)

  /** What a script does as far as modules go: it requires a name, or assigns the global variable
      `exports`, which scripts share. */
  datatype Step = Requires(name: string) | Assigns(value: Value)

  /** `declared`: a script that declares `exports` itself, as a compiled CoffeeScript does that
      assigns it, has a variable of its own; this is its value at the end. */
  datatype Script = Script(steps: seq<Step>, declared: Option<Value>)

  /** `realPath` is realpath(3) on the paths that exist; `files` the scripts by their real paths. */
  datatype FileSystem = FileSystem(files: map<string, Script>, realPath: map<string, string>, includePath: seq<string>)

  /** The real path of a real path is itself, and scripts are stored under real paths. */
  ghost predicate WellFormed(fs: FileSystem) {
    && (forall p :: p in fs.realPath ==> fs.realPath[p] in fs.realPath && fs.realPath[fs.realPath[p]] == fs.realPath[p])
    && (forall f :: f in fs.files ==> f in fs.realPath && fs.realPath[f] == f)
  }

  /** The two kinds of key in `requiredFiles`: a path, and a name as seen from a directory. */
  datatype Key = Path(path: string) | Local(dir: string, name: string)

  datatype Error = CannotFind(name: string) | Loop(path: string) | CannotOpen(path: string)

  datatype Outcome = Returned(value: Value) | Thrown(error: Error)

  /** `requiredFiles`, `$currentDir`, the variable `exports`, and the scripts started and finished
      so far. */
  datatype State = State(
    cache: map<Key, Value>, dir: string, exports: Value, started: seq<string>, finished: seq<string>)

  /** A loader that has loaded nothing yet. */
  function Fresh(dir: string): State { State(map[], dir, Null, [], []) }

  datatype Result = Result(state: State, outcome: Outcome)

  function JoinPath(dir: string, name: string): string { dir + "/" + name }

  predicate IsAbsolute(name: string) { name != "" && name[0] == '/' }

  predicate IsRelative(name: string) { "./" <= name }

  function KeyOf(dir: string, name: string): Key {
    if IsAbsolute(name) then Path(name) else Local(dir, name)
  }

  /** `requiredFiles[key]?` */
  predicate Has(cache: map<Key, Value>, key: Key) { key in cache && cache[key] != Null }

  /** Index of the last slash, or -1. */
  function LastSlash(path: string): (i: int)
    ensures -1 <= i < |path|
  {
    if path == "" then -1
    else if path[|path| - 1] == '/' then |path| - 1
    else LastSlash(path[..|path| - 1])
  }

  /** dirname(3) of a real path. */
  function Dirname(path: string): string {
    var i := LastSlash(path);
    if i < 0 then "." else if i == 0 then "/" else path[..i]
  }

  /** The first include directory that has the file. */
  function FindInclude(fs: FileSystem, dirs: seq<string>, name: string): Option<string> {
    if dirs == [] then None
    else if JoinPath(dirs[0], name) in fs.realPath then Some(JoinPath(dirs[0], name))
    else FindInclude(fs, dirs[1..], name)
  }

  /** The directory of any path: up to its last slash, the root for a slash at the beginning, and
      the current directory without one. */
  lemma {:induction false} DirnameOfAny(path: string) returns (i: int)
    ensures '/' !in path ==> Dirname(path) == "."
    ensures '/' in path ==>
      && 0 <= i < |path| && path[i] == '/' && '/' !in path[i + 1..]
      && Dirname(path) == if i == 0 then "/" else path[..i]
  {
    LastSlashIs(path);
    i := LastSlash(path);
  }

  lemma {:induction false} LastSlashIs(path: string)
    ensures LastSlash(path) == -1 <==> '/' !in path
    ensures LastSlash(path) >= 0 ==> path[LastSlash(path)] == '/' && '/' !in path[LastSlash(path) + 1..]
    decreases |path|
  {
    if path != "" {
      var front := path[..|path| - 1];
      assert path == front + [path[|path| - 1]];
      if path[|path| - 1] != '/' {
        LastSlashIs(front);
        var i := LastSlash(front);
        if i >= 0 {
          assert path[i + 1..] == front[i + 1..] + [path[|path| - 1]];
        }
      }
    }
  }

  /** A script's own directory: the path it was joined from. */
  lemma {:induction false} DirnameOfJoin(dir: string, name: string)
    requires '/' !in name
    ensures LastSlash(JoinPath(dir, name)) == |dir|
    ensures Dirname(JoinPath(dir, name)) == if dir == "" then "/" else dir
    decreases |name|
  {
    var path := JoinPath(dir, name);
    if name != "" {
      var front := name[..|name| - 1];
      assert path[..|path| - 1] == JoinPath(dir, front);
      assert path[|path| - 1] == name[|name| - 1];
      DirnameOfJoin(dir, front);
    }
    assert path[..|dir|] == dir;
  }

  predicate FirstWith(fs: FileSystem, dirs: seq<string>, name: string, i: int) {
    && 0 <= i < |dirs| && JoinPath(dirs[i], name) in fs.realPath
    && forall j :: 0 <= j < i ==> JoinPath(dirs[j], name) !in fs.realPath
  }

  /** The include directory chosen is the first that has the file. */
  lemma {:induction false} IncludeIsFirst(fs: FileSystem, dirs: seq<string>, name: string) returns (i: int)
    ensures FindInclude(fs, dirs, name).None? ==>
      forall j :: 0 <= j < |dirs| ==> JoinPath(dirs[j], name) !in fs.realPath
    ensures FindInclude(fs, dirs, name).Some? ==>
      FirstWith(fs, dirs, name, i) && FindInclude(fs, dirs, name).value == JoinPath(dirs[i], name)
  {
    i := 0;
    if dirs != [] && JoinPath(dirs[0], name) !in fs.realPath {
      var k := IncludeIsFirst(fs, dirs[1..], name);
      i := k + 1;
      forall j | 0 < j < |dirs| ensures dirs[j] == dirs[1..][j - 1] {
      }
    }
  }

  /** The scripts that are not marked as loading. */
  ghost function Unmarked(fs: FileSystem, st: State): set<string> {
    set f | f in fs.files && !(Path(f) in st.cache && st.cache[Path(f)] == One)
  }

  function Remember(st: State, key: Key, v: Value): State { st.(cache := st.cache[key := v]) }

  /** The function `require`: look under the name first, and remember it there afterwards. */
  ghost function Require(fs: FileSystem, st: State, name: string): (r: Result)
    requires WellFormed(fs)
    ensures r.state.dir == st.dir && st.started <= r.state.started
    ensures Unmarked(fs, r.state) <= Unmarked(fs, st)
    decreases Unmarked(fs, st), 1, 1
  {
    var key := KeyOf(st.dir, name);
    if Has(st.cache, key) then Result(st, Returned(st.cache[key]))
    else
      var r := Fetch(fs, st, name);
      if r.outcome.Thrown? then r
      else Result(Remember(r.state, key, r.outcome.value), r.outcome)
  }

  /** The three kinds of name. */
  ghost function Fetch(fs: FileSystem, st: State, name: string): (r: Result)
    requires WellFormed(fs)
    ensures r.state.dir == st.dir && st.started <= r.state.started
    ensures Unmarked(fs, r.state) <= Unmarked(fs, st)
    ensures r.outcome.Returned? && IsAbsolute(name) && name in fs.files ==>
      Path(name) in r.state.cache && r.state.cache[Path(name)] == r.outcome.value
    decreases Unmarked(fs, st), 1, 0
  {
    if IsAbsolute(name) then RequireAbsolute(fs, st, name)
    else if IsRelative(name) then RequireAbsolute(fs, st, JoinPath(st.dir, name))
    else match FindInclude(fs, fs.includePath, name)
      case None => Result(st, Thrown(CannotFind(name)))
      case Some(path) => RequireAbsolute(fs, st, path)
  }

  /** `requireAbsolute`. */
  ghost function RequireAbsolute(fs: FileSystem, st: State, filename: string): (r: Result)
    requires WellFormed(fs)
    ensures r.state.dir == st.dir && st.started <= r.state.started
    ensures Unmarked(fs, r.state) <= Unmarked(fs, st)
    ensures r.outcome.Returned? ==>
      && filename in fs.realPath && Path(fs.realPath[filename]) in r.state.cache
      && r.state.cache[Path(fs.realPath[filename])] == r.outcome.value
    decreases Unmarked(fs, st), 0, 0
  {
    if filename !in fs.realPath then Result(st, Thrown(CannotFind(filename)))
    else
      var f := fs.realPath[filename];
      if Has(st.cache, Path(f)) then
        if st.cache[Path(f)] == One then Result(st, Thrown(Loop(f)))
        else Result(st, Returned(st.cache[Path(f)]))
      else if f !in fs.files then Result(Remember(st, Path(f), One), Thrown(CannotOpen(f)))
      else
        var marked := Remember(st, Path(f), One);
        assert Unmarked(fs, marked) == Unmarked(fs, st) - {f};
        var r := Run(fs, marked, f);
        if r.outcome.Thrown? then r
        else
          assert Unmarked(fs, Remember(r.state, Path(f), r.outcome.value)) <= Unmarked(fs, r.state) + {f};
          Result(Remember(r.state, Path(f), r.outcome.value), r.outcome)
  }

  /** `System::require`: the current directory is that of the script while it runs, and is put
      back afterwards whether or not the script threw. `exports`, the global one or its own, is a
      new object when the script begins, and the script returns whatever it is at the end. */
  ghost function Run(fs: FileSystem, st: State, f: string): (r: Result)
    requires WellFormed(fs) && f in fs.files
    ensures r.state.dir == st.dir && st.started <= r.state.started
    ensures Unmarked(fs, r.state) <= Unmarked(fs, st)
    decreases Unmarked(fs, st), 3, 0
  {
    var script := fs.files[f];
    var r := Body(fs, Begin(st, f, script), script.steps);
    var back := r.state.(dir := st.dir);
    if r.outcome.Thrown? then Result(back, r.outcome)
    else
      Result(back.(finished := back.finished + [f]),
             Returned(if script.declared.Some? then script.declared.value else back.exports))
  }

  function Begin(st: State, f: string, script: Script): State {
    st.(dir := Dirname(f), started := st.started + [f],
        exports := if script.declared.Some? then st.exports else Own(f))
  }

  /** The script itself, step by step; nothing catches what a require throws. */
  ghost function Body(fs: FileSystem, st: State, steps: seq<Step>): (r: Result)
    requires WellFormed(fs)
    ensures r.state.dir == st.dir && st.started <= r.state.started
    ensures Unmarked(fs, r.state) <= Unmarked(fs, st)
    decreases Unmarked(fs, st), 2, |steps|
  {
    if steps == [] then Result(st, Returned(Null))
    else match steps[0]
      case Assigns(v) => Body(fs, st.(exports := v), steps[1..])
      case Requires(name) =>
        var r := Require(fs, st, name);
        if r.outcome.Thrown? then r
        else
          assert Unmarked(fs, r.state) < Unmarked(fs, st) || Unmarked(fs, r.state) == Unmarked(fs, st);
          Body(fs, r.state, steps[1..])
  }
}
