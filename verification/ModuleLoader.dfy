/** The loader as it runs: the object behind `require`, with its table and the global
    `$currentDir`. */
module ModuleLoader {
  import opened Modules

  class Loader {
    const fs: FileSystem
    var requiredFiles: map<Key, Value>
    var currentDir: string
    // The global variable that scripts assign.
    var exports: Value
    // The scripts that ran, in the order they began and in the order they were done.
    var started: seq<string>
    var finished: seq<string>

    ghost function Now(): State
      reads this
    {
      State(requiredFiles, currentDir, exports, started, finished)
    }

    constructor (fs: FileSystem, dir: string)
      ensures this.fs == fs && Now() == Fresh(dir)
    {
      this.fs, requiredFiles, currentDir, exports, started, finished := fs, map[], dir, Null, [], [];
    }

    method Require(name: string) returns (outcome: Outcome)
      requires WellFormed(fs)
      modifies this
      ensures Result(Now(), outcome) == Modules.Require(fs, old(Now()), name)
      decreases Unmarked(fs, Now()), 3
    {
      var originalFileName := KeyOf(currentDir, name);
      if Has(requiredFiles, originalFileName) {
        return Returned(requiredFiles[originalFileName]);
      }
      if IsAbsolute(name) {
        outcome := RequireAbsolute(name);
      } else if IsRelative(name) {
        outcome := RequireRelative(name);
      } else {
        outcome := RequireIncludePath(name);
      }
      if outcome.Returned? {
        requiredFiles := requiredFiles[originalFileName := outcome.value];
      }
    }

    method RequireRelative(name: string) returns (outcome: Outcome)
      requires WellFormed(fs)
      modifies this
      ensures Result(Now(), outcome) == Modules.RequireAbsolute(fs, old(Now()), JoinPath(old(currentDir), name))
      decreases Unmarked(fs, Now()), 2
    {
      outcome := RequireAbsolute(JoinPath(currentDir, name));
    }

    method RequireIncludePath(name: string) returns (outcome: Outcome)
      requires WellFormed(fs)
      modifies this
      ensures Result(Now(), outcome) ==
        match FindInclude(fs, fs.includePath, name)
        case None => Result(old(Now()), Thrown(CannotFind(name)))
        case Some(path) => Modules.RequireAbsolute(fs, old(Now()), path)
      decreases Unmarked(fs, Now()), 2
    {
      var found, filename := false, name;
      var i := 0;
      while i < |fs.includePath|
        invariant 0 <= i <= |fs.includePath| && !found && filename == name
        invariant FindInclude(fs, fs.includePath[i..], name) == FindInclude(fs, fs.includePath, name)
      {
        var path := JoinPath(fs.includePath[i], name);
        assert fs.includePath[i..][1..] == fs.includePath[i + 1..];
        if path in fs.realPath {
          filename, found := path, true;
          break;
        }
        i := i + 1;
      }
      if !found {
        return Thrown(CannotFind(name));
      }
      outcome := RequireAbsolute(filename);
    }

    method RequireAbsolute(filename: string) returns (outcome: Outcome)
      requires WellFormed(fs)
      modifies this
      ensures Result(Now(), outcome) == Modules.RequireAbsolute(fs, old(Now()), filename)
      decreases Unmarked(fs, Now()), 1
    {
      if filename !in fs.realPath {
        return Thrown(CannotFind(filename));
      }
      var f := fs.realPath[filename];
      if Has(requiredFiles, Path(f)) {
        if requiredFiles[Path(f)] == One {
          return Thrown(Loop(f));
        }
        return Returned(requiredFiles[Path(f)]);
      }
      ghost var before := Now();
      requiredFiles := requiredFiles[Path(f) := One];
      assert f in fs.files ==> Unmarked(fs, Now()) == Unmarked(fs, before) - {f};
      outcome := RunScript(f);
      if outcome.Returned? {
        requiredFiles := requiredFiles[Path(f) := outcome.value];
      }
    }

    /** `_require`: run a script with its own directory current. */
    method RunScript(f: string) returns (outcome: Outcome)
      requires WellFormed(fs)
      modifies this
      ensures f !in fs.files ==> outcome == Thrown(CannotOpen(f)) && Now() == old(Now())
      ensures f in fs.files ==> Result(Now(), outcome) == Modules.Run(fs, old(Now()), f)
      ensures currentDir == old(currentDir)
      decreases Unmarked(fs, Now()), if f in fs.files then 4 else 0
    {
      if f !in fs.files {
        return Thrown(CannotOpen(f));
      }
      var oldDir := currentDir;
      currentDir := Dirname(f);
      var declared := fs.files[f].declared;
      if declared.None? {
        exports := Own(f);
      }
      started := started + [f];
      outcome := Returned(Null);
      var steps := fs.files[f].steps;
      ghost var inside := Now();
      var i := 0;
      while i < |steps| && outcome.Returned?
        invariant 0 <= i <= |steps|
        invariant Unmarked(fs, Now()) <= Unmarked(fs, inside)
        invariant outcome.Returned? ==> Modules.Body(fs, inside, steps) == Modules.Body(fs, Now(), steps[i..])
        invariant outcome.Thrown? ==> Modules.Body(fs, inside, steps) == Result(Now(), outcome)
        decreases |steps| - i, outcome.Returned?
      {
        match steps[i] {
          case Requires(name) => outcome := Require(name);
          case Assigns(v) => exports := v;
        }
        i := i + 1;
      }
      currentDir := oldDir;
      if outcome.Returned? {
        finished := finished + [f];
        outcome := Returned(if declared.Some? then declared.value else exports);
      }
    }
  }
}
