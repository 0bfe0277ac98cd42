// Environment loading and reloading: packages/next-env/index.ts.
//
// Parsing and expansion of a file's contents are an arbitrary function; None is a parse error,
// which is logged and skipped.
module EnvLoader {
  import opened Wrappers

  type Env = map<string, string>

  type Parser = string -> Option<Env>

  const PRIVATE_PREFIX := "__NEXT_PRIVATE"
  const PROCESSED_FLAG := "__NEXT_PROCESSED_ENV"

  // What every plain object inherits from Object.prototype: reading such a key never gives undefined.
  const INHERITED: set<string> :=
    {"constructor", "hasOwnProperty", "isPrototypeOf", "propertyIsEnumerable", "toLocaleString", "toString", "valueOf",
     "__defineGetter__", "__defineSetter__", "__lookupGetter__", "__lookupSetter__", "__proto__"}

  predicate IsPrivate(key: string) {
    PRIVATE_PREFIX <= key
  }

  function Lookup(env: Env, key: string): Option<string> {
    if key in env then Some(env[key]) else None
  }

  // A variable that is set and not empty counts as true.
  predicate Truthy(env: Env, key: string) {
    key in env && env[key] != ""
  }

  // A variable of the environment proper.
  predicate Ordinary(key: string) {
    !IsPrivate(key) && key != PROCESSED_FLAG && key !in INHERITED
  }

  // The source object has a value for the key, its own or an inherited one, and not the empty string.
  predicate Holds(source: Env, key: string) {
    if key in source then source[key] != "" else key in INHERITED
  }

  // ---------- Files ----------

  datatype FileState = Regular(contents: string) | NotAFile | Missing | Unreadable

  type FileSystem = string -> FileState

  datatype EnvFile = EnvFile(path: string, contents: string)

  function ModeOf(nodeEnv: Option<string>, dev: bool): string {
    if nodeEnv == Some("test") then "test" else if dev then "development" else "production"
  }

  function Mode(env: Env, dev: bool): string {
    ModeOf(Lookup(env, "NODE_ENV"), dev)
  }

  function DotenvFiles(mode: string): seq<string> {
    [".env." + mode + ".local"] + (if mode == "test" then [] else [".env.local"]) + [".env." + mode, ".env"]
  }

  function ReadFiles(fs: FileSystem, names: seq<string>): seq<EnvFile> {
    if names == [] then []
    else
      var name := names[|names| - 1];
      ReadFiles(fs, names[..|names| - 1]) + if fs(name).Regular? then [EnvFile(name, fs(name).contents)] else []
  }

  // The value that the first file defining the key gives it.
  function FirstDefined(files: seq<EnvFile>, parse: Parser, key: string): Option<string> {
    if files == [] then None
    else
      var parsed := parse(files[0].contents);
      if parsed.Some? && key in parsed.value then Some(parsed.value[key]) else FirstDefined(files[1..], parse, key)
  }

  // ---------- The loader as a value ----------

  // `loaded` says that combinedEnv is set; it is the live process environment.
  datatype State = State(env: Env, initialEnv: Option<Env>, loaded: bool, parsedEnv: Option<Env>,
                         cachedFiles: seq<EnvFile>, previousFiles: seq<EnvFile>)

  function Start(env: Env): State {
    State(env, None, false, None, [], [])
  }

  function Capture(s: State): State {
    if s.initialEnv.None? then s.(initialEnv := Some(s.env)) else s
  }

  function Kept(env: Env, source: Env): Env {
    map k | k in env && (IsPrivate(k) || Holds(source, k)) :: env[k]
  }

  function Replaced(env: Env, source: Env): Env {
    Kept(env, source) + source
  }

  // The variables the files add; variables of the original environment are left alone.
  function Added(files: seq<EnvFile>, parse: Parser, original: Env): Env {
    if files == [] then map[]
    else
      var parsed := parse(files[|files| - 1].contents);
      var before := Added(files[..|files| - 1], parse, original);
      if parsed.None? then before else (parsed.value - original.Keys - INHERITED) + before
  }

  function ProcessEnv(s: State, files: seq<EnvFile>, parse: Parser, force: bool): (State, Option<Env>) {
    var c := Capture(s);
    if !force && (Truthy(c.env, PROCESSED_FLAG) || files == []) then (c, None)
    else
      var added := Added(files, parse, c.initialEnv.value);
      (c.(env := c.env[PROCESSED_FLAG := "true"] + added), Some(added))
  }

  function ResetEnv(s: State): State {
    if s.initialEnv.Some? then s.(env := Replaced(s.env, s.initialEnv.value)) else s
  }

  function LoadEnvConfig(s: State, fs: FileSystem, parse: Parser, dev: bool, force: bool): State {
    var c := Capture(s);
    if c.loaded && !force then c
    else
      var env := Replaced(c.env, c.initialEnv.value);
      var files := ReadFiles(fs, DotenvFiles(Mode(env, dev)));
      var (p, added) := ProcessEnv(c.(env := env, previousFiles := c.cachedFiles, cachedFiles := files), files, parse,
                                   force);
      p.(loaded := true, parsedEnv := added)
  }

  function UpdateInitialEnv(s: State, newEnv: Env): State {
    if s.initialEnv.Some? then s.(initialEnv := Some(s.initialEnv.value + newEnv)) else s
  }

  // ---------- The loader as an object ----------

  class Loader {
    var processEnv: Env
    var initialEnv: Option<Env>
    var loaded: bool
    var parsedEnv: Option<Env>
    var cachedLoadedEnvFiles: seq<EnvFile>
    var previousLoadedEnvFiles: seq<EnvFile>

    function Value(): State
      reads this
    {
      State(processEnv, initialEnv, loaded, parsedEnv, cachedLoadedEnvFiles, previousLoadedEnvFiles)
    }

    constructor (env: Env)
      ensures Value() == Start(env)
    {
      processEnv, initialEnv, loaded, parsedEnv, cachedLoadedEnvFiles, previousLoadedEnvFiles :=
          env, None, false, None, [], [];
    }

    method ReplaceProcessEnv(source: Env)
      modifies this`processEnv
      ensures processEnv == Replaced(old(processEnv), source)
    {
      DropMissing(source);
      AssignAll(source);
    }

    // Delete, key by key, what the source lacks.
    method DropMissing(source: Env)
      modifies this`processEnv
      ensures processEnv == Kept(old(processEnv), source)
    {
      var keys := processEnv.Keys;
      while keys != {}
        invariant keys <= old(processEnv.Keys)
        invariant forall k :: k in processEnv <==>
                  k in old(processEnv) && (k in keys || IsPrivate(k) || Holds(source, k))
        invariant forall k :: k in processEnv ==> processEnv[k] == old(processEnv)[k]
        decreases keys
      {
        var key :| key in keys;
        keys := keys - {key};
        if !IsPrivate(key) && !Holds(source, key) {
          processEnv := processEnv - {key};
        }
      }
    }

    method AssignAll(source: Env)
      modifies this`processEnv
      ensures processEnv == old(processEnv) + source
    {
      var rest := source.Keys;
      while rest != {}
        invariant rest <= source.Keys
        invariant processEnv.Keys == old(processEnv.Keys) + (source.Keys - rest)
        invariant forall k :: k in processEnv ==>
                  processEnv[k] == if k in source && k !in rest then source[k] else old(processEnv)[k]
        decreases rest
      {
        var key :| key in rest;
        rest := rest - {key};
        processEnv := processEnv[key := source[key]];
      }
    }

    method AddParsed(parsed: Env, result: Env) returns (parsed': Env)
      requires initialEnv.Some?
      ensures parsed' == (result - initialEnv.value.Keys - INHERITED) + parsed
    {
      parsed' := parsed;
      var keys := result.Keys;
      while keys != {}
        invariant keys <= result.Keys
        invariant parsed'
                  == (map k | k in result && k !in keys && k !in initialEnv.value && k !in INHERITED :: result[k])
                     + parsed
        decreases keys
      {
        var key :| key in keys;
        keys := keys - {key};
        if key !in parsed' && key !in initialEnv.value && key !in INHERITED {
          parsed' := parsed'[key := result[key]];
        }
      }
      assert (map k | k in result && k !in keys && k !in initialEnv.value && k !in INHERITED :: result[k])
             == result - initialEnv.value.Keys - INHERITED;
    }

    method CaptureInitialEnv()
      modifies this`initialEnv
      ensures Value() == Capture(old(Value())) && initialEnv.Some?
    {
      if initialEnv.None? {
        initialEnv := Some(processEnv);
      }
    }

    method ProcessEnvFiles(files: seq<EnvFile>, parse: Parser, forceReload: bool) returns (added: Option<Env>)
      modifies this`processEnv, this`initialEnv
      ensures (Value(), added) == ProcessEnv(old(Value()), files, parse, forceReload)
    {
      CaptureInitialEnv();
      if !forceReload && (Truthy(processEnv, PROCESSED_FLAG) || files == []) {
        return None;
      }
      processEnv := processEnv[PROCESSED_FLAG := "true"];
      var parsed := ParseAll(files, parse);
      processEnv := processEnv + parsed;
      added := Some(parsed);
    }

    method ParseAll(files: seq<EnvFile>, parse: Parser) returns (parsed: Env)
      requires initialEnv.Some?
      ensures parsed == Added(files, parse, initialEnv.value)
    {
      parsed := map[];
      for i := 0 to |files|
        invariant parsed == Added(files[..i], parse, initialEnv.value)
      {
        assert files[..i + 1][..i] == files[..i];
        var result := parse(files[i].contents);
        if result.Some? {
          parsed := AddParsed(parsed, result.value);
        }
      }
      assert files[..|files|] == files;
    }

    method Reset()
      modifies this`processEnv
      ensures Value() == ResetEnv(old(Value()))
    {
      if initialEnv.Some? {
        ReplaceProcessEnv(initialEnv.value);
      }
    }

    method UpdateInitial(newEnv: Env)
      modifies this`initialEnv
      ensures Value() == UpdateInitialEnv(old(Value()), newEnv)
    {
      if initialEnv.Some? {
        initialEnv := Some(initialEnv.value + newEnv);
      }
    }

    // The loop over the file names; what is missing or no file is passed over.
    method ReadDotenvFiles(fs: FileSystem, dotenvFiles: seq<string>)
      modifies this`cachedLoadedEnvFiles
      ensures cachedLoadedEnvFiles == ReadFiles(fs, dotenvFiles)
    {
      cachedLoadedEnvFiles := [];
      for i := 0 to |dotenvFiles|
        invariant cachedLoadedEnvFiles == ReadFiles(fs, dotenvFiles[..i])
      {
        assert dotenvFiles[..i + 1][..i] == dotenvFiles[..i];
        var file := fs(dotenvFiles[i]);
        if file.Regular? {
          cachedLoadedEnvFiles := cachedLoadedEnvFiles + [EnvFile(dotenvFiles[i], file.contents)];
        }
      }
      assert dotenvFiles[..|dotenvFiles|] == dotenvFiles;
    }

    method Load(fs: FileSystem, parse: Parser, dev: bool, forceReload: bool)
      modifies this
      ensures Value() == LoadEnvConfig(old(Value()), fs, parse, dev, forceReload)
    {
      CaptureInitialEnv();
      if loaded && !forceReload {
        return;
      }
      ReplaceProcessEnv(initialEnv.value);
      previousLoadedEnvFiles := cachedLoadedEnvFiles;
      ReadDotenvFiles(fs, DotenvFiles(Mode(processEnv, dev)));
      var added := ProcessEnvFiles(cachedLoadedEnvFiles, parse, forceReload);
      loaded, parsedEnv := true, added;
    }
  }

  // ---------- A forced load forgets history ----------

  function MergeFirst(a: Option<string>, b: Option<string>): Option<string> {
    if a.Some? then a else b
  }

  lemma {:induction false} FirstDefinedSnoc(files: seq<EnvFile>, last: EnvFile, parse: Parser, key: string)
    ensures FirstDefined(files + [last], parse, key)
            == MergeFirst(FirstDefined(files, parse, key), FirstDefined([last], parse, key))
  {
    if files == [] {
      assert files + [last] == [last];
    } else {
      FirstDefinedSnoc(files[1..], last, parse, key);
      assert (files + [last])[1..] == files[1..] + [last];
    }
  }

  // The files add exactly the variables that the original environment lacks, first file first.
  lemma {:induction false} AddedExact(files: seq<EnvFile>, parse: Parser, original: Env, key: string)
    ensures Lookup(Added(files, parse, original), key)
            == if key in original || key in INHERITED then None else FirstDefined(files, parse, key)
  {
    if files != [] {
      var init, last := files[..|files| - 1], files[|files| - 1];
      AddedExact(init, parse, original, key);
      FirstDefinedSnoc(init, last, parse, key);
      assert files == init + [last];
      assert [last][1..] == [];
    }
  }

  // The files that a forced load reads; the state has no say in them.
  function FilesFor(initial: Env, fs: FileSystem, dev: bool): seq<EnvFile> {
    ReadFiles(fs, DotenvFiles(Mode(initial, dev)))
  }

  lemma ModeIsInitial(env: Env, initial: Env, dev: bool)
    ensures Mode(Replaced(env, initial), dev) == Mode(initial, dev)
  {
  }

  // Each variable after a forced load, from whatever state.
  lemma ForcedLoadExact(s: State, fs: FileSystem, parse: Parser, dev: bool, key: string)
    ensures var initial := Capture(s).initialEnv.value;
            var fromFiles := if key in initial || key in INHERITED then None
                             else FirstDefined(FilesFor(initial, fs, dev), parse, key);
            Lookup(LoadEnvConfig(s, fs, parse, dev, true).env, key)
            == if fromFiles.Some? then fromFiles
               else if key == PROCESSED_FLAG then Some("true")
               else if key in initial then Some(initial[key])
               else if IsPrivate(key) || key in INHERITED then Lookup(s.env, key)
               else None
  {
    var initial := Capture(s).initialEnv.value;
    ModeIsInitial(s.env, initial, dev);
    AddedExact(FilesFor(initial, fs, dev), parse, initial, key);
  }

  // The promise: an ordinary variable has its initial value, else the first file's, else none.
  lemma ForcedLoadForgetsHistory(s: State, fs: FileSystem, parse: Parser, dev: bool, key: string)
    requires Ordinary(key)
    ensures var initial := Capture(s).initialEnv.value;
            Lookup(LoadEnvConfig(s, fs, parse, dev, true).env, key)
            == if key in initial then Some(initial[key]) else FirstDefined(FilesFor(initial, fs, dev), parse, key)
  {
    ForcedLoadExact(s, fs, parse, dev, key);
  }

  // An inherited key is no ordinary one: a change to it outlives a forced load, and no file sets it.
  lemma InheritedKeyOutlives(s: State, value: string, fs: FileSystem, parse: Parser, dev: bool)
    requires s.initialEnv.Some? && "toString" !in s.initialEnv.value
    ensures var changed := s.(env := s.env["toString" := value]);
            Lookup(LoadEnvConfig(changed, fs, parse, dev, true).env, "toString") == Some(value)
  {
    assert "toString" != PROCESSED_FLAG;
    ForcedLoadExact(s.(env := s.env["toString" := value]), fs, parse, dev, "toString");
  }

  // ---------- Unforced loads ----------

  // The value of a key once the environment has been replaced by the initial one, and no more.
  function ReplacedValue(env: Env, initial: Env, key: string): Option<string> {
    if key in initial then Some(initial[key])
    else if IsPrivate(key) || key in INHERITED then Lookup(env, key)
    else None
  }

  lemma ReplacedExact(env: Env, initial: Env, key: string)
    ensures Lookup(Replaced(env, initial), key) == ReplacedValue(env, initial, key)
  {
  }

  // No inherited key has a capital N in third place, and none is short.
  lemma InheritedKeys(key: string)
    requires key in INHERITED
    ensures |key| >= 7 && key[2] != 'N'
  {
    assert "constructor"[2] == 'n' && "hasOwnProperty"[2] == 's' && "isPrototypeOf"[2] == 'P';
    assert "propertyIsEnumerable"[2] == 'o' && "toLocaleString"[2] == 'L' && "toString"[2] == 'S';
    assert "valueOf"[2] == 'l';
    assert "__defineGetter__"[2] == 'd' && "__defineSetter__"[2] == 'd' && "__lookupGetter__"[2] == 'l';
    assert "__lookupSetter__"[2] == 'l' && "__proto__"[2] == 'p';
  }

  lemma FlagIsPublic()
    ensures !IsPrivate(PROCESSED_FLAG) && PROCESSED_FLAG !in INHERITED
  {
    assert PRIVATE_PREFIX[9] == 'I' && PROCESSED_FLAG[9] == 'O' && PROCESSED_FLAG[2] == 'N';
    if PROCESSED_FLAG in INHERITED { InheritedKeys(PROCESSED_FLAG); }
  }

  // No file is read exactly when none of the names is a file that can be read.
  lemma {:induction false} NoFileRead(fs: FileSystem, names: seq<string>)
    ensures ReadFiles(fs, names) == [] <==> forall i :: 0 <= i < |names| ==> !fs(names[i]).Regular?
  {
    if names != [] { NoFileRead(fs, names[..|names| - 1]); }
  }

  // A load that is not forced does, the first time, what a forced one does, unless the environment
  // already has the flag or no file is read; then it only replaces the environment.
  lemma UnforcedLoadExact(s: State, fs: FileSystem, parse: Parser, dev: bool, key: string)
    requires !s.loaded
    ensures var initial := Capture(s).initialEnv.value; var names := DotenvFiles(Mode(initial, dev));
            var flagged := PROCESSED_FLAG in initial && initial[PROCESSED_FLAG] != "";
            Lookup(LoadEnvConfig(s, fs, parse, dev, false).env, key)
            == if flagged || forall i :: 0 <= i < |names| ==> !fs(names[i]).Regular?
               then ReplacedValue(s.env, initial, key)
               else Lookup(LoadEnvConfig(s, fs, parse, dev, true).env, key)
  {
    var initial := Capture(s).initialEnv.value;
    FlagIsPublic();
    ModeIsInitial(s.env, initial, dev);
    NoFileRead(fs, DotenvFiles(Mode(initial, dev)));
    ReplacedExact(s.env, initial, PROCESSED_FLAG);
    ReplacedExact(s.env, initial, key);
  }

  // Once loaded, it changes nothing.
  lemma LoadedStays(s: State, fs: FileSystem, parse: Parser, dev: bool)
    requires s.loaded && s.initialEnv.Some?
    ensures LoadEnvConfig(s, fs, parse, dev, false) == s
  {
  }

  // And every load leaves the loader loaded, with the environment captured.
  lemma LoadLoads(s: State, fs: FileSystem, parse: Parser, dev: bool, force: bool)
    ensures var after := LoadEnvConfig(s, fs, parse, dev, force); after.loaded && after.initialEnv.Some?
  {
  }

  // Processing files directly: each key keeps its value unless a file adds it, or it is the flag;
  // without force, nothing at all happens if the flag is set or there is no file.
  lemma ProcessExact(s: State, files: seq<EnvFile>, parse: Parser, force: bool, key: string)
    ensures var original := if s.initialEnv.Some? then s.initialEnv.value else s.env;
            var skipped := !force && (files == [] || (PROCESSED_FLAG in s.env && s.env[PROCESSED_FLAG] != ""));
            var fromFiles := if key in original || key in INHERITED then None else FirstDefined(files, parse, key);
            Lookup(ProcessEnv(s, files, parse, force).0.env, key)
            == if skipped then Lookup(s.env, key)
               else if fromFiles.Some? then fromFiles
               else if key == "__NEXT_PROCESSED_ENV" then Some("true")
               else Lookup(s.env, key)
  {
    AddedExact(files, parse, Capture(s).initialEnv.value, key);
  }

  // A load that goes through remembers the files it read, and the ones of the load before.
  lemma LoadRemembers(s: State, fs: FileSystem, parse: Parser, dev: bool, force: bool)
    requires force || !s.loaded
    ensures var after := LoadEnvConfig(s, fs, parse, dev, force); var initial := Capture(s).initialEnv.value;
            && after.previousFiles == s.cachedFiles && after.cachedFiles == FilesFor(initial, fs, dev)
            && after.loaded
            && after.parsedEnv
               == if !force && (after.cachedFiles == [] || (PROCESSED_FLAG in initial && initial[PROCESSED_FLAG] != ""))
                  then None
                  else Some(Added(after.cachedFiles, parse, initial))
  {
    var initial := Capture(s).initialEnv.value;
    ModeIsInitial(s.env, initial, dev);
    FlagIsPublic();
    ReplacedExact(s.env, initial, PROCESSED_FLAG);
  }

  // A reset only replaces the environment, by what was captured.
  lemma ResetExact(s: State, key: string)
    ensures Lookup(ResetEnv(s).env, key)
            == if s.initialEnv.Some? then ReplacedValue(s.env, s.initialEnv.value, key) else Lookup(s.env, key)
    ensures ResetEnv(s) == s.(env := ResetEnv(s).env)
  {
    if s.initialEnv.Some? { ReplacedExact(s.env, s.initialEnv.value, key); }
  }

  // ---------- Names ----------

  // The private variables are those of one prefix.
  lemma PrivateKeys(key: string)
    ensures IsPrivate(key) <==> exists rest :: key == "__NEXT_PRIVATE" + rest
  {
    if IsPrivate(key) { assert key == "__NEXT_PRIVATE" + key[14..]; }
  }

  lemma InheritedNames()
    ensures "constructor" in INHERITED && "hasOwnProperty" in INHERITED && "isPrototypeOf" in INHERITED
    ensures "propertyIsEnumerable" in INHERITED && "toLocaleString" in INHERITED && "toString" in INHERITED
    ensures "valueOf" in INHERITED && "__defineGetter__" in INHERITED && "__defineSetter__" in INHERITED
    ensures "__lookupGetter__" in INHERITED && "__lookupSetter__" in INHERITED && "__proto__" in INHERITED
  {
  }

  // The files of each mode, in order of precedence; tests do without the local file.
  lemma FilesByMode(env: Env, dev: bool)
    ensures DotenvFiles(Mode(env, dev))
            == if "NODE_ENV" in env && env["NODE_ENV"] == "test" then [".env.test.local", ".env.test", ".env"]
               else if dev then [".env.development.local", ".env.local", ".env.development", ".env"]
               else [".env.production.local", ".env.local", ".env.production", ".env"]
  {
    assert ".env." + "test" + ".local" == ".env.test.local" && ".env." + "test" == ".env.test";
    assert ".env." + "development" + ".local" == ".env.development.local";
    assert ".env." + "development" == ".env.development";
    assert ".env." + "production" + ".local" == ".env.production.local" && ".env." + "production" == ".env.production";
  }

  // Only ".env" is there.
  ghost predicate OnlyEnvFile(fs: FileSystem, contents: string) {
    forall name :: fs(name) == if name == ".env" then Regular(contents) else Missing
  }

  lemma OnlyEnvFileRead(fs: FileSystem, contents: string, dev: bool)
    requires OnlyEnvFile(fs, contents)
    ensures FilesFor(map[], fs, dev) == [EnvFile(".env", contents)]
  {
    FilesByMode(map[], dev);
    var names := DotenvFiles(Mode(map[], dev));
    assert |names[0]| != 4 && |names[1]| != 4 && |names[2]| != 4;
    NoFileRead(fs, names[..3]);
    assert ReadFiles(fs, names) == ReadFiles(fs, names[..3]) + [EnvFile(".env", contents)];
  }

  lemma FirstOfOne(parse: Parser, key: string)
    requires parse("A=1") == Some(map["A" := "1"])
    ensures FirstDefined([EnvFile(".env", "A=1")], parse, key) == if key == "A" then Some("1") else None
  {
    assert [EnvFile(".env", "A=1")][1..] == [];
  }

  lemma ShortIsOrdinary(key: string)
    requires |key| == 1
    ensures Ordinary(key)
  {
    if key in INHERITED { InheritedKeys(key); }
  }

  // A first load of one file on an empty environment.
  lemma FirstLoadReads(fs: FileSystem, parse: Parser, dev: bool, key: string)
    requires OnlyEnvFile(fs, "A=1") && parse("A=1") == Some(map["A" := "1"])
    ensures Lookup(LoadEnvConfig(Start(map[]), fs, parse, dev, false).env, key)
            == if key == "A" then Some("1") else if key == "__NEXT_PROCESSED_ENV" then Some("true") else None
  {
    OnlyEnvFileRead(fs, "A=1", dev);
    NoFileRead(fs, DotenvFiles(Mode(map[], dev)));
    UnforcedLoadExact(Start(map[]), fs, parse, dev, key);
    ForcedLoadExact(Start(map[]), fs, parse, dev, key);
    FirstOfOne(parse, key);
    ShortIsOrdinary("A");
  }

  // ---------- Runs ----------

  // What can happen to the loader and to the environment.
  datatype Event =
    | Load(fs: FileSystem, dev: bool, force: bool)
    | Process(files: seq<EnvFile>, force: bool)
    | Reset
    | Update(newEnv: Env)
    | SetVariable(key: string, value: string)
    | DeleteVariable(key: string)

  function Step(s: State, e: Event, parse: Parser): State {
    match e
    case Load(fs, dev, force) => LoadEnvConfig(s, fs, parse, dev, force)
    case Process(files, force) => ProcessEnv(s, files, parse, force).0
    case Reset => ResetEnv(s)
    case Update(newEnv) => UpdateInitialEnv(s, newEnv)
    case SetVariable(key, value) => s.(env := s.env[key := value])
    case DeleteVariable(key) => s.(env := s.env - {key})
  }

  function RunEvents(s: State, events: seq<Event>, parse: Parser): State {
    if events == [] then s else Step(RunEvents(s, events[..|events| - 1], parse), events[|events| - 1], parse)
  }

  // The value that the last update of the key gave it.
  function LastUpdate(events: seq<Event>, key: string): Option<string> {
    if events == [] then None
    else
      var last := events[|events| - 1];
      if last.Update? && key in last.newEnv then Some(last.newEnv[key]) else LastUpdate(events[..|events| - 1], key)
  }

  // Once captured, the initial environment changes by updates only, whatever else happens.
  lemma {:induction false} InitialEnvKept(s: State, events: seq<Event>, parse: Parser, key: string)
    requires s.initialEnv.Some?
    ensures var after := RunEvents(s, events, parse);
            && after.initialEnv.Some?
            && Lookup(after.initialEnv.value, key)
               == MergeFirst(LastUpdate(events, key), Lookup(s.initialEnv.value, key))
  {
    if events != [] { InitialEnvKept(s, events[..|events| - 1], parse, key); }
  }

  // A reset and a forced load bring an updated variable into the environment.
  lemma UpdateIsRestored(s: State, newEnv: Env, fs: FileSystem, parse: Parser, dev: bool, key: string)
    requires s.initialEnv.Some? && key in newEnv && key != PROCESSED_FLAG
    ensures var updated := UpdateInitialEnv(s, newEnv);
            && updated.env == s.env
            && Lookup(ResetEnv(updated).env, key) == Some(newEnv[key])
            && Lookup(LoadEnvConfig(updated, fs, parse, dev, true).env, key) == Some(newEnv[key])
  {
    ForcedLoadExact(UpdateInitialEnv(s, newEnv), fs, parse, dev, key);
  }

  // Before anything is captured an update is lost.
  lemma EarlyUpdateIsLost(s: State, newEnv: Env, events: seq<Event>, parse: Parser)
    requires s.initialEnv.None?
    ensures RunEvents(Step(s, Update(newEnv), parse), events, parse) == RunEvents(s, events, parse)
  {
  }

  lemma FirstLoadCaptures(s: State, first: Event, parse: Parser)
    requires s.initialEnv.None? && (first.Load? || first.Process?)
    ensures Step(s, first, parse).initialEnv == Some(s.env)
  {
  }

  // After a first load and any events, a forced load gives each ordinary variable the value of its
  // last update, else the value it had before the first load, else the first file's, else none.
  lemma AnyHistoryIsForgotten(s: State, first: Event, events: seq<Event>, fs: FileSystem, parse: Parser, dev: bool,
                              key: string)
    requires s.initialEnv.None? && (first.Load? || first.Process?)
    requires Ordinary(key)
    ensures var after := RunEvents(Step(s, first, parse), events, parse);
            var mode := MergeFirst(LastUpdate(events, "NODE_ENV"), Lookup(s.env, "NODE_ENV"));
            var initial := MergeFirst(LastUpdate(events, key), Lookup(s.env, key));
            Lookup(LoadEnvConfig(after, fs, parse, dev, true).env, key)
            == MergeFirst(initial, FirstDefined(ReadFiles(fs, DotenvFiles(ModeOf(mode, dev))), parse, key))
  {
    var captured := Step(s, first, parse);
    FirstLoadCaptures(s, first, parse);
    InitialEnvKept(captured, events, parse, "NODE_ENV");
    InitialEnvKept(captured, events, parse, key);
    ForcedLoadForgetsHistory(RunEvents(captured, events, parse), fs, parse, dev, key);
  }
}
