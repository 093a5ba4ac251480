/** The compiler flags of each module and the module of each directory, kept in step while the
    project is loaded and its directories come and go.  */
module FlagCache {
  import opened Basics
  import opened Paths
  import CompilerFlags

  /** Which paths are directories, which directories are there, and which hold a project file. */
  datatype Tree = Tree(isDirectory: AbsPath -> bool, isThere: AbsPath -> bool, hasProjectFile: AbsPath -> bool)

  datatype Config = Config(
    home: AbsPath, build: AbsPath, tree: Tree, excluded: AbsPath -> bool, isCpp: string -> bool, systemFlags: seq<string>)

  /** One entry of the compilation database.  An entry of the JSON file may lack its command. */
  datatype Command = Command(file: AbsPath, flags: Option<seq<string>>)

  datatype Cache = Cache(flags: map<string, seq<string>>, dirs: map<seq<string>, string>)

  const EMPTY := Cache(map[], map[])

  function DirKey(home: AbsPath, p: AbsPath): seq<string> {
    Relative(p, home)
  }

  // ---------- what keeps the two maps in step ----------

  /** A directory of the map is the home of the module it names. */
  ghost predicate IsHome(c: Cache, h: seq<string>) {
    h in c.dirs && c.dirs[h] == RelativeText(h)
  }

  ghost predicate KeysProper(c: Cache, home: AbsPath) {
    forall d | d in c.dirs :: IsRelative(d) && DirKey(home, Absolute(home, d)) == d
  }

  ghost predicate DirsHaveFlags(c: Cache) {
    forall d | d in c.dirs :: c.dirs[d] in c.flags
  }

  ghost predicate HomesMapped(c: Cache) {
    forall m | m in c.flags :: exists h :: IsHome(c, h) && RelativeText(h) == m
  }

  ghost predicate HomesAbove(c: Cache, home: AbsPath) {
    forall d, h | d in c.dirs && h in c.dirs && RelativeText(h) == c.dirs[d] :: Absolute(home, h) <= Absolute(home, d)
  }

  ghost predicate Consistent(c: Cache, home: AbsPath) {
    KeysProper(c, home) && DirsHaveFlags(c) && HomesMapped(c) && HomesAbove(c, home)
  }

  lemma HomeOf(c: Cache, home: AbsPath, h: seq<string>)
    requires KeysProper(c, home) && HomesMapped(c) && IsRelative(h) && RelativeText(h) in c.flags
    ensures IsHome(c, h)
  {
    hide Relative, Absolute, RelativeText, IsRelative;
    var g :| IsHome(c, g) && RelativeText(g) == RelativeText(h);
    RelativeTextInjective(g, h);
  }

  lemma KeyProper(home: AbsPath, p: AbsPath)
    ensures IsRelative(DirKey(home, p)) && Absolute(home, DirKey(home, p)) == p
  {
    RelativeResolves(p, home);
  }

  // ---------- directories come and go ----------

  function WithDir(c: Cache, home: AbsPath, path: AbsPath, moduleName: string): Cache {
    c.(dirs := c.dirs[DirKey(home, path) := moduleName])
  }

  function OutsideModule(dirs: map<seq<string>, string>, m: string): map<seq<string>, string> {
    map e | e in dirs && dirs[e] != m :: dirs[e]
  }

  function WithoutDir(c: Cache, home: AbsPath, path: AbsPath): Cache {
    var d := DirKey(home, path);
    if d !in c.dirs then c
    else
      var m := c.dirs[d];
      if RelativeText(d) != m then c.(dirs := c.dirs - {d})
      else Cache(c.flags - {m}, OutsideModule(c.dirs, m))
  }

  /** The new directory is the home of another module that has flags. */
  predicate TakesHome(c: Cache, home: AbsPath, path: AbsPath, moduleName: string) {
    RelativeText(DirKey(home, path)) in c.flags && RelativeText(DirKey(home, path)) != moduleName
  }

  /** The module named by the home h takes in a directory below h. */
  lemma AddBelowHome(c: Cache, home: AbsPath, path: AbsPath, h: seq<string>)
    requires Consistent(c, home) && IsHome(c, h) && Absolute(home, h) <= path
    requires !TakesHome(c, home, path, RelativeText(h))
    ensures Consistent(WithDir(c, home, path, RelativeText(h)), home)
  {
    hide Relative, Absolute, RelativeText, IsRelative, HomesMapped, HomesAbove;
    KeyProper(home, path);
    AddKeepsHomes(c, home, DirKey(home, path), RelativeText(h));
    AddKeepsAbove(c, home, path, h);
  }

  /** A directory that joins its parent's module leaves the maps in step exactly when it is not the
      home of a different module. */
  lemma AddKeepsExactly(c: Cache, home: AbsPath, path: AbsPath, moduleName: string)
    requires Consistent(c, home)
    requires DirKey(home, Parent(path)) in c.dirs && c.dirs[DirKey(home, Parent(path))] == moduleName
    ensures Consistent(WithDir(c, home, path, moduleName), home) <==> !TakesHome(c, home, path, moduleName)
  {
    hide Relative, Absolute, RelativeText, IsRelative;
    var r, c' := DirKey(home, path), WithDir(c, home, path, moduleName);
    KeyProper(home, path);
    KeyProper(home, Parent(path));
    if TakesHome(c, home, path, moduleName) {
      if Consistent(c', home) {
        HomeOf(c', home, r);
        assert false;
      }
    } else {
      var h :| IsHome(c, h) && RelativeText(h) == moduleName;
      assert Absolute(home, h) <= Parent(path);
      AddBelowHome(c, home, path, h);
    }
  }

  lemma AddKeepsHomes(c: Cache, home: AbsPath, r: seq<string>, moduleName: string)
    requires KeysProper(c, home) && HomesMapped(c) && IsRelative(r)
    requires RelativeText(r) in c.flags ==> RelativeText(r) == moduleName
    ensures HomesMapped(c.(dirs := c.dirs[r := moduleName]))
  {
    hide Relative, Absolute, RelativeText, IsRelative;
    var c' := c.(dirs := c.dirs[r := moduleName]);
    forall m | m in c'.flags ensures exists h :: IsHome(c', h) && RelativeText(h) == m {
      var h :| IsHome(c, h) && RelativeText(h) == m;
      assert IsHome(c', h);
    }
  }

  lemma AddKeepsAbove(c: Cache, home: AbsPath, path: AbsPath, home1: seq<string>)
    requires Consistent(c, home) && IsHome(c, home1) && Absolute(home, home1) <= path
    requires !TakesHome(c, home, path, RelativeText(home1))
    ensures HomesAbove(WithDir(c, home, path, RelativeText(home1)), home)
  {
    hide Relative, Absolute, RelativeText, IsRelative;
    var r, c' := DirKey(home, path), WithDir(c, home, path, RelativeText(home1));
    KeyProper(home, path);
    assert Absolute(home, r) == path;
    hide DirKey, WithDir, HomesMapped;
    forall d, h | d in c'.dirs && h in c'.dirs && RelativeText(h) == c'.dirs[d]
      ensures Absolute(home, h) <= Absolute(home, d)
    {
      if d == r {
        assert IsRelative(h) && IsRelative(home1);
        RelativeTextInjective(h, home1);
      } else if h == r {
        assert RelativeText(r) in c.flags;
        HomeOf(c, home, r);
      }
    }
  }

  lemma RemoveKeepsHomes(c: Cache, home: AbsPath, path: AbsPath)
    requires HomesMapped(c)
    ensures HomesMapped(WithoutDir(c, home, path))
  {
    hide Relative, RelativeText;
    var c' := WithoutDir(c, home, path);
    forall m | m in c'.flags ensures exists h :: IsHome(c', h) && RelativeText(h) == m {
      var h :| IsHome(c, h) && RelativeText(h) == m;
      assert IsHome(c', h);
    }
  }

  /** Removing a directory always leaves them in step. */
  lemma RemoveKeeps(c: Cache, home: AbsPath, path: AbsPath)
    requires Consistent(c, home)
    ensures Consistent(WithoutDir(c, home, path), home)
  {
    hide Relative, Absolute, RelativeText, IsRelative, HomesMapped;
    RemoveKeepsHomes(c, home, path);
  }

  /** The directory is the home of the module that it is mapped to. */
  predicate RemovesModule(c: Cache, home: AbsPath, path: AbsPath) {
    DirKey(home, path) in c.dirs && RelativeText(DirKey(home, path)) == c.dirs[DirKey(home, path)]
  }

  /** What a removal takes away and what it leaves alone: the directory goes; with the home of a
      module go the directories and flags of that module, and nothing else; every other directory
      keeps its module and every other module its flags. */
  ghost predicate Removed(c: Cache, home: AbsPath, path: AbsPath, c': Cache) {
    var r := DirKey(home, path);
    && (forall d :: d in c'.dirs <==> d in c.dirs && d != r && !(RemovesModule(c, home, path) && c.dirs[d] == c.dirs[r]))
    && (forall d | d in c'.dirs :: c'.dirs[d] == c.dirs[d])
    && (forall m :: m in c'.flags <==> m in c.flags && !(RemovesModule(c, home, path) && m == c.dirs[r]))
    && (forall m | m in c'.flags :: c'.flags[m] == c.flags[m])
  }

  lemma RemovalExactly(c: Cache, home: AbsPath, path: AbsPath)
    ensures Removed(c, home, path, WithoutDir(c, home, path))
  {
    hide Relative, RelativeText;
  }

  /** A lookup changes with a removal if and only if it found flags before and its directory is the
      one removed or belongs to the module whose home that is; it then finds none. */
  lemma RemovalChangesExactly(c: Cache, home: AbsPath, path: AbsPath, tree: Tree, q: AbsPath)
    ensures var before, after := FileFlags(c, home, tree, q), FileFlags(WithoutDir(c, home, path), home, tree, q);
      var d, r := DirKey(home, DirOf(tree, q)), DirKey(home, path);
      after != before <==> before.Some? && (DirOf(tree, q) == path || (RemovesModule(c, home, path) && c.dirs[d] == c.dirs[r]))
    ensures FileFlags(WithoutDir(c, home, path), home, tree, q) != FileFlags(c, home, tree, q) ==>
      FileFlags(WithoutDir(c, home, path), home, tree, q) == None
  {
    hide Relative, RelativeText, Absolute, IsRelative, WithoutDir;
    RemovalExactly(c, home, path);
    KeyProper(home, path);
    KeyProper(home, DirOf(tree, q));
  }

  // ---------- loading the compilation database ----------

  /** The nearest directory at or above start, below the root, that holds a project file. */
  function ProjectDirAbove(tree: Tree, start: AbsPath): (r: Option<AbsPath>)
    ensures r.Some? ==> r.value != [] && r.value <= start && tree.hasProjectFile(r.value)
    ensures start != [] && tree.hasProjectFile(start) ==> r == Some(start)
    decreases |start|
  {
    if start == [] then None
    else if tree.hasProjectFile(start) then Some(start)
    else ProjectDirAbove(tree, Parent(start))
  }

  /** A directory at or above start, below the root, that holds a project file. */
  predicate IsProjectAbove(tree: Tree, start: AbsPath, d: AbsPath) {
    d != [] && d <= start && tree.hasProjectFile(d)
  }

  lemma {:induction false} NoneAbove(tree: Tree, start: AbsPath, d: AbsPath)
    requires ProjectDirAbove(tree, start) == None
    ensures !IsProjectAbove(tree, start, d)
    decreases |start|
  {
    if start != [] && d != start {
      NoneAbove(tree, Parent(start), d);
      if d <= start {
        assert d == Parent(start)[..|d|];
      }
    }
  }

  /** None also when the directory to start from is not there, which throws. */
  function ProjectDir(tree: Tree, p: AbsPath): Option<AbsPath> {
    var start := DirOf(tree, p);
    if tree.isThere(start) then ProjectDirAbove(tree, start) else None
  }

  /** The path itself if it is a directory, else the directory that it is in. */
  function DirOf(tree: Tree, p: AbsPath): AbsPath {
    if tree.isDirectory(p) then p else Parent(p)
  }

  /** Nothing nearer holds a project file. */
  lemma {:induction false} ProjectDirIsNearest(tree: Tree, start: AbsPath, d: AbsPath)
    requires d != [] && d <= start && tree.hasProjectFile(d)
    ensures ProjectDirAbove(tree, start).Some? && d <= ProjectDirAbove(tree, start).value
  {
    if d != start {
      assert d <= Parent(start);
      ProjectDirIsNearest(tree, Parent(start), d);
    }
  }

  /** The project directory of a path: there is one if the directory to start from is there and some
      directory at or above it, below the root, holds a project file; and it is the nearest of those. */
  lemma ProjectDirExactly(tree: Tree, p: AbsPath, d: AbsPath)
    ensures var start := if tree.isDirectory(p) then p else Parent(p);
      && (ProjectDir(tree, p).Some? <==> tree.isThere(start) && exists e: AbsPath :: IsProjectAbove(tree, start, e))
      && (ProjectDir(tree, p) == Some(d) ==> IsProjectAbove(tree, start, d) && forall e: AbsPath | IsProjectAbove(tree, start, e) :: e <= d)
  {
    var start := if tree.isDirectory(p) then p else Parent(p);
    var r := ProjectDirAbove(tree, start);
    if r.Some? {
      assert IsProjectAbove(tree, start, r.value);
      forall e: AbsPath | IsProjectAbove(tree, start, e) ensures e <= r.value {
        ProjectDirIsNearest(tree, start, e);
      }
    } else {
      forall e: AbsPath ensures !IsProjectAbove(tree, start, e) {
        NoneAbove(tree, start, e);
      }
    }
  }

  predicate Skips(config: Config, cmd: Command) {
    config.excluded(cmd.file) || HasPrefix(cmd.file, config.build)
  }

  /** The home of the module that a command belongs to, unless loading it fails. */
  function CommandHome(config: Config, cmd: Command): (r: Option<AbsPath>) {
    var d := ProjectDir(config.tree, cmd.file);
    if d.Some? && HasPrefix(d.value, config.home) then d else None
  }

  /** The test that keeps a module's home inside the project is on the text: it also lets in a
      directory beside the project whose name continues the project's, and that is exactly when the
      module's name leaves the project. */
  lemma ModuleInsideExactly(config: Config, cmd: Command)
    requires CommandHome(config, cmd).Some?
    ensures var d := CommandHome(config, cmd).value;
      && (!(config.home <= d) <==> Continues(d, config.home) && d[|config.home| - 1] != config.home[|config.home| - 1])
      && (!(config.home <= d) <==> DirKey(config.home, d)[0] == "..")
  {
    hide HasPrefix, Relative;
    var d := CommandHome(config, cmd).value;
    HasPrefixExactly(d, config.home);
    RelativeLeavesBase(d, config.home);
  }

  /** Such a module: /a/bc passes for a project at /a/b, under the name ../bc. */
  lemma BesideProjectPasses(config: Config, file: string)
    requires IsName(file) && config.home == ["a", "b"] && config.tree.hasProjectFile(["a", "bc"])
    requires !config.tree.isDirectory(["a", "bc", file]) && config.tree.isThere(["a", "bc"])
    ensures var cmd := Command(["a", "bc", file], Some([]));
      CommandHome(config, cmd) == Some(["a", "bc"]) && DirKey(config.home, ["a", "bc"]) == ["..", "bc"]
  {
    var p: AbsPath := ["a", "bc", file];
    assert Parent(p) == ["a", "bc"];
    HasPrefixExactly(["a", "bc"], ["a", "b"]);
    assert ["a", "bc"][..1] == ["a", "b"][..1];
    assert "b" < "bc";
    assert Common(["bc"], ["b"]) == 0;
    assert Common(["a", "bc"], ["a", "b"]) == 1 + Common(["a", "bc"][1..], ["a", "b"][1..]);
    assert Ups(1) == [".."];
  }

  /** The command is the first of its module, so that its flags are edited and stored. */
  predicate NeedsFlags(c: Cache, config: Config, cmd: Command) {
    && !Skips(config, cmd) && CommandHome(config, cmd).Some?
    && RelativeText(DirKey(config.home, CommandHome(config, cmd).value)) !in c.flags
  }

  /** What a command owes the flag editor: nothing, when its flags are not edited. */
  predicate Parsable(c: Cache, config: Config, cmd: Command) {
    NeedsFlags(c, config, cmd) && cmd.flags.Some? ==> CompilerFlags.Editable(cmd.flags.value)
  }

  function FinalFlags(c: Cache, config: Config, cmd: Command): seq<string>
    requires Parsable(c, config, cmd)
  {
    if NeedsFlags(c, config, cmd) && cmd.flags.Some? then
      CompilerFlags.Pruned(cmd.flags.value, Text(cmd.file), config.isCpp) + config.systemFlags
    else []
  }

  /** The flags are wanted and the entry has none: it throws after both directories are mapped. */
  predicate LacksFlags(c: Cache, config: Config, cmd: Command) {
    NeedsFlags(c, config, cmd) && cmd.flags.None?
  }

  function WithModule(c: Cache, moduleHome: seq<string>, flags: seq<string>): Cache {
    var m := RelativeText(moduleHome);
    if m in c.flags then c else Cache(c.flags[m := flags], c.dirs[moduleHome := m])
  }

  datatype Outcome = Outcome(cache: Cache, thrown: bool)

  /** The maps after one command, and whether it throws. */
  function Parsed(c: Cache, config: Config, cmd: Command): Outcome
    requires Parsable(c, config, cmd)
  {
    if Skips(config, cmd) then Outcome(c, false)
    else if CommandHome(config, cmd).None? then Outcome(c, true)
    else
      var moduleHome := DirKey(config.home, CommandHome(config, cmd).value);
      var mapped := WithDir(c, config.home, Parent(cmd.file), RelativeText(moduleHome));
      if LacksFlags(c, config, cmd) then Outcome(mapped.(dirs := mapped.dirs[moduleHome := RelativeText(moduleHome)]), true)
      else Outcome(WithModule(mapped, moduleHome, FinalFlags(c, config, cmd)), false)
  }

  // ---------- what a command records ----------

  /** A file below the build directory, or excluded, is passed over; any other file without a project
      directory inside the project makes the command throw. */
  lemma PassedOverExactly(c: Cache, config: Config, cmd: Command)
    requires Parsable(c, config, cmd)
    ensures config.excluded(cmd.file) || Text(config.build) <= Text(cmd.file) ==> Parsed(c, config, cmd) == Outcome(c, false)
    ensures !config.excluded(cmd.file) && !(Text(config.build) <= Text(cmd.file)) ==>
      var d := ProjectDir(config.tree, cmd.file);
      if d == None || !(Text(config.home) <= Text(d.value)) then Parsed(c, config, cmd) == Outcome(c, true)
      else CommandHome(config, cmd) == d && DirKey(config.home, Parent(cmd.file)) in Parsed(c, config, cmd).cache.dirs
  {
    hide Text, Relative, RelativeText, Parsable, FinalFlags;
  }

  /** The file's directory joins the module of its project directory.  The first command of a module
      maps the module's home, and its edited flags with the system flags behind them become the
      module's, once and for all; nothing else changes. */
  lemma CommandRecords(c: Cache, config: Config, cmd: Command)
    requires Parsable(c, config, cmd) && !Skips(config, cmd) && CommandHome(config, cmd).Some?
    ensures var moduleHome, dir := DirKey(config.home, CommandHome(config, cmd).value), DirKey(config.home, Parent(cmd.file));
      var m, c' := RelativeText(moduleHome), Parsed(c, config, cmd).cache;
      && c'.dirs == (if m in c.flags then c.dirs[dir := m] else c.dirs[dir := m][moduleHome := m])
      && (m in c.flags || cmd.flags.None? ==> c'.flags == c.flags)
      && (m !in c.flags && cmd.flags.Some? ==>
            CompilerFlags.Editable(cmd.flags.value)
            && c'.flags == c.flags[m := CompilerFlags.Pruned(cmd.flags.value, Text(cmd.file), config.isCpp) + config.systemFlags])
      && (Parsed(c, config, cmd).thrown <==> m !in c.flags && cmd.flags.None?)
  {
    hide Relative, RelativeText, CommandHome, Skips, CompilerFlags.Pruned, CompilerFlags.Editable;
  }

  /** While one set of project files is in force, every module's home is the directory of one. */
  ghost predicate HomesHaveProjects(c: Cache, home: AbsPath, tree: Tree) {
    forall h | h in c.dirs && RelativeText(h) in c.flags :: Absolute(home, h) != [] && tree.hasProjectFile(Absolute(home, h))
  }

  ghost predicate Loading(c: Cache, config: Config) {
    Consistent(c, config.home) && HomesHaveProjects(c, config.home, config.tree)
  }

  /** The one kind of command that puts the maps out of step: its file is itself a directory that
      holds a project file, and its parent joins the module below it. */
  predicate FileIsProject(config: Config, cmd: Command) {
    && !Skips(config, cmd) && CommandHome(config, cmd).Some?
    && config.tree.isDirectory(cmd.file) && config.tree.hasProjectFile(cmd.file)
  }

  lemma CommandHomeAbove(config: Config, cmd: Command)
    requires !Skips(config, cmd) && CommandHome(config, cmd).Some?
    ensures CommandHome(config, cmd).value != [] && config.tree.hasProjectFile(CommandHome(config, cmd).value)
    ensures if FileIsProject(config, cmd) then CommandHome(config, cmd).value == cmd.file
            else CommandHome(config, cmd).value <= Parent(cmd.file)
    ensures !FileIsProject(config, cmd) && Parent(cmd.file) != [] && config.tree.hasProjectFile(Parent(cmd.file))
        ==> CommandHome(config, cmd).value == Parent(cmd.file)
  {
  }

  lemma ModuleKeeps(c: Cache, config: Config, path: AbsPath, flags: seq<string>)
    requires Loading(c, config) && path != [] && config.tree.hasProjectFile(path)
    ensures var c' := WithModule(c, DirKey(config.home, path), flags);
      Loading(c', config) && IsHome(c', DirKey(config.home, path))
  {
    hide Relative, Absolute, RelativeText, IsRelative, HomesMapped, HomesAbove, HomesHaveProjects;
    var r := DirKey(config.home, path);
    var m, c' := RelativeText(r), WithModule(c, r, flags);
    KeyProper(config.home, path);
    if m in c.flags {
      HomeOf(c, config.home, r);
    } else {
      ModuleKeepsHomes(c, r, flags);
      ModuleKeepsAbove(c, config, path, flags);
    }
  }

  lemma ModuleKeepsAbove(c: Cache, config: Config, path: AbsPath, flags: seq<string>)
    requires Loading(c, config) && path != [] && config.tree.hasProjectFile(path)
    requires RelativeText(DirKey(config.home, path)) !in c.flags
    ensures var c' := WithModule(c, DirKey(config.home, path), flags);
      HomesAbove(c', config.home) && HomesHaveProjects(c', config.home, config.tree)
  {
    hide Relative, Absolute, RelativeText, IsRelative, HomesMapped;
    var r := DirKey(config.home, path);
    var c' := WithModule(c, r, flags);
    KeyProper(config.home, path);
    forall h | h in c'.dirs && RelativeText(h) == RelativeText(r) ensures h == r {
      RelativeTextInjective(h, r);
    }
  }

  lemma ModuleKeepsHomes(c: Cache, r: seq<string>, flags: seq<string>)
    requires HomesMapped(c) && RelativeText(r) !in c.flags
    ensures HomesMapped(WithModule(c, r, flags))
  {
    hide RelativeText;
    var c' := WithModule(c, r, flags);
    assert IsHome(c', r);
    forall m | m in c'.flags ensures exists h :: IsHome(c', h) && RelativeText(h) == m {
      if m in c.flags {
        var h :| IsHome(c, h) && RelativeText(h) == m;
        assert IsHome(c', h);
      }
    }
  }

  /** The two map updates of a command may be made in either order. */
  lemma ModuleFirst(c: Cache, config: Config, cmd: Command)
    requires Parsable(c, config, cmd) && !Skips(config, cmd) && CommandHome(config, cmd).Some? && !LacksFlags(c, config, cmd)
    ensures var r := DirKey(config.home, CommandHome(config, cmd).value);
      Parsed(c, config, cmd)
        == Outcome(WithDir(WithModule(c, r, FinalFlags(c, config, cmd)), config.home, Parent(cmd.file), RelativeText(r)), false)
  {
    hide Relative, RelativeText, Parsable, FinalFlags, Skips, CommandHome, LacksFlags;
    var r, p := DirKey(config.home, CommandHome(config, cmd).value), DirKey(config.home, Parent(cmd.file));
    var m := RelativeText(r);
    assert c.dirs[p := m][r := m] == c.dirs[r := m][p := m];
  }

  lemma DirKeepsProjects(c: Cache, config: Config, path: AbsPath, moduleName: string)
    requires Loading(c, config)
    ensures HomesHaveProjects(WithDir(c, config.home, path, moduleName), config.home, config.tree)
  {
    hide Relative, Absolute, RelativeText, IsRelative;
    KeyProper(config.home, path);
    if RelativeText(DirKey(config.home, path)) in c.flags {
      HomeOf(c, config.home, DirKey(config.home, path));
    }
  }

  /** The two kinds of commands that put the maps out of step. */
  predicate Disturbs(c: Cache, config: Config, cmd: Command) {
    FileIsProject(config, cmd) || LacksFlags(c, config, cmd)
  }

  /** A command, even one that throws, leaves the maps in step exactly when its file is not a project
      directory and it has the flags that are wanted of it. */
  lemma ParseKeepsExactly(c: Cache, config: Config, cmd: Command)
    requires Loading(c, config) && Parsable(c, config, cmd)
    ensures Loading(Parsed(c, config, cmd).cache, config) <==> !Disturbs(c, config, cmd)
  {
    hide Relative, Absolute, RelativeText, IsRelative, Parsable, FinalFlags, CommandHome, HasPrefix, LacksFlags;
    if !Skips(config, cmd) && CommandHome(config, cmd).Some? {
      var d := CommandHome(config, cmd).value;
      var r, p := DirKey(config.home, d), DirKey(config.home, Parent(cmd.file));
      if LacksFlags(c, config, cmd) {
        HalfWritten(c, config, cmd);
      } else {
        var c1 := WithModule(c, r, FinalFlags(c, config, cmd));
        CommandHomeAbove(config, cmd);
        ModuleFirst(c, config, cmd);
        ModuleKeeps(c, config, d, FinalFlags(c, config, cmd));
        KeyProper(config.home, d);
        KeyProper(config.home, Parent(cmd.file));
        if FileIsProject(config, cmd) {
          OutOfStep(c1, config, cmd.file);
        } else {
          if RelativeText(p) in c1.flags {
            HomeOf(c1, config.home, p);
          }
          AddBelowHome(c1, config.home, Parent(cmd.file), r);
          DirKeepsProjects(c1, config, Parent(cmd.file), RelativeText(r));
        }
      }
    } else {
      NotWanted(c, config, cmd);
    }
  }

  lemma NotWanted(c: Cache, config: Config, cmd: Command)
    requires Skips(config, cmd) || CommandHome(config, cmd).None?
    ensures !Disturbs(c, config, cmd)
  {
  }

  /** Directories that name a module without flags. */
  lemma HalfWritten(c: Cache, config: Config, cmd: Command)
    requires Parsable(c, config, cmd) && LacksFlags(c, config, cmd)
    ensures !DirsHaveFlags(Parsed(c, config, cmd).cache) && Parsed(c, config, cmd).thrown
  {
    hide Relative, RelativeText, Skips, CommandHome, Parsable;
    var r := DirKey(config.home, CommandHome(config, cmd).value);
    assert r in Parsed(c, config, cmd).cache.dirs;
  }

  lemma OutOfStep(c: Cache, config: Config, file: AbsPath)
    requires file != [] && IsHome(c, DirKey(config.home, file))
    ensures !HomesAbove(WithDir(c, config.home, Parent(file), RelativeText(DirKey(config.home, file))), config.home)
  {
    hide Relative, Absolute, RelativeText, IsRelative;
    KeyProper(config.home, file);
    KeyProper(config.home, Parent(file));
    var c' := WithDir(c, config.home, Parent(file), RelativeText(DirKey(config.home, file)));
    assert DirKey(config.home, file) in c'.dirs && DirKey(config.home, Parent(file)) in c'.dirs;
  }

  /** The maps and source files after the commands; the first command that throws ends the load. */
  datatype Load = Load(cache: Cache, sources: set<AbsPath>, thrown: bool)

  /** Every command whose flags are edited on the way can be edited. */
  predicate Loadable(c: Cache, config: Config, commands: seq<Command>)
    decreases |commands|
  {
    if commands == [] then true
    else if config.excluded(commands[0].file) then Loadable(c, config, commands[1..])
    else
      && Parsable(c, config, commands[0])
      && var next := Parsed(c, config, commands[0]);
        !next.thrown ==> Loadable(next.cache, config, commands[1..])
  }

  function Loaded(c: Cache, sources: set<AbsPath>, config: Config, commands: seq<Command>): Load
    requires Loadable(c, config, commands)
    decreases |commands|
  {
    if commands == [] then Load(c, sources, false)
    else if config.excluded(commands[0].file) then Loaded(c, sources, config, commands[1..])
    else
      var next := Parsed(c, config, commands[0]);
      if next.thrown then Load(next.cache, sources + {commands[0].file}, true)
      else Loaded(next.cache, sources + {commands[0].file}, config, commands[1..])
  }

  /** No command that the load comes to disturbs the maps. */
  predicate Undisturbed(c: Cache, config: Config, commands: seq<Command>)
    requires Loadable(c, config, commands)
    decreases |commands|
  {
    if commands == [] then true
    else if config.excluded(commands[0].file) then Undisturbed(c, config, commands[1..])
    else
      && !Disturbs(c, config, commands[0])
      && var next := Parsed(c, config, commands[0]);
        !next.thrown ==> Undisturbed(next.cache, config, commands[1..])
  }

  /** The maps are in step before and after every command. */
  ghost predicate LoadingThroughout(c: Cache, config: Config, commands: seq<Command>)
    requires Loadable(c, config, commands)
    decreases |commands|
  {
    Loading(c, config) &&
    if commands == [] then true
    else if config.excluded(commands[0].file) then LoadingThroughout(c, config, commands[1..])
    else
      var next := Parsed(c, config, commands[0]);
      if next.thrown then Loading(next.cache, config) else LoadingThroughout(next.cache, config, commands[1..])
  }

  /** The maps are in step throughout a load, even one that throws half way, if and only if no
      command disturbs them. */
  lemma {:induction false} LoadKeepsExactly(c: Cache, config: Config, commands: seq<Command>)
    requires Loading(c, config) && Loadable(c, config, commands)
    ensures LoadingThroughout(c, config, commands) <==> Undisturbed(c, config, commands)
    decreases |commands|
  {
    hide Loading, Parsed, Parsable, Disturbs;
    if commands == [] {
    } else if config.excluded(commands[0].file) {
      LoadKeepsExactly(c, config, commands[1..]);
    } else {
      var next := Parsed(c, config, commands[0]);
      ParseKeepsExactly(c, config, commands[0]);
      if !next.thrown {
        if Loading(next.cache, config) {
          LoadKeepsExactly(next.cache, config, commands[1..]);
        } else {
          LoadingNow(next.cache, config, commands[1..]);
        }
      }
    }
  }

  lemma LoadingNow(c: Cache, config: Config, commands: seq<Command>)
    requires Loadable(c, config, commands)
    ensures LoadingThroughout(c, config, commands) ==> Loading(c, config)
  {
  }

  // ---------- the maps at the end of a load ----------

  /** Where a load has gone astray so far: the directories last mapped by a command whose file is a
      project directory.  Such a directory comes right again when a file in it is mapped, or when
      the module whose home it is gets its flags. */
  function Strays(c: Cache, config: Config, cmd: Command, before: set<seq<string>>): set<seq<string>> {
    if Skips(config, cmd) || CommandHome(config, cmd).None? then before
    else
      var r, p := DirKey(config.home, CommandHome(config, cmd).value), DirKey(config.home, Parent(cmd.file));
      (if FileIsProject(config, cmd) then before + {p} else before - {p}) - (if RelativeText(r) in c.flags then {} else {r})
  }

  /** The load ends with no directory astray and with no half-written module. */
  predicate EndsInStep(c: Cache, config: Config, commands: seq<Command>, strays: set<seq<string>>)
    requires Loadable(c, config, commands)
    decreases |commands|
  {
    if commands == [] then strays == {}
    else if config.excluded(commands[0].file) then EndsInStep(c, config, commands[1..], strays)
    else
      var next := Parsed(c, config, commands[0]);
      if next.thrown then strays == {} && !LacksFlags(c, config, commands[0])
      else EndsInStep(next.cache, config, commands[1..], Strays(c, config, commands[0], strays))
  }

  /** The key of a module's home is there, and maps to the module unless it is astray. */
  ghost predicate HomeTraced(c: Cache, config: Config, strays: set<seq<string>>, h: seq<string>) {
    && h in c.dirs && Absolute(config.home, h) != [] && config.tree.hasProjectFile(Absolute(config.home, h))
    && (h !in strays ==> c.dirs[h] == RelativeText(h))
  }

  ghost predicate HomesTraced(c: Cache, config: Config, strays: set<seq<string>>) {
    forall m | m in c.flags :: exists h :: HomeTraced(c, config, strays, h) && RelativeText(h) == m
  }

  /** A directory is below the home of its module exactly when it is not astray. */
  ghost predicate DirsTraced(c: Cache, home: AbsPath, strays: set<seq<string>>) {
    && strays <= c.dirs.Keys
    && forall d, h | d in c.dirs && h in c.dirs && RelativeText(h) == c.dirs[d] ::
        Absolute(home, h) <= Absolute(home, d) <==> d !in strays
  }

  ghost predicate Traced(c: Cache, config: Config, strays: set<seq<string>>) {
    && KeysProper(c, config.home) && DirsHaveFlags(c)
    && HomesTraced(c, config, strays) && DirsTraced(c, config.home, strays)
  }

  lemma TracedHome(c: Cache, config: Config, strays: set<seq<string>>, r: seq<string>)
    requires KeysProper(c, config.home) && HomesTraced(c, config, strays) && IsRelative(r) && RelativeText(r) in c.flags
    ensures HomeTraced(c, config, strays, r)
  {
    hide Relative, Absolute, RelativeText, IsRelative;
    var h :| HomeTraced(c, config, strays, h) && RelativeText(h) == RelativeText(r);
    RelativeTextInjective(h, r);
  }

  /** A home stays traced as long as its entry stays, or becomes right. */
  lemma StillTraced(c: Cache, config: Config, before: set<seq<string>>, h: seq<string>, c': Cache, after: set<seq<string>>)
    requires HomeTraced(c, config, before, h) && h in c'.dirs
    requires (c'.dirs[h] == c.dirs[h] && (h in before ==> h in after)) || c'.dirs[h] == RelativeText(h) || h in after
    ensures HomeTraced(c', config, after, h)
  {
    hide Relative, Absolute, RelativeText;
  }

  lemma TracedConsistent(c: Cache, config: Config, strays: set<seq<string>>)
    requires Traced(c, config, strays)
    ensures Consistent(c, config.home) <==> strays == {}
  {
    hide KeysProper, DirsHaveFlags, HomesMapped, HomesAbove, HomesTraced, DirsTraced;
    if strays == {} {
      TracedHomesMapped(c, config);
      TracedHomesAbove(c, config.home);
    } else {
      var d :| d in strays;
      StrayBreaks(c, config, strays, d);
    }
  }

  lemma TracedHomesAbove(c: Cache, home: AbsPath)
    requires DirsTraced(c, home, {})
    ensures HomesAbove(c, home)
  {
    hide Absolute, RelativeText;
  }

  lemma StrayBreaks(c: Cache, config: Config, strays: set<seq<string>>, d: seq<string>)
    requires DirsHaveFlags(c) && HomesTraced(c, config, strays) && DirsTraced(c, config.home, strays) && d in strays
    ensures !HomesAbove(c, config.home)
  {
    hide Absolute, RelativeText;
    assert d in c.dirs && c.dirs[d] in c.flags;
    var h :| HomeTraced(c, config, strays, h) && RelativeText(h) == c.dirs[d];
    assert h in c.dirs && !(Absolute(config.home, h) <= Absolute(config.home, d));
  }

  lemma TracedHomesMapped(c: Cache, config: Config)
    requires HomesTraced(c, config, {})
    ensures HomesMapped(c)
  {
    hide Absolute, RelativeText;
    forall m | m in c.flags ensures exists h :: IsHome(c, h) && RelativeText(h) == m {
      var h :| HomeTraced(c, config, {}, h) && RelativeText(h) == m;
      assert IsHome(c, h);
    }
  }

  lemma ModuleTraced(c: Cache, config: Config, strays: set<seq<string>>, path: AbsPath, flags: seq<string>)
    requires Traced(c, config, strays) && path != [] && config.tree.hasProjectFile(path)
    ensures var r := DirKey(config.home, path);
      var c' := WithModule(c, r, flags);
      && r in c'.dirs && RelativeText(r) in c'.flags
      && Traced(c', config, strays - (if RelativeText(r) in c.flags then {} else {r}))
  {
    hide Relative, Absolute, RelativeText, IsRelative, HomesTraced, DirsTraced;
    var r := DirKey(config.home, path);
    KeyProper(config.home, path);
    if RelativeText(r) in c.flags {
      TracedHome(c, config, strays, r);
      assert strays - {} == strays;
    } else {
      ModuleHomesTraced(c, config, strays, path, flags);
      ModuleDirsTraced(c, config, strays, path, flags);
    }
  }

  lemma ModuleHomesTraced(c: Cache, config: Config, strays: set<seq<string>>, path: AbsPath, flags: seq<string>)
    requires Traced(c, config, strays) && path != [] && config.tree.hasProjectFile(path)
    requires RelativeText(DirKey(config.home, path)) !in c.flags
    ensures var r := DirKey(config.home, path); HomesTraced(WithModule(c, r, flags), config, strays - {r})
  {
    hide Relative, Absolute, RelativeText, IsRelative, KeysProper, DirsHaveFlags, DirsTraced;
    var r := DirKey(config.home, path);
    var c' := WithModule(c, r, flags);
    KeyProper(config.home, path);
    assert HomeTraced(c', config, strays - {r}, r);
    hide DirKey;
    forall m | m in c'.flags ensures exists h :: HomeTraced(c', config, strays - {r}, h) && RelativeText(h) == m {
      if m in c.flags {
        var h :| HomeTraced(c, config, strays, h) && RelativeText(h) == m;
        StillTraced(c, config, strays, h, c', strays - {r});
      }
    }
  }

  lemma ModuleDirsTraced(c: Cache, config: Config, strays: set<seq<string>>, path: AbsPath, flags: seq<string>)
    requires Traced(c, config, strays)
    requires RelativeText(DirKey(config.home, path)) !in c.flags
    ensures var r := DirKey(config.home, path); DirsTraced(WithModule(c, r, flags), config.home, strays - {r})
  {
    hide Relative, Absolute, RelativeText, IsRelative, HomesTraced;
    var r := DirKey(config.home, path);
    var c' := WithModule(c, r, flags);
    KeyProper(config.home, path);
    forall d, h | d in c'.dirs && h in c'.dirs && RelativeText(h) == c'.dirs[d]
      ensures Absolute(config.home, h) <= Absolute(config.home, d) <==> d !in strays - {r}
    {
      if d == r {
        RelativeTextInjective(h, r);
      }
    }
  }

  /** The directory of a command joins the module at r; it is astray exactly when it is not below. */
  lemma DirTraced(c: Cache, config: Config, strays: set<seq<string>>, path: AbsPath, r: seq<string>, after: set<seq<string>>)
    requires Traced(c, config, strays) && r in c.dirs && RelativeText(r) in c.flags
    requires var p, below := DirKey(config.home, path), Absolute(config.home, r) <= path;
      && after == (if below then strays - {p} else strays + {p})
      && (below && path != [] && config.tree.hasProjectFile(path) ==> p == r)
    ensures Traced(WithDir(c, config.home, path, RelativeText(r)), config, after)
  {
    hide Relative, Absolute, RelativeText, IsRelative, HomesTraced, DirsTraced;
    KeyProper(config.home, path);
    DirHomesTraced(c, config, strays, path, r, after);
    DirDirsTraced(c, config, strays, path, r, after);
  }

  lemma DirHomesTraced(c: Cache, config: Config, strays: set<seq<string>>, path: AbsPath, r: seq<string>, after: set<seq<string>>)
    requires HomesTraced(c, config, strays)
    requires var p, below := DirKey(config.home, path), Absolute(config.home, r) <= path;
      && after == (if below then strays - {p} else strays + {p})
      && (below && path != [] && config.tree.hasProjectFile(path) ==> p == r)
    ensures HomesTraced(WithDir(c, config.home, path, RelativeText(r)), config, after)
  {
    hide Relative, Absolute, RelativeText, IsRelative;
    var p := DirKey(config.home, path);
    var c' := WithDir(c, config.home, path, RelativeText(r));
    KeyProper(config.home, path);
    forall n | n in c'.flags ensures exists h :: HomeTraced(c', config, after, h) && RelativeText(h) == n {
      var h :| HomeTraced(c, config, strays, h) && RelativeText(h) == n;
      if h == p && p !in after {
        assert path != [] && config.tree.hasProjectFile(path);
      }
      StillTraced(c, config, strays, h, c', after);
    }
  }

  lemma DirDirsTraced(c: Cache, config: Config, strays: set<seq<string>>, path: AbsPath, r: seq<string>, after: set<seq<string>>)
    requires Traced(c, config, strays) && r in c.dirs && RelativeText(r) in c.flags
    requires var p, below := DirKey(config.home, path), Absolute(config.home, r) <= path;
      after == (if below then strays - {p} else strays + {p})
    ensures DirsTraced(WithDir(c, config.home, path, RelativeText(r)), config.home, after)
  {
    hide Relative, Absolute, RelativeText, IsRelative, HomesTraced;
    var p := DirKey(config.home, path);
    var c' := WithDir(c, config.home, path, RelativeText(r));
    KeyProper(config.home, path);
    assert Absolute(config.home, p) == path && IsRelative(p);
    hide DirKey;
    forall d, h | d in c'.dirs && h in c'.dirs && RelativeText(h) == c'.dirs[d]
      ensures Absolute(config.home, h) <= Absolute(config.home, d) <==> d !in after
    {
      if d == p {
        assert IsRelative(h) && IsRelative(r);
        RelativeTextInjective(h, r);
      } else {
        if h == p {
          TracedHome(c, config, strays, p);
        }
        assert h in c.dirs && c.dirs[d] == c'.dirs[d];
      }
    }
  }

  lemma CommandTraced(c: Cache, config: Config, cmd: Command, strays: set<seq<string>>)
    requires Traced(c, config, strays) && Parsable(c, config, cmd) && !Parsed(c, config, cmd).thrown
    ensures Traced(Parsed(c, config, cmd).cache, config, Strays(c, config, cmd, strays))
  {
    hide Traced, Relative, Absolute, RelativeText, IsRelative, Parsable, FinalFlags, CommandHome, HasPrefix, LacksFlags, FileIsProject;
    if !Skips(config, cmd) {
      var d := CommandHome(config, cmd).value;
      var r, p := DirKey(config.home, d), DirKey(config.home, Parent(cmd.file));
      var c1 := WithModule(c, r, FinalFlags(c, config, cmd));
      var kept := strays - (if RelativeText(r) in c.flags then {} else {r});
      CommandHomeAbove(config, cmd);
      ModuleFirst(c, config, cmd);
      ModuleTraced(c, config, strays, d, FinalFlags(c, config, cmd));
      KeyProper(config.home, d);
      KeyProper(config.home, Parent(cmd.file));
      var after := if FileIsProject(config, cmd) then kept + {p} else kept - {p};
      DirTraced(c1, config, kept, Parent(cmd.file), r, after);
      assert Strays(c, config, cmd, strays) == after;
    }
  }

  /** After a load the maps are in step if and only if no directory is left astray and the load did
      not end in a module that lacks its flags. */
  lemma {:induction false} LoadEndsExactly(c: Cache, sources: set<AbsPath>, config: Config, commands: seq<Command>, strays: set<seq<string>>)
    requires Traced(c, config, strays) && Loadable(c, config, commands)
    ensures Consistent(Loaded(c, sources, config, commands).cache, config.home) <==> EndsInStep(c, config, commands, strays)
    decreases |commands|
  {
    hide Traced, Consistent, Parsed, Parsable, LacksFlags, Strays;
    if commands == [] {
      TracedConsistent(c, config, strays);
    } else if config.excluded(commands[0].file) {
      LoadEndsExactly(c, sources, config, commands[1..], strays);
    } else {
      var next := Parsed(c, config, commands[0]);
      if next.thrown {
        TracedConsistent(c, config, strays);
        ThrownLeaves(c, config, commands[0]);
      } else {
        CommandTraced(c, config, commands[0], strays);
        LoadEndsExactly(next.cache, sources + {commands[0].file}, config, commands[1..], Strays(c, config, commands[0], strays));
      }
    }
  }

  /** A load that is never disturbed ends in step; the converse fails. */
  lemma {:induction false} UndisturbedEnds(c: Cache, config: Config, commands: seq<Command>)
    requires Loadable(c, config, commands) && Undisturbed(c, config, commands)
    ensures EndsInStep(c, config, commands, {})
    decreases |commands|
  {
    hide Parsed, Parsable, LacksFlags, FileIsProject, Skips, CommandHome, Relative, RelativeText;
    if commands == [] {
    } else if config.excluded(commands[0].file) {
      UndisturbedEnds(c, config, commands[1..]);
    } else {
      var next := Parsed(c, config, commands[0]);
      if !next.thrown {
        UndisturbedEnds(next.cache, config, commands[1..]);
        assert Strays(c, config, commands[0], {}) == {};
      }
    }
  }

  lemma ThrownLeaves(c: Cache, config: Config, cmd: Command)
    requires Parsable(c, config, cmd) && Parsed(c, config, cmd).thrown
    ensures if LacksFlags(c, config, cmd) then !Consistent(Parsed(c, config, cmd).cache, config.home)
            else Parsed(c, config, cmd).cache == c
  {
    hide Relative, RelativeText, Parsable, CommandHome, Skips;
    if LacksFlags(c, config, cmd) {
      HalfWritten(c, config, cmd);
    }
  }

  lemma EmptyTraced(config: Config)
    ensures Traced(EMPTY, config, {})
  {
  }

  /** The command is one of module m. */
  predicate Names(config: Config, cmd: Command, m: string) {
    !Skips(config, cmd) && CommandHome(config, cmd).Some? && RelativeText(DirKey(config.home, CommandHome(config, cmd).value)) == m
  }

  predicate FirstOf(config: Config, commands: seq<Command>, m: string, i: int) {
    0 <= i < |commands| && Names(config, commands[i], m) && forall j | 0 <= j < i :: !Names(config, commands[j], m)
  }

  /** The flags that a load gives to a module are the edited flags of the first command of it. */
  lemma {:induction false} FlagsOfFirstCommand(c: Cache, sources: set<AbsPath>, config: Config, commands: seq<Command>, m: string)
    requires Loadable(c, config, commands) && m in Loaded(c, sources, config, commands).cache.flags
    ensures var flags := Loaded(c, sources, config, commands).cache.flags[m];
      if m in c.flags then flags == c.flags[m]
      else
        exists i ::
          && FirstOf(config, commands, m, i) && commands[i].flags.Some? && CompilerFlags.Editable(commands[i].flags.value)
          && flags == CompilerFlags.Pruned(commands[i].flags.value, Text(commands[i].file), config.isCpp) + config.systemFlags
    decreases |commands|
  {
    hide Relative, RelativeText, Parsed, Parsable, CommandHome, CompilerFlags.Pruned, CompilerFlags.Editable, HasPrefix;
    if commands != [] {
      var cmd, rest := commands[0], commands[1..];
      if config.excluded(cmd.file) {
        FlagsOfFirstCommand(c, sources, config, rest, m);
        NextFirst(config, commands, m);
      } else {
        var next := Parsed(c, config, cmd);
        FlagsOfOne(c, config, cmd, m);
        if !next.thrown {
          FlagsOfFirstCommand(next.cache, sources + {cmd.file}, config, rest, m);
        }
        if m !in c.flags {
          if m in next.cache.flags {
            assert FirstOf(config, commands, m, 0);
          } else {
            NextFirst(config, commands, m);
          }
        }
      }
    }
  }

  lemma FlagsOfOne(c: Cache, config: Config, cmd: Command, m: string)
    requires Parsable(c, config, cmd)
    ensures var next := Parsed(c, config, cmd);
      && (m in c.flags ==> m in next.cache.flags && next.cache.flags[m] == c.flags[m])
      && (m !in c.flags && Names(config, cmd, m) && !next.thrown ==> m in next.cache.flags)
      && (m !in c.flags && m in next.cache.flags ==>
            Names(config, cmd, m) && cmd.flags.Some? && CompilerFlags.Editable(cmd.flags.value)
            && next.cache.flags[m] == CompilerFlags.Pruned(cmd.flags.value, Text(cmd.file), config.isCpp) + config.systemFlags)
  {
    hide Relative, RelativeText, CommandHome, Skips, CompilerFlags.Pruned, CompilerFlags.Editable, Parsable;
    if !Skips(config, cmd) && CommandHome(config, cmd).Some? {
      CommandRecords(c, config, cmd);
    } else {
      assert Parsed(c, config, cmd).cache == c;
    }
  }

  lemma NextFirst(config: Config, commands: seq<Command>, m: string)
    requires commands != [] && !Names(config, commands[0], m)
    ensures forall i | FirstOf(config, commands[1..], m, i) :: FirstOf(config, commands, m, i + 1) && commands[1..][i] == commands[i + 1]
  {
    hide Names;
    forall i | FirstOf(config, commands[1..], m, i) ensures FirstOf(config, commands, m, i + 1) {
      forall j | 0 <= j < i + 1 ensures !Names(config, commands[j], m) {
        assert j > 0 ==> commands[j] == commands[1..][j - 1];
      }
    }
  }

  /** How many commands the load comes to, the one that throws included. */
  function Reached(c: Cache, config: Config, commands: seq<Command>): (n: nat)
    requires Loadable(c, config, commands)
    ensures n <= |commands|
    decreases |commands|
  {
    if commands == [] then 0
    else if config.excluded(commands[0].file) then 1 + Reached(c, config, commands[1..])
    else
      var next := Parsed(c, config, commands[0]);
      if next.thrown then 1 else 1 + Reached(next.cache, config, commands[1..])
  }

  predicate FoundAt(config: Config, commands: seq<Command>, p: AbsPath, i: int) {
    0 <= i < |commands| && commands[i].file == p && !config.excluded(p)
  }

  /** A load finds exactly the files of the commands that it comes to and that are not excluded: of all
      commands when it does not throw, and else up to and including the one that throws. */
  lemma {:induction false} LoadFindsSources(c: Cache, sources: set<AbsPath>, config: Config, commands: seq<Command>, p: AbsPath)
    requires Loadable(c, config, commands)
    ensures p in Loaded(c, sources, config, commands).sources
       <==> p in sources || exists i | 0 <= i < Reached(c, config, commands) :: FoundAt(config, commands, p, i)
    ensures !Loaded(c, sources, config, commands).thrown ==> Reached(c, config, commands) == |commands|
    decreases |commands|
  {
    hide Parsed, Parsable;
    if commands != [] {
      var rest, found := commands[1..], sources + {commands[0].file};
      forall i ensures FoundAt(config, commands, p, i) <==>
        FoundAt(config, rest, p, i - 1) || (i == 0 && commands[0].file == p && !config.excluded(p))
      {
      }
      if config.excluded(commands[0].file) {
        LoadFindsSources(c, sources, config, rest, p);
        FoundLater(config, commands, p, Reached(c, config, rest));
      } else {
        var next := Parsed(c, config, commands[0]);
        if !next.thrown {
          LoadFindsSources(next.cache, found, config, rest, p);
          FoundLater(config, commands, p, Reached(next.cache, config, rest));
        } else {
          FoundLater(config, commands, p, 0);
        }
      }
    }
  }

  lemma FoundLater(config: Config, commands: seq<Command>, p: AbsPath, n: nat)
    requires commands != []
    ensures (exists i | 0 <= i < 1 + n :: FoundAt(config, commands, p, i))
       <==> (exists i | 0 <= i < n :: FoundAt(config, commands[1..], p, i)) || FoundAt(config, commands, p, 0)
  {
    if i :| 0 <= i < n && FoundAt(config, commands[1..], p, i) {
      assert FoundAt(config, commands, p, i + 1);
    }
    if i :| 0 < i < 1 + n && FoundAt(config, commands, p, i) {
      assert FoundAt(config, commands[1..], p, i - 1);
    }
  }

  // ---------- runs ----------

  /** Where the commands come from: the compilation database, whose entries all have their flags, or,
      when it cannot be opened, the JSON file, which may be missing as well.  A JSON file that does
      not parse, or an entry that names no file, ends the load there and changes nothing more: it
      is the list up to that entry. */
  datatype Database =
    | FromClang(commands: seq<Command>)
    | FromJson(commands: seq<Command>)
    | NoCommands

  /** A reload (configured is false when the build system fails first), or a directory event. */
  datatype Event =
    | Rebuilt(config: Config, sources: set<AbsPath>, database: Database, configured: bool)
    | Created(path: AbsPath)
    | Deleted(path: AbsPath)

  /** The reload goes on to read commands. */
  predicate ReadsCommands(e: Event) {
    e.Rebuilt? && e.configured && !e.database.NoCommands?
  }

  /** What the source asks of the event: commands that it can edit, a mapped parent directory. */
  predicate Allowed(c: Cache, home: AbsPath, e: Event) {
    && (e.Rebuilt? ==> e.config.home == home)
    && (ReadsCommands(e) ==> Loadable(EMPTY, e.config, e.database.commands))
    && (e.Created? ==> DirKey(home, Parent(e.path)) in c.dirs)
  }

  function After(c: Cache, home: AbsPath, e: Event): Cache
    requires Allowed(c, home, e)
  {
    match e
    case Rebuilt(config, sources, database, configured) =>
      if !configured then c
      else if database.NoCommands? then EMPTY
      else Loaded(EMPTY, sources, config, database.commands).cache
    case Created(path) => WithDir(c, home, path, c.dirs[DirKey(home, Parent(path))])
    case Deleted(path) => WithoutDir(c, home, path)
  }

  /** A reload ends in step, and no new directory is the home of a module other than its parent's. */
  predicate Harmless(c: Cache, home: AbsPath, e: Event)
    requires Allowed(c, home, e)
  {
    && (ReadsCommands(e) ==> EndsInStep(EMPTY, e.config, e.database.commands, {}))
    && (e.Created? ==> !TakesHome(c, home, e.path, c.dirs[DirKey(home, Parent(e.path))]))
  }

  lemma EventKeepsExactly(c: Cache, home: AbsPath, e: Event)
    requires Consistent(c, home) && Allowed(c, home, e)
    ensures Consistent(After(c, home, e), home) <==> Harmless(c, home, e)
  {
    hide KeysProper, DirsHaveFlags, HomesMapped, HomesAbove, TakesHome, Loaded, Loadable, EndsInStep, Traced;
    match e
    case Rebuilt(config, sources, database, configured) =>
      EmptyTraced(config);
      TracedConsistent(EMPTY, config, {});
      if ReadsCommands(e) {
        LoadEndsExactly(EMPTY, sources, config, database.commands, {});
      }
    case Created(path) => AddKeepsExactly(c, home, path, c.dirs[DirKey(home, Parent(path))]);
    case Deleted(path) => RemoveKeeps(c, home, path);
  }

  /** Running the events one after the other takes c to last. */
  ghost predicate Runs(c: Cache, home: AbsPath, events: seq<Event>, last: Cache)
    decreases |events|
  {
    if events == [] then last == c
    else Allowed(c, home, events[0]) && Runs(After(c, home, events[0]), home, events[1..], last)
  }

  ghost predicate HarmlessThroughout(c: Cache, home: AbsPath, events: seq<Event>)
    decreases |events|
  {
    events != [] ==>
      && Allowed(c, home, events[0]) && Harmless(c, home, events[0])
      && HarmlessThroughout(After(c, home, events[0]), home, events[1..])
  }

  ghost predicate InStepThroughout(c: Cache, home: AbsPath, events: seq<Event>)
    decreases |events|
  {
    Consistent(c, home) && (events != [] ==>
      Allowed(c, home, events[0]) && InStepThroughout(After(c, home, events[0]), home, events[1..]))
  }

  lemma InStepNow(c: Cache, home: AbsPath, events: seq<Event>)
    ensures InStepThroughout(c, home, events) ==> Consistent(c, home)
  {
  }

  /** Over any run of reloads, directory adds and directory removes the two maps are in step after
      every event if and only if every event is harmless. */
  lemma {:induction false} RunsKeepExactly(c: Cache, home: AbsPath, events: seq<Event>, last: Cache)
    requires Consistent(c, home) && Runs(c, home, events, last)
    ensures InStepThroughout(c, home, events) <==> HarmlessThroughout(c, home, events)
    decreases |events|
  {
    hide Consistent, Allowed, After, Harmless;
    if events != [] {
      var next := After(c, home, events[0]);
      EventKeepsExactly(c, home, events[0]);
      if Consistent(next, home) {
        RunsKeepExactly(next, home, events[1..], last);
      } else {
        InStepNow(next, home, events[1..]);
      }
    }
  }

  lemma {:induction false} RunsKeep(c: Cache, home: AbsPath, events: seq<Event>, last: Cache)
    requires Consistent(c, home) && Runs(c, home, events, last) && HarmlessThroughout(c, home, events)
    ensures Consistent(last, home)
    decreases |events|
  {
    hide Consistent, Allowed, After, Harmless;
    if events != [] {
      EventKeepsExactly(c, home, events[0]);
      RunsKeep(After(c, home, events[0]), home, events[1..], last);
    }
  }

  /** A directory that is not in the map takes nobody's home, so adding one is always allowed. */
  lemma UnmappedTakesNoHome(c: Cache, home: AbsPath, path: AbsPath, moduleName: string)
    requires Consistent(c, home) && DirKey(home, path) !in c.dirs
    ensures !TakesHome(c, home, path, moduleName)
  {
    hide Relative, Absolute, RelativeText, IsRelative;
    KeyProper(home, path);
    if RelativeText(DirKey(home, path)) in c.flags {
      HomeOf(c, home, DirKey(home, path));
      assert false;
    }
  }

  // ---------- lookups ----------

  datatype AnyPath = Absolutely(p: AbsPath) | Relatively(r: seq<string>)

  function Resolved(home: AbsPath, path: AnyPath): AbsPath {
    match path
    case Absolutely(p) => p
    case Relatively(r) => Absolute(home, r)
  }

  function FileFlags(c: Cache, home: AbsPath, tree: Tree, p: AbsPath): Option<seq<string>> {
    var d := DirKey(home, DirOf(tree, p));
    if d in c.dirs && c.dirs[d] != "" && c.dirs[d] in c.flags then Some(c.flags[c.dirs[d]]) else None
  }

  lemma NamesNotEmpty(r: seq<string>)
    requires IsRelative(r)
    ensures RelativeText(r) != ""
  {
  }

  /** After any harmless run, flags are found for exactly the paths in mapped directories, and they are the
      flags of a module whose home is at or above the directory. */
  lemma FlagsExactlyWhereMapped(home: AbsPath, events: seq<Event>, c: Cache, tree: Tree, p: AbsPath)
    requires Runs(EMPTY, home, events, c) && HarmlessThroughout(EMPTY, home, events)
    ensures FileFlags(c, home, tree, p).Some? <==> DirKey(home, DirOf(tree, p)) in c.dirs
    ensures FileFlags(c, home, tree, p).Some? ==>
      exists h: AbsPath :: h <= DirOf(tree, p) && RelativeText(DirKey(home, h)) in c.flags
        && FileFlags(c, home, tree, p).value == c.flags[RelativeText(DirKey(home, h))]
        && DirKey(home, h) in c.dirs && c.dirs[DirKey(home, h)] == RelativeText(DirKey(home, h))
  {
    hide Relative, Absolute, RelativeText, IsRelative, Runs, HarmlessThroughout;
    assert Consistent(EMPTY, home);
    RunsKeep(EMPTY, home, events, c);
    var d := DirKey(home, DirOf(tree, p));
    KeyProper(home, DirOf(tree, p));
    if d in c.dirs {
      var g :| IsHome(c, g) && RelativeText(g) == c.dirs[d];
      NamesNotEmpty(g);
      var h := Absolute(home, g);
      assert DirKey(home, h) == g && h <= DirOf(tree, p);
    }
  }

  // ---------- the cache ----------

  class CompilerFlagCache {
    const home: AbsPath
    var moduleFlags: map<string, seq<string>>
    var relDirModule: map<seq<string>, string>

    constructor (home: AbsPath)
      ensures this.home == home && Value() == EMPTY
    {
      this.home := home;
      moduleFlags := map[];
      relDirModule := map[];
    }

    function Value(): Cache
      reads this
    {
      Cache(moduleFlags, relDirModule)
    }

    static method GetProjectDir(tree: Tree, p: AbsPath) returns (r: Option<AbsPath>)
      ensures r == ProjectDir(tree, p)
    {
      var dir: AbsPath := if tree.isDirectory(p) then p else Parent(p);
      if !tree.isThere(dir) {
        return None;
      }
      while dir != []
        invariant ProjectDirAbove(tree, dir) == ProjectDir(tree, p)
        decreases |dir|
      {
        if tree.hasProjectFile(dir) {
          return Some(dir);
        }
        dir := Parent(dir);
      }
      return None;
    }

    method ParseFileCommand(config: Config, cmd: Command) returns (ok: bool)
      requires config.home == home && Parsable(Value(), config, cmd)
      modifies this
      ensures Outcome(Value(), !ok) == Parsed(old(Value()), config, cmd)
    {
      hide Relative, RelativeText, CompilerFlags.Pruned, CompilerFlags.Editable, HasPrefix;
      if config.excluded(cmd.file) {
        return true;
      }
      if HasPrefix(cmd.file, config.build) {
        return true;
      }
      var subprojectDir := GetProjectDir(config.tree, cmd.file);
      if subprojectDir.None? {
        return false;
      }
      if !HasPrefix(subprojectDir.value, home) {
        return false;
      }
      var moduleHome := Relative(subprojectDir.value, home);
      var moduleName := RelativeText(moduleHome);
      var relativeDir := Relative(Parent(cmd.file), home);
      relDirModule := relDirModule[relativeDir := moduleName];
      if moduleName in moduleFlags {
        return true;
      }
      relDirModule := relDirModule[moduleHome := moduleName];
      if cmd.flags.None? {
        return false;
      }
      var list := new CompilerFlags.FlagList(cmd.flags.value);
      list.PruneCompilerFlags(Text(cmd.file), config.isCpp);
      var finalFlags := list.flags + config.systemFlags;
      moduleFlags := moduleFlags[moduleName := finalFlags];
      ok := true;
    }

    /** The loop over the commands, which both ways of loading share. */
    method LoadCommands(config: Config, commands: seq<Command>, sources: set<AbsPath>)
      returns (ok: bool, found: set<AbsPath>)
      requires config.home == home && Loadable(Value(), config, commands)
      modifies this
      ensures Load(Value(), found, !ok) == Loaded(old(Value()), sources, config, commands)
    {
      hide Parsed, Parsable;
      found := sources;
      var i := 0;
      while i < |commands|
        invariant 0 <= i <= |commands| && Loadable(Value(), config, commands[i..])
        invariant Loaded(Value(), found, config, commands[i..]) == Loaded(old(Value()), sources, config, commands)
      {
        assert commands[i..][0] == commands[i] && commands[i..][1..] == commands[i + 1..];
        if !config.excluded(commands[i].file) {
          found := found + {commands[i].file};
          ok := ParseFileCommand(config, commands[i]);
          if !ok {
            return;
          }
        }
        i := i + 1;
      }
      ok := true;
    }

    /** Clear and load both maps; ok is false when it throws.  While the JSON file is read, what a
        command throws ends the load but is swallowed. */
    method Rebuild(config: Config, database: Database, configured: bool, sources: set<AbsPath>)
      returns (ok: bool, found: set<AbsPath>)
      requires config.home == home
      requires configured && !database.NoCommands? ==> Loadable(EMPTY, config, database.commands)
      modifies this
      ensures !configured ==> !ok && found == sources && Value() == old(Value())
      ensures configured && database.NoCommands? ==> !ok && found == sources && Value() == EMPTY
      ensures configured && !database.NoCommands? ==>
        var load := Loaded(EMPTY, sources, config, database.commands);
        Value() == load.cache && found == load.sources && (ok <==> database.FromJson? || !load.thrown)
      ensures Value() == After(old(Value()), home, Rebuilt(config, sources, database, configured))
    {
      hide Loaded, Loadable;
      found := sources;
      if !configured {
        return false, found;
      }
      moduleFlags := map[];
      relDirModule := map[];
      match database
      case FromClang(commands) => ok, found := LoadCommands(config, commands, sources);
      case FromJson(commands) =>
        ok, found := LoadCommands(config, commands, sources);
        ok := true;
      case NoCommands => ok := false;
    }

    method GetModuleCompilerFlags(moduleName: string) returns (r: Option<seq<string>>)
      ensures r == Get(moduleFlags, moduleName)
    {
      if moduleName in moduleFlags {
        return Some(moduleFlags[moduleName]);
      }
      return None;
    }

    method GetModuleName(tree: Tree, path: AnyPath) returns (moduleName: string)
      ensures var d := DirKey(home, DirOf(tree, Resolved(home, path)));
        moduleName == if d in relDirModule then relDirModule[d] else ""
      decreases path.Relatively?
    {
      match path
      case Relatively(r) => moduleName := GetModuleName(tree, Absolutely(Absolute(home, r)));
      case Absolutely(p) =>
        var relativeDir := if tree.isDirectory(p) then Relative(p, home) else Relative(Parent(p), home);
        moduleName := if relativeDir in relDirModule then relDirModule[relativeDir] else "";
    }

    method GetFileCompilerFlags(tree: Tree, path: AnyPath) returns (r: Option<seq<string>>)
      ensures r == FileFlags(Value(), home, tree, Resolved(home, path))
    {
      var moduleName := GetModuleName(tree, path);
      if moduleName == "" {
        return None;
      }
      r := GetModuleCompilerFlags(moduleName);
    }

    method AddDirToModule(path: AbsPath, moduleName: string)
      requires HasPrefix(path, home)
      modifies this`relDirModule
      ensures Value() == WithDir(old(Value()), home, path, moduleName)
      ensures relDirModule == old(relDirModule)[Relative(path, home) := moduleName] && moduleFlags == old(moduleFlags)
    {
      var relativeDir := Relative(path, home);
      relDirModule := relDirModule[relativeDir := moduleName];
    }

    method TryRemoveDir(path: AbsPath) returns (removed: bool)
      requires HasPrefix(path, home)
      modifies this
      ensures Value() == After(old(Value()), home, Deleted(path)) && Removed(old(Value()), home, path, Value())
      ensures removed <==> DirKey(home, path) in old(relDirModule)
    {
      hide Relative, RelativeText, HasPrefix, Removed;
      RemovalExactly(Value(), home, path);
      var relativeDir := Relative(path, home);
      if relativeDir !in relDirModule {
        return false;
      }
      var moduleName := relDirModule[relativeDir];
      relDirModule := relDirModule - {relativeDir};
      if RelativeText(relativeDir) != moduleName {
        return true;
      }
      ghost var before := relDirModule;
      var rest := relDirModule.Keys;
      while rest != {}
        invariant relDirModule == map d | d in before && (d in rest || before[d] != moduleName) :: before[d]
        invariant rest <= before.Keys && moduleFlags == old(moduleFlags)
        decreases rest
      {
        var d :| d in rest;
        rest := rest - {d};
        if relDirModule[d] == moduleName {
          relDirModule := relDirModule - {d};
        }
      }
      assert relDirModule == OutsideModule(old(relDirModule), moduleName);
      moduleFlags := moduleFlags - {moduleName};
      removed := true;
    }

    /** The directory branch of the watcher's create event. */
    method HandleDirectoryCreated(tree: Tree, path: AbsPath)
      requires HasPrefix(path, home) && tree.isDirectory(Parent(path))
      requires DirKey(home, Parent(path)) in relDirModule && relDirModule[DirKey(home, Parent(path))] != ""
      modifies this
      ensures Value() == WithDir(old(Value()), home, path, old(relDirModule[DirKey(home, Parent(path))]))
      ensures Value() == After(old(Value()), home, Created(path))
    {
      var moduleName := GetModuleName(tree, Absolutely(Parent(path)));
      AddDirToModule(path, moduleName);
    }
  }
}
