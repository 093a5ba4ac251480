/** Reachable inputs on which the code loses what one would expect it to keep.  Each example starts
    from an empty database or from empty maps.  */
module Counterexamples {
  import opened Basics
  import opened SymbolDb
  import R = ReferenceIndex
  import D = DefinitionIndex
  import opened CompileCommit
  import opened Paths
  import C = CompilerFlags
  import F = FlagCache

  // ---------- one symbol under two modules ----------

  const AT := LineCol(1, 1)
  const KEY_A := R.SymbolModule("s", "a")
  const KEY_B := R.SymbolModule("s", "b")
  const ONE: R.FileReferences := map[KEY_A := {AT}]
  const BOTH: R.FileReferences := map[KEY_A := {AT}, KEY_B := {AT}]

  function Item(m: ModuleName): ReferenceItem {
    ReferenceItem(m, [PathLocations("f", [AT])])
  }

  function Forward(m: ModuleName): ReferredSymbol {
    ReferredSymbol(m, "s", [AT])
  }

  lemma ItemMeans(m: ModuleName)
    ensures R.DecodePostings([Item(m)]) == map[m := map["f" := {AT}]]
    ensures R.AddItem(map[], Item(m)) == map[m := map["f" := {AT}]]
  {
    assert R.DecodePlaces([AT]) == {AT};
    assert {} + {AT} == {AT};
    assert [PathLocations("f", [AT])][..0] == [];
    assert R.DecodePaths(map[], [PathLocations("f", [AT])]) == map["f" := {AT}];
    assert [Item(m)][..0] == [];
  }

  lemma ItemsMean()
    ensures R.DecodePostings([Item("a"), Item("b")]) == map["a" := map["f" := {AT}], "b" := map["f" := {AT}]]
  {
    ItemMeans("a");
    ItemMeans("b");
    assert [Item("a"), Item("b")][..1] == [Item("a")];
  }

  lemma ForwardMeans()
    ensures R.DecodeFileReferences([Forward("a")]) == ONE
    ensures R.DecodeFileReferences([Forward("a"), Forward("b")]) == BOTH
  {
    assert R.DecodePlaces([AT]) == {AT};
    assert {} + {AT} == {AT};
    assert [Forward("a")][..0] == [];
    assert [Forward("a"), Forward("b")][..1] == [Forward("a")];
  }

  /** A first compile that refers to one symbol under two modules. */
  const TWO_CHANGES := [PutSymRefs("s", [Item("a")]), PutSymRefs("s", [Item("b")]), PutFileRefs("f", [Forward("a"), Forward("b")])]

  /** It loses the posting of the module that is written first. */
  lemma TwoModulesInOneCompile()
    ensures R.Agree(EMPTY_DB) && R.ReferenceBatch(EMPTY_DB, "f", BOTH, [KEY_A, KEY_B], TWO_CHANGES)
    ensures !R.AgreeFor(ApplyAll(EMPTY_DB, TWO_CHANGES), "f")
    ensures R.Posted(ApplyAll(EMPTY_DB, TWO_CHANGES), KEY_A, "f") == None
  {
    ItemMeans("a");
    ItemMeans("b");
    ForwardMeans();
    assert TWO_CHANGES[..2] == [TWO_CHANGES[0], TWO_CHANGES[1]];
    assert R.ReferenceBatch(EMPTY_DB, "f", BOTH, [KEY_A, KEY_B], TWO_CHANGES);
    R.TwoChangesLoseOne(EMPTY_DB, "f", BOTH, [KEY_A, KEY_B], TWO_CHANGES, KEY_A, KEY_B);
    R.WrittenPlaces(EMPTY_DB, "f", BOTH, [KEY_A, KEY_B], TWO_CHANGES, KEY_A);
  }

  /** Two compiles, the second of which adds a module, and the deletion of the file. */
  const FIRST := [PutSymRefs("s", [Item("a")]), PutFileRefs("f", [Forward("a")])]
  const SECOND := [PutSymRefs("s", [Item("a"), Item("b")]), PutFileRefs("f", [Forward("a"), Forward("b")])]
  const DELETION := [PutSymRefs("s", [Item("b")]), PutSymRefs("s", [Item("a")])]

  function AfterTwo(): Db {
    ApplyAll(ApplyAll(EMPTY_DB, FIRST), SECOND)
  }

  lemma FirstState()
    ensures R.ReferenceBatch(EMPTY_DB, "f", ONE, [KEY_A], FIRST)
    ensures ApplyAll(EMPTY_DB, FIRST) == EMPTY_DB.(fileRefs := map["f" := [Forward("a")]], symRefs := map["s" := [Item("a")]])
  {
    ItemMeans("a");
    ForwardMeans();
    assert FIRST[..1] == [FIRST[0]] && FIRST[..1][..0] == [];
    assert ApplyAll(EMPTY_DB, FIRST[..1]) == Apply(EMPTY_DB, FIRST[0]);
  }

  lemma SecondState()
    ensures R.ReferenceBatch(ApplyAll(EMPTY_DB, FIRST), "f", BOTH, [KEY_B], SECOND)
    ensures AfterTwo() == EMPTY_DB.(fileRefs := map["f" := [Forward("a"), Forward("b")]], symRefs := map["s" := [Item("a"), Item("b")]])
  {
    FirstState();
    ItemMeans("a");
    ItemsMean();
    ForwardMeans();
    assert SECOND[..1] == [SECOND[0]] && SECOND[..1][..0] == [];
    assert ApplyAll(ApplyAll(EMPTY_DB, FIRST), SECOND[..1]) == Apply(ApplyAll(EMPTY_DB, FIRST), SECOND[0]);
  }

  lemma DeletionBatch()
    ensures R.ReferenceDeletion(AfterTwo(), "f", [KEY_A, KEY_B], DELETION)
    ensures R.ReferencesOf(AfterTwo(), "f") == BOTH
  {
    SecondState();
    ItemMeans("a");
    ItemMeans("b");
    ItemsMean();
    ForwardMeans();
    var post := R.PostingsOf(AfterTwo(), "s");
    assert R.Updated(post, "a", "f", None) == map["b" := map["f" := {AT}]] by {
      assert map["f" := {AT}] - {"f"} == map[];
    }
    assert R.Updated(post, "b", "f", None) == map["a" := map["f" := {AT}]] by {
      assert map["f" := {AT}] - {"f"} == map[];
    }
  }

  /** The indexes agree after both compiles, and yet the deletion leaves a posting behind. */
  lemma DeletionLeavesPosting()
    ensures R.ReferenceBatch(EMPTY_DB, "f", ONE, [KEY_A], FIRST)
    ensures R.ReferenceBatch(ApplyAll(EMPTY_DB, FIRST), "f", BOTH, [KEY_B], SECOND)
    ensures R.AgreeFor(AfterTwo(), "f") && R.ReferenceDeletion(AfterTwo(), "f", [KEY_A, KEY_B], DELETION)
    ensures !R.Unposted(ApplyAll(AfterTwo(), DELETION), "f")
  {
    FirstState();
    SecondState();
    DeletionBatch();
    ForwardMeans();
    hide R.ReferenceBatch, R.ReferenceDeletion, R.AgreeFor, R.Unposted;
    BothAgree();
    R.DeleteRemovesExactly(AfterTwo(), "f", [KEY_A, KEY_B], DELETION);
    assert KEY_A in BOTH && KEY_B in BOTH;
  }

  lemma EmptyAgrees(g: Path)
    ensures R.AgreeFor(EMPTY_DB, g)
  {
  }

  lemma BothAgree()
    ensures R.AgreeFor(AfterTwo(), "f")
  {
    hide R.ReferenceBatch, R.AgreeFor;
    FirstState();
    SecondState();
    ForwardMeans();
    var db1 := ApplyAll(EMPTY_DB, FIRST);
    EmptyAgrees("f");
    R.WriteAgreesExactly(EMPTY_DB, "f", ONE, [KEY_A], FIRST);
    assert R.ReferencesOf(db1, "f") == ONE;
    R.WriteAgreesExactly(db1, "f", BOTH, [KEY_B], SECOND);
  }

  // ---------- a symbol that vanishes from one of two files ----------

  /** File f belongs to module a and file g to module b. */
  const LAYOUT := D.Layout("/h", p => if p == "/h/f" then "a" else if p == "/h/g" then "b" else "")
  const INFO := FileBasicInfo(1, "md5")
  const IN_F := Location("f", 1, 1)
  const IN_G := Location("g", 2, 2)

  const UNIT_F := TranslationUnit(map["s" := Location("/h/f", 1, 1)], map[])
  const UNIT_G := TranslationUnit(map["s" := Location("/h/g", 2, 2)], map[])
  const NOTHING := TranslationUnit(map[], map[])

  const BATCH_F := Batch(["s"], [PutSymDefs("s", [IN_F]), PutFileDefs("f", ["s"])], [], [])
  const BATCH_G := Batch(["s"], [PutSymDefs("s", [IN_F, IN_G]), PutFileDefs("g", ["s"])], [], [])
  const BATCH_GONE := Batch(["s"], [DeleteSymDefs("s"), DeleteFileDefs("f")], [], [])

  /** What the two compiles leave. */
  const DEFINED_IN_F := Db(map["f" := INFO], map["f" := ["s"]], map[], map["s" := [IN_F]], map[])
  const DEFINED_TWICE := Db(map["f" := INFO, "g" := INFO], map["f" := ["s"], "g" := ["s"]], map[], map["s" := [IN_F, IN_G]], map[])

  lemma LayoutPaths()
    ensures LAYOUT.Valid() && LAYOUT.Abs("f") == "/h/f" && LAYOUT.Abs("g") == "/h/g"
    ensures LAYOUT.Abs("/h/f") == "/h/f" && LAYOUT.Abs("/h/g") == "/h/g"
    ensures LAYOUT.ModuleOf("f") == "a" && LAYOUT.ModuleOf("g") == "b"
  {
  }

  lemma FindInOne(m: ModuleName)
    ensures D.FindModule(LAYOUT, [], m) == 0
    ensures D.FindModule(LAYOUT, [IN_F], m) == if m == "a" then 0 else 1
    ensures D.FindModule(LAYOUT, [IN_F, IN_G], m) == if m == "a" then 0 else if m == "b" then 1 else 2
  {
    LayoutPaths();
    assert [IN_F][1..] == [] && [IN_F, IN_G][1..] == [IN_G] && [IN_G][1..] == [];
    assert D.FindModule(LAYOUT, [IN_G], m) == if m == "b" then 0 else 1;
  }

  lemma NoReferences(layout: D.Layout, db: Db, file: Path)
    requires db.fileRefs == map[]
    ensures R.ReferenceBatch(db, file, NewReferences(layout, NOTHING), [], [])
  {
  }

  lemma CommittedTwo(db: Db, file: Path, b: Batch)
    requires |b.definitionOps| == 2 && b.referenceOps == []
    ensures Compiled(db, file, INFO, b) == Apply(Apply(Apply(db, PutFileInfo(file, INFO)), b.definitionOps[0]), b.definitionOps[1])
  {
    hide Apply;
    var ops := CompileOps(file, INFO, b);
    assert ops == [PutFileInfo(file, INFO), b.definitionOps[0], b.definitionOps[1]];
    assert ops[..2] == [ops[0], ops[1]] && ops[..2][..1] == [ops[0]] && [ops[0]][..0] == [];
    assert ApplyAll(db, [ops[0]]) == Apply(db, ops[0]);
    assert ApplyAll(db, ops[..2]) == Apply(Apply(db, ops[0]), ops[1]);
  }

  /** The batch of a compile that finds s in a file that defined nothing before. */
  lemma NewSymbolBatch(layout: D.Layout, db: Db, file: Path, unit: TranslationUnit, rec: D.Record, b: Batch)
    requires db.fileRefs == map[] && file !in db.fileDefs
    requires unit.referred == map[] && unit.defined.Keys == {"s"}
    requires var here := Location(file, unit.defined["s"].line, unit.defined["s"].column);
      rec == D.AddLocation(layout, D.RecordOf(db, "s"), layout.ModuleOf(file), here)
    requires b == Batch(["s"], [PutSymDefs("s", rec), PutFileDefs(file, ["s"])], [], [])
    ensures CompileBatch(layout, db, file, unit, b)
  {
    assert D.DefinitionsOf(layout, db, file) == map[];
    hide D.AddLocation, D.QueryDefinition, D.DefinitionsOf, layout.ModuleOf;
    NoReferences(layout, db, file);
    assert D.DefinitionChange(layout, db, file, unit.defined, "s") == D.Store(rec);
    var ops := b.definitionOps;
    assert ops[..1] == [ops[0]];
  }

  lemma FirstCompile()
    ensures CompileBatch(LAYOUT, EMPTY_DB, "f", UNIT_F, BATCH_F)
    ensures Compiled(EMPTY_DB, "f", INFO, BATCH_F) == DEFINED_IN_F
  {
    hide CompileBatch, Compiled, Apply;
    FindInOne("a");
    assert D.AddLocation(LAYOUT, [], "a", IN_F) == [IN_F];
    NewSymbolBatch(LAYOUT, EMPTY_DB, "f", UNIT_F, [IN_F], BATCH_F);
    CommittedTwo(EMPTY_DB, "f", BATCH_F);
    FirstApplied();
  }

  lemma FirstApplied()
    ensures Apply(Apply(Apply(EMPTY_DB, PutFileInfo("f", INFO)), PutSymDefs("s", [IN_F])), PutFileDefs("f", ["s"])) == DEFINED_IN_F
  {
  }

  lemma SecondApplied()
    ensures Apply(Apply(Apply(DEFINED_IN_F, PutFileInfo("g", INFO)), PutSymDefs("s", [IN_F, IN_G])), PutFileDefs("g", ["s"])) == DEFINED_TWICE
  {
  }

  lemma SecondCompile()
    ensures CompileBatch(LAYOUT, DEFINED_IN_F, "g", UNIT_G, BATCH_G)
    ensures Compiled(DEFINED_IN_F, "g", INFO, BATCH_G) == DEFINED_TWICE
  {
    hide CompileBatch, Compiled, Apply;
    FindInOne("b");
    assert D.AddLocation(LAYOUT, [IN_F], "b", IN_G) == [IN_F, IN_G];
    NewSymbolBatch(LAYOUT, DEFINED_IN_F, "g", UNIT_G, [IN_F, IN_G], BATCH_G);
    CommittedTwo(DEFINED_IN_F, "g", BATCH_G);
    SecondApplied();
  }

  lemma VanishingCompile()
    ensures CompileBatch(LAYOUT, DEFINED_TWICE, "f", NOTHING, BATCH_GONE)
    ensures D.Vanished(LAYOUT, DEFINED_TWICE, "f", map[], "s")
  {
    LayoutPaths();
    FindInOne("a");
    NoReferences(LAYOUT, DEFINED_TWICE, "f");
    assert D.QueryDefinition(LAYOUT, DEFINED_TWICE, "s", "f") == Location("/h/f", 1, 1);
    assert "s" in D.DefinitionsOf(LAYOUT, DEFINED_TWICE, "f");
  }

  /** After two compiles module b has its own definition of s; a third compile, of the file of
      module a, in which s is gone, takes b's definition away. */
  lemma VanishedSymbolTakesAll()
    ensures CompileBatch(LAYOUT, EMPTY_DB, "f", UNIT_F, BATCH_F)
    ensures var db1 := Compiled(EMPTY_DB, "f", INFO, BATCH_F);
      var db2 := Compiled(db1, "g", INFO, BATCH_G);
      var db3 := Compiled(db2, "f", INFO, BATCH_GONE);
      && CompileBatch(LAYOUT, db1, "g", UNIT_G, BATCH_G) && CompileBatch(LAYOUT, db2, "f", NOTHING, BATCH_GONE)
      && D.InModule(LAYOUT, D.RecordOf(db2, "s"), "b") == Some(IN_G)
      && D.InModule(LAYOUT, D.RecordOf(db3, "s"), "b") == None
      && D.QueryDefinition(LAYOUT, db3, "s", "g") == NO_LOCATION
  {
    hide CompileBatch, Compiled, Apply, D.Vanished;
    FirstCompile();
    SecondCompile();
    VanishingCompile();
    FindInOne("b");
    CommittedTwo(DEFINED_TWICE, "f", BATCH_GONE);
    RecordGone();
    LayoutPaths();
  }

  lemma RecordGone()
    ensures Apply(Apply(Apply(DEFINED_TWICE, PutFileInfo("f", INFO)), DeleteSymDefs("s")), DeleteFileDefs("f")).symDefs == map[]
  {
  }

  // ---------- a file whose directory lost its module ----------

  /** File g belongs to module b and file f to none. */
  const NO_MODULE := D.Layout("/h", p => if p == "/h/g" then "b" else "")
  const BATCH_ONLY_G := Batch(["s"], [PutSymDefs("s", [IN_G]), PutFileDefs("g", ["s"])], [], [])
  const DEFINED_IN_G := Db(map["g" := INFO], map["g" := ["s"]], map[], map["s" := [IN_G]], map[])

  lemma NoModulePaths()
    ensures NO_MODULE.Valid() && NO_MODULE.Abs("f") == "/h/f" && NO_MODULE.Abs("g") == "/h/g"
    ensures NO_MODULE.ModuleOf("f") == "" && NO_MODULE.ModuleOf("g") == "b"
  {
  }

  lemma OnlyInG()
    ensures CompileBatch(NO_MODULE, EMPTY_DB, "g", UNIT_G, BATCH_ONLY_G)
    ensures Compiled(EMPTY_DB, "g", INFO, BATCH_ONLY_G) == DEFINED_IN_G
  {
    hide CompileBatch, Compiled, Apply;
    NoModulePaths();
    assert D.AddLocation(NO_MODULE, [], "b", IN_G) == [IN_G];
    NewSymbolBatch(NO_MODULE, EMPTY_DB, "g", UNIT_G, [IN_G], BATCH_ONLY_G);
    CommittedTwo(EMPTY_DB, "g", BATCH_ONLY_G);
    GApplied();
  }

  lemma GApplied()
    ensures Apply(Apply(Apply(EMPTY_DB, PutFileInfo("g", INFO)), PutSymDefs("s", [IN_G])), PutFileDefs("g", ["s"])) == DEFINED_IN_G
  {
  }

  /** A batch of f's compile. */
  const BATCH_F_TOO := Batch(["s"], [PutSymDefs("s", [IN_G, IN_F]), PutFileDefs("f", ["s"])], [], [])

  lemma CompileOfF()
    ensures CompileBatch(NO_MODULE, DEFINED_IN_G, "f", UNIT_F, BATCH_F_TOO)
  {
    hide CompileBatch;
    NoModulePaths();
    assert [IN_G][1..] == [] && D.FindModule(NO_MODULE, [IN_G], "") == 1;
    assert D.AddLocation(NO_MODULE, [IN_G], "", IN_F) == [IN_G, IN_F];
    NewSymbolBatch(NO_MODULE, DEFINED_IN_G, "f", UNIT_F, [IN_G, IN_F], BATCH_F_TOO);
  }

  lemma NotSeen()
    ensures !D.SeenWithoutModule(NO_MODULE, DEFINED_IN_G, "f", UNIT_F.defined, "s")
  {
    NoModulePaths();
    assert D.DefinitionsOf(NO_MODULE, DEFINED_IN_G, "f") == map[];
  }

  /** Module b defines s; a compile of f, whose directory has no module when it commits, defines s
      too.  Whatever its batch, a query from f finds b's definition, and f's own do not load back. */
  lemma NoModuleHidesDefinition(b: Batch)
    requires CompileBatch(NO_MODULE, DEFINED_IN_G, "f", UNIT_F, b)
    ensures CompileBatch(NO_MODULE, EMPTY_DB, "g", UNIT_G, BATCH_ONLY_G) && Compiled(EMPTY_DB, "g", INFO, BATCH_ONLY_G) == DEFINED_IN_G
    ensures CompileBatch(NO_MODULE, DEFINED_IN_G, "f", UNIT_F, BATCH_F_TOO)
    ensures var db := Compiled(DEFINED_IN_G, "f", INFO, b);
      && D.QueryDefinition(NO_MODULE, db, "s", "f") != UNIT_F.defined["s"]
      && D.DefinitionsOf(NO_MODULE, db, "f") != UNIT_F.defined
  {
    hide D.DefinitionBatch, R.ReferenceBatch, D.QueryDefinition, D.DefinitionsOf, D.SeenWithoutModule;
    OnlyInG();
    CompileOfF();
    NoModulePaths();
    NotSeen();
    var new_ := UNIT_F.defined;
    assert "s" in new_ && D.DefinedHere(NO_MODULE, "f", new_);
    D.QueryAfterWriteExactly(NO_MODULE, DEFINED_IN_G, "f", new_, b.symbols, b.definitionOps, "s");
    D.LoadAfterWriteExactly(NO_MODULE, DEFINED_IN_G, "f", new_, b.symbols, b.definitionOps);
    CompiledFamilies(NO_MODULE, DEFINED_IN_G, "f", INFO, UNIT_F, b);
    var db := Compiled(DEFINED_IN_G, "f", INFO, b);
    DefinitionsAreLocal(NO_MODULE, ApplyAll(DEFINED_IN_G, b.definitionOps), db, "f");
    QueriesAreLocal(NO_MODULE, ApplyAll(DEFINED_IN_G, b.definitionOps), db, "s", "f");
  }

  // ---------- a directory that is a module's home ----------

  const TREE := F.Tree((p: AbsPath) => p == ["p"] || p == ["p", "s"], (p: AbsPath) => p == ["p"] || p == ["p", "s"],
                       (p: AbsPath) => p == ["p"] || p == ["p", "s"])
  const PROJECT := F.Config(["p"], ["b"], TREE, (p: AbsPath) => false, (c: string) => false, [])

  const OUTER := F.Command(["p", "x.cc"], Some(["cc"]))
  const INNER := F.Command(["p", "s", "y.cc"], Some(["cc"]))
  const DIRECTORY := F.Command(["p", "s"], Some(["cc"]))
  const NO_COMMAND := F.Command(["p", "x.cc"], None)

  const ONE_MODULE := F.Cache(map["." := []], map[["."] := "."])
  const TWO_MODULES := F.Cache(map["." := [], "s" := []], map[["."] := ".", ["s"] := "s"])
  const ASTRAY := F.Cache(map["s" := []], map[["."] := "s", ["s"] := "s"])
  const HALF := F.Cache(map[], map[["."] := "."])

  lemma Keys()
    ensures F.DirKey(["p"], ["p"]) == ["."] && RelativeText(["."]) == "."
    ensures F.DirKey(["p"], ["p", "s"]) == ["s"] && RelativeText(["s"]) == "s"
  {
    assert ["p"][1..] == [] && ["p", "s"][1..] == ["s"];
    assert Common([], []) == 0 && Common(["s"], []) == 0;
    assert Common(["p"], ["p"]) == 1 && Common(["p", "s"], ["p"]) == 1;
    assert Ups(0) + ["p", "s"][1..] == ["s"];
  }

  lemma Parents()
    ensures Parent(["p", "x.cc"]) == ["p"] && Parent(["p", "s", "y.cc"]) == ["p", "s"] && Parent(["p", "s"]) == ["p"]
  {
    assert ["p", "x.cc"][..1] == ["p"] && ["p", "s", "y.cc"][..2] == ["p", "s"] && ["p", "s"][..1] == ["p"];
  }

  /** The home of the module that each command belongs to. */
  lemma Homes(cmd: F.Command, d: AbsPath)
    requires (d == ["p"] && (cmd == OUTER || cmd == NO_COMMAND)) || (d == ["p", "s"] && (cmd == INNER || cmd == DIRECTORY))
    ensures !F.Skips(PROJECT, cmd) && F.CommandHome(PROJECT, cmd) == Some(d)
  {
    hide HasPrefix, Parent;
    Parents();
    HasPrefixExactly(cmd.file, ["b"]);
    HasPrefixExactly(d, ["p"]);
    assert !("b" < cmd.file[0]);
  }

  lemma CompilerOnly(c: F.Cache, cmd: F.Command)
    requires cmd.flags == Some(["cc"])
    ensures F.Parsable(c, PROJECT, cmd) && F.FinalFlags(c, PROJECT, cmd) == [] && !F.LacksFlags(c, PROJECT, cmd)
  {
    hide F.Skips, F.CommandHome;
    assert ["cc"][1..] == [];
    assert C.DropLeadingFlags(["cc"]) == ["cc"];
    assert C.Pruned(["cc"], Text(cmd.file), PROJECT.isCpp) == [];
  }

  lemma OuterParsed()
    ensures F.Parsable(F.EMPTY, PROJECT, OUTER) && F.Parsed(F.EMPTY, PROJECT, OUTER) == F.Outcome(ONE_MODULE, false)
  {
    hide F.Parsable, F.FinalFlags, F.Skips, F.CommandHome, F.LacksFlags, RelativeText, Relative, Parent;
    Keys();
    Parents();
    Homes(OUTER, ["p"]);
    CompilerOnly(F.EMPTY, OUTER);
    assert F.WithDir(F.EMPTY, ["p"], ["p"], ".") == F.Cache(map[], map[["."] := "."]);
    assert F.WithModule(F.Cache(map[], map[["."] := "."]), ["."], []) == ONE_MODULE;
  }

  lemma InnerParsed()
    ensures F.Parsable(ONE_MODULE, PROJECT, INNER) && F.Parsed(ONE_MODULE, PROJECT, INNER) == F.Outcome(TWO_MODULES, false)
  {
    hide F.Parsable, F.FinalFlags, F.Skips, F.CommandHome, F.LacksFlags, RelativeText, Relative, Parent;
    Keys();
    Parents();
    Homes(INNER, ["p", "s"]);
    CompilerOnly(ONE_MODULE, INNER);
    var dirs: map<seq<string>, string> := map[["."] := ".", ["s"] := "s"];
    assert F.WithDir(ONE_MODULE, ["p"], ["p", "s"], "s") == F.Cache(map["." := []], dirs);
    assert F.WithModule(F.Cache(map["." := []], dirs), ["s"], []) == TWO_MODULES;
  }

  lemma LoadedTwo()
    ensures F.Loadable(F.EMPTY, PROJECT, [OUTER, INNER]) && F.Loadable(ONE_MODULE, PROJECT, [INNER])
    ensures F.Loaded(F.EMPTY, {}, PROJECT, [OUTER, INNER]).cache == TWO_MODULES
  {
    hide F.Parsable, F.Parsed;
    OuterParsed();
    InnerParsed();
    assert [OUTER, INNER][1..] == [INNER] && [INNER][1..] == [];
    assert F.Loadable(ONE_MODULE, PROJECT, [INNER]);
    assert F.Loaded(ONE_MODULE, {OUTER.file}, PROJECT, [INNER]).cache == TWO_MODULES;
    assert {} + {OUTER.file} == {OUTER.file};
  }

  const RELOAD := F.Rebuilt(PROJECT, {}, F.FromClang([OUTER, INNER]), true)
  const BROKEN := F.Cache(map["." := [], "s" := []], map[["."] := ".", ["s"] := "."])

  /** One reload of a project with a nested project leads to maps in step; a create event for the
      directory of the nested project puts them out of step. */
  lemma NestedHomeBreaksMaps()
    ensures F.Runs(F.EMPTY, ["p"], [RELOAD, F.Created(["p", "s"])], BROKEN)
    ensures F.Consistent(F.EMPTY, ["p"]) && F.Consistent(TWO_MODULES, ["p"]) && !F.Consistent(BROKEN, ["p"])
  {
    hide F.Loaded, F.Loadable, F.Consistent, Relative, RelativeText, Parent;
    LoadedTwo();
    Keys();
    Parents();
    EmptyConsistent(["p"]);
    TwoConsistent();
    assert F.WithDir(TWO_MODULES, ["p"], ["p", "s"], ".") == BROKEN;
    F.AddKeepsExactly(TWO_MODULES, ["p"], ["p", "s"], ".");
    assert [RELOAD, F.Created(["p", "s"])][1..] == [F.Created(["p", "s"])] && [F.Created(["p", "s"])][1..] == [];
    assert F.Runs(TWO_MODULES, ["p"], [F.Created(["p", "s"])], BROKEN);
  }

  lemma FilesOnly(c: F.Cache, cmd: F.Command)
    requires cmd == OUTER || cmd == INNER
    ensures !F.Disturbs(c, PROJECT, cmd)
  {
    hide F.NeedsFlags, F.CommandHome, F.Skips;
  }

  lemma TwoConsistent()
    ensures F.Consistent(TWO_MODULES, ["p"])
  {
    hide F.Loadable, F.Loaded, F.Parsed, F.Parsable, F.Disturbs, F.Consistent, F.EndsInStep, F.Traced;
    LoadedTwo();
    OuterParsed();
    InnerParsed();
    FilesOnly(F.EMPTY, OUTER);
    FilesOnly(ONE_MODULE, INNER);
    assert [OUTER, INNER][1..] == [INNER] && [INNER][1..] == [];
    assert F.Undisturbed(ONE_MODULE, PROJECT, [INNER]);
    F.UndisturbedEnds(F.EMPTY, PROJECT, [OUTER, INNER]);
    F.EmptyTraced(PROJECT);
    F.LoadEndsExactly(F.EMPTY, {}, PROJECT, [OUTER, INNER], {});
  }

  lemma EmptyConsistent(home: AbsPath)
    ensures F.Consistent(F.EMPTY, home)
  {
  }

  // ---------- a JSON entry without a command ----------

  /** A reload from a JSON file whose one entry has no command returns normally and leaves a
      directory mapped to a module without flags, so no flags are found for the file. */
  lemma MissingCommandBreaksMaps()
    ensures F.Runs(F.EMPTY, ["p"], [F.Rebuilt(PROJECT, {}, F.FromJson([NO_COMMAND]), true)], HALF)
    ensures !F.Consistent(HALF, ["p"])
    ensures F.DirKey(["p"], F.DirOf(TREE, NO_COMMAND.file)) in HALF.dirs && F.FileFlags(HALF, ["p"], TREE, NO_COMMAND.file) == None
  {
    hide F.Skips, F.CommandHome, RelativeText, Relative, Parent;
    Keys();
    Parents();
    Homes(NO_COMMAND, ["p"]);
    assert F.Parsed(F.EMPTY, PROJECT, NO_COMMAND) == F.Outcome(HALF, true);
    assert F.Loaded(F.EMPTY, {}, PROJECT, [NO_COMMAND]).cache == HALF;
    var events := [F.Rebuilt(PROJECT, {}, F.FromJson([NO_COMMAND]), true)];
    assert events[1..] == [] && F.Runs(HALF, ["p"], [], HALF);
    assert ["."] in HALF.dirs && !F.DirsHaveFlags(HALF);
  }

  // ---------- a command whose file is a project directory ----------

  lemma DirectoryParsed()
    ensures F.Parsable(F.EMPTY, PROJECT, DIRECTORY) && F.Parsed(F.EMPTY, PROJECT, DIRECTORY) == F.Outcome(ASTRAY, false)
  {
    hide F.Parsable, F.FinalFlags, F.Skips, F.CommandHome, F.LacksFlags, RelativeText, Relative, Parent;
    Keys();
    Parents();
    Homes(DIRECTORY, ["p", "s"]);
    CompilerOnly(F.EMPTY, DIRECTORY);
    assert F.WithDir(F.EMPTY, ["p"], ["p"], "s") == F.Cache(map[], map[["."] := "s"]);
    assert F.WithModule(F.Cache(map[], map[["."] := "s"]), ["s"], []) == ASTRAY;
  }

  lemma OuterParsedLast()
    ensures F.Parsable(ASTRAY, PROJECT, OUTER) && F.Parsed(ASTRAY, PROJECT, OUTER) == F.Outcome(TWO_MODULES, false)
  {
    hide F.Parsable, F.FinalFlags, F.Skips, F.CommandHome, F.LacksFlags, RelativeText, Relative, Parent;
    Keys();
    Parents();
    Homes(OUTER, ["p"]);
    CompilerOnly(ASTRAY, OUTER);
    var mapped := F.Cache(map["s" := []], map[["."] := ".", ["s"] := "s"]);
    assert F.WithDir(ASTRAY, ["p"], ["p"], ".") == mapped;
    assert F.WithModule(mapped, ["."], []) == TWO_MODULES;
  }

  lemma DirectoryDisturbs()
    ensures F.Disturbs(F.EMPTY, PROJECT, DIRECTORY)
  {
    hide F.LacksFlags, F.Skips, F.CommandHome;
    Homes(DIRECTORY, ["p", "s"]);
  }

  lemma AstrayBroken()
    ensures !F.Consistent(ASTRAY, ["p"])
  {
    hide Relative, RelativeText;
    Keys();
    F.KeyProper(["p"], ["p"]);
    F.KeyProper(["p"], ["p", "s"]);
    assert ["."] in ASTRAY.dirs && ["s"] in ASTRAY.dirs && RelativeText(["s"]) == ASTRAY.dirs[["."]];
  }

  /** A load that goes astray and comes right again: the maps are out of step after its first
      command and in step at its end. */
  lemma StrayComesRight()
    ensures F.Loadable(F.EMPTY, PROJECT, [DIRECTORY, OUTER])
    ensures F.Loaded(F.EMPTY, {}, PROJECT, [DIRECTORY, OUTER]).cache == TWO_MODULES && F.Consistent(TWO_MODULES, ["p"])
    ensures F.Parsed(F.EMPTY, PROJECT, DIRECTORY).cache == ASTRAY && !F.Consistent(ASTRAY, ["p"])
    ensures F.EndsInStep(F.EMPTY, PROJECT, [DIRECTORY, OUTER], {}) && !F.Undisturbed(F.EMPTY, PROJECT, [DIRECTORY, OUTER])
  {
    hide F.Parsable, F.Parsed, F.Disturbs, F.Consistent, F.EndsInStep, F.Traced;
    DirectoryParsed();
    OuterParsedLast();
    DirectoryDisturbs();
    TwoConsistent();
    AstrayBroken();
    assert [DIRECTORY, OUTER][1..] == [OUTER] && [OUTER][1..] == [];
    assert F.Loadable(ASTRAY, PROJECT, [OUTER]);
    assert F.Loaded(ASTRAY, {DIRECTORY.file}, PROJECT, [OUTER]).cache == TWO_MODULES;
    assert {} + {DIRECTORY.file} == {DIRECTORY.file};
    F.EmptyTraced(PROJECT);
    F.LoadEndsExactly(F.EMPTY, {}, PROJECT, [DIRECTORY, OUTER], {});
  }
}
