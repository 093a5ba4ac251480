/** The two batches that touch a whole file: the one that stores a finished compile and the
    one that erases a file before it is compiled again or because it is gone.  */
module CompileCommit {
  import opened Basics
  import opened SymbolDb
  import R = ReferenceIndex
  import D = DefinitionIndex

  /** What the compiler reports for one translation unit. */
  datatype TranslationUnit = TranslationUnit(defined: D.Definitions, referred: map<R.SymbolPath, R.Places>)

  /** The parts of a batch, with the order in which symbols were visited. */
  datatype Batch = Batch(symbols: seq<Symbol>, definitionOps: seq<Op>, keys: seq<R.SymbolModule>, referenceOps: seq<Op>)

  function NewReferences(layout: D.Layout, unit: TranslationUnit): R.FileReferences {
    R.Grouped(p => layout.ModuleOf(p), unit.referred)
  }

  /** The reported references, filed under the module of the path that each one leads to: a symbol is
      referred to under a module if it is at some path of that module, at the places of all of them. */
  ghost predicate FiledByModule(layout: D.Layout, referred: map<R.SymbolPath, R.Places>, refs: R.FileReferences) {
    && (forall s, m :: R.SymbolModule(s, m) in refs <==> exists p :: R.SymbolPath(s, p) in referred && layout.ModuleOf(p) == m)
    && (forall s, m, l | R.SymbolModule(s, m) in refs ::
          (l in refs[R.SymbolModule(s, m)] <==>
             exists p :: R.SymbolPath(s, p) in referred && layout.ModuleOf(p) == m && l in referred[R.SymbolPath(s, p)]))
  }

  lemma GroupedByModule(layout: D.Layout, referred: map<R.SymbolPath, R.Places>)
    ensures FiledByModule(layout, referred, R.Grouped(p => layout.ModuleOf(p), referred))
  {
    hide layout.ModuleOf;
    var moduleOf := p => layout.ModuleOf(p);
    var refs := R.Grouped(moduleOf, referred);
    forall s, m
      ensures R.SymbolModule(s, m) in refs <==> exists p :: R.SymbolPath(s, p) in referred && layout.ModuleOf(p) == m
    {
      if r :| r in referred && R.KeyOf(moduleOf, r) == R.SymbolModule(s, m) {
        assert r == R.SymbolPath(s, r.path);
      }
      if p :| R.SymbolPath(s, p) in referred && layout.ModuleOf(p) == m {
        assert R.KeyOf(moduleOf, R.SymbolPath(s, p)) == R.SymbolModule(s, m);
      }
    }
    forall s, m, l | R.SymbolModule(s, m) in refs
      ensures l in refs[R.SymbolModule(s, m)]
         <==> exists p :: R.SymbolPath(s, p) in referred && layout.ModuleOf(p) == m && l in referred[R.SymbolPath(s, p)]
    {
      if r :| r in referred && l in referred[r] && R.KeyOf(moduleOf, r) == R.SymbolModule(s, m) {
        assert r == R.SymbolPath(s, r.path);
      }
      if p :| R.SymbolPath(s, p) in referred && layout.ModuleOf(p) == m && l in referred[R.SymbolPath(s, p)] {
        assert R.KeyOf(moduleOf, R.SymbolPath(s, p)) == R.SymbolModule(s, m);
      }
    }
  }

  /** There is only one way to file them. */
  lemma FiledOnce(layout: D.Layout, referred: map<R.SymbolPath, R.Places>, a: R.FileReferences, b: R.FileReferences)
    requires FiledByModule(layout, referred, a) && FiledByModule(layout, referred, b)
    ensures a == b
  {
    hide layout.ModuleOf;
    forall k: R.SymbolModule ensures (k in a <==> k in b) && (k in a ==> a[k] == b[k]) {
      assert k == R.SymbolModule(k.symbol, k.moduleName);
      if k in a && k in b {
        forall l: LineCol ensures l in a[k] <==> l in b[k] {
        }
      }
    }
  }

  /** The batch of WriteCompiledFile; every read sees the database as it was before the batch. */
  ghost predicate CompileBatch(layout: D.Layout, db: Db, file: Path, unit: TranslationUnit, b: Batch) {
    && D.DefinitionBatch(layout, db, file, unit.defined, b.symbols, b.definitionOps)
    && R.ReferenceBatch(db, file, NewReferences(layout, unit), b.keys, b.referenceOps)
  }

  function CompileOps(file: Path, info: FileBasicInfo, b: Batch): seq<Op> {
    [PutFileInfo(file, info)] + b.definitionOps + b.referenceOps
  }

  ghost predicate ErasureBatch(layout: D.Layout, db: Db, file: Path, b: Batch) {
    && D.DefinitionDeletion(layout, db, file, b.symbols, b.definitionOps)
    && R.ReferenceDeletion(db, file, b.keys, b.referenceOps)
  }

  function ErasureOps(file: Path, b: Batch): seq<Op> {
    [DeleteFileInfo(file)] + b.definitionOps + b.referenceOps
  }

  // ---------- the key families do not interfere ----------

  /** The families in which two databases hold the same records. */
  ghost predicate Matching(d: Db, e: Db, info: bool, defs: bool, refs: bool) {
    && (info ==> d.fileInfo == e.fileInfo)
    && (defs ==> d.fileDefs == e.fileDefs && d.symDefs == e.symDefs)
    && (refs ==> d.fileRefs == e.fileRefs && d.symRefs == e.symRefs)
  }

  lemma ApplyKeepsMatching(d: Db, e: Db, op: Op, info: bool, defs: bool, refs: bool)
    requires Matching(d, e, info, defs, refs)
    ensures Matching(Apply(d, op), Apply(e, op), info, defs, refs)
  {
  }

  lemma {:induction false} FamiliesAreLocal(d: Db, e: Db, ops: seq<Op>, info: bool, defs: bool, refs: bool)
    requires Matching(d, e, info, defs, refs)
    ensures Matching(ApplyAll(d, ops), ApplyAll(e, ops), info, defs, refs)
  {
    if ops != [] {
      var n := |ops| - 1;
      FamiliesAreLocal(d, e, ops[..n], info, defs, refs);
      ApplyKeepsMatching(ApplyAll(d, ops[..n]), ApplyAll(e, ops[..n]), ops[n], info, defs, refs);
    }
  }

  predicate IsDefinitionOp(op: Op) {
    op.PutFileDefs? || op.DeleteFileDefs? || op.PutSymDefs? || op.DeleteSymDefs?
  }

  predicate IsReferenceOp(op: Op) {
    op.PutFileRefs? || op.PutSymRefs? || op.DeleteSymRefs?
  }

  lemma {:induction false} DefinitionOpsFrame(db: Db, ops: seq<Op>)
    requires forall op | op in ops :: IsDefinitionOp(op)
    ensures var db' := ApplyAll(db, ops);
      db'.fileInfo == db.fileInfo && db'.fileRefs == db.fileRefs && db'.symRefs == db.symRefs
  {
    if ops != [] {
      DefinitionOpsFrame(db, ops[..|ops| - 1]);
      assert ops[|ops| - 1] in ops;
    }
  }

  lemma {:induction false} ReferenceOpsFrame(db: Db, ops: seq<Op>)
    requires forall op | op in ops :: IsReferenceOp(op)
    ensures var db' := ApplyAll(db, ops);
      db'.fileInfo == db.fileInfo && db'.fileDefs == db.fileDefs && db'.symDefs == db.symDefs
  {
    if ops != [] {
      ReferenceOpsFrame(db, ops[..|ops| - 1]);
      assert ops[|ops| - 1] in ops;
    }
  }

  /** A batch made of three parts that were all computed from the same committed database. */
  lemma PartsCommit(db: Db, head: Op, defs: seq<Op>, refs: seq<Op>)
    requires head.PutFileInfo? || head.DeleteFileInfo?
    requires (forall op | op in defs :: IsDefinitionOp(op)) && (forall op | op in refs :: IsReferenceOp(op))
    ensures ApplyAll(db, [head] + defs + refs)
         == Db(Apply(db, head).fileInfo, ApplyAll(db, defs).fileDefs, ApplyAll(db, refs).fileRefs,
               ApplyAll(db, defs).symDefs, ApplyAll(db, refs).symRefs)
  {
    var db1 := Apply(db, head);
    assert [head][..0] == [];
    assert ApplyAll(db, [head]) == db1;
    ApplyAllConcat(db, [head], defs);
    ApplyAllConcat(db, [head] + defs, refs);
    var db2 := ApplyAll(db1, defs);
    FamiliesAreLocal(db, db1, defs, false, true, true);
    DefinitionOpsFrame(db1, defs);
    FamiliesAreLocal(db, db2, refs, false, false, true);
    ReferenceOpsFrame(db2, refs);
  }

  lemma CompileParts(layout: D.Layout, db: Db, file: Path, unit: TranslationUnit, b: Batch)
    requires CompileBatch(layout, db, file, unit, b)
    ensures forall op | op in b.definitionOps :: IsDefinitionOp(op)
    ensures forall op | op in b.referenceOps :: IsReferenceOp(op)
  {
    var changes := s => D.DefinitionChange(layout, db, file, unit.defined, s);
    forall i | 0 <= i < |b.definitionOps| ensures IsDefinitionOp(b.definitionOps[i]) {
      if i < |b.symbols| {
        assert b.definitionOps[i] == b.definitionOps[..|b.symbols|][i];
        assert changes(b.symbols[i]).WrittenBy(b.definitionOps[i], b.symbols[i]);
      }
    }
    var new_ := NewReferences(layout, unit);
    forall i | 0 <= i < |b.referenceOps| ensures IsReferenceOp(b.referenceOps[i]) {
      if i < |b.keys| {
        assert b.referenceOps[i] == b.referenceOps[..|b.keys|][i];
        assert R.WritesChange(db, file, b.keys[i], Get(new_, b.keys[i]), b.referenceOps[i]);
      }
    }
  }

  lemma ErasureParts(layout: D.Layout, db: Db, file: Path, b: Batch)
    requires ErasureBatch(layout, db, file, b)
    ensures forall op | op in b.definitionOps :: IsDefinitionOp(op)
    ensures forall op | op in b.referenceOps :: IsReferenceOp(op)
  {
    forall i | 0 <= i < |b.referenceOps| ensures IsReferenceOp(b.referenceOps[i]) {
      assert R.WritesChange(db, file, b.keys[i], None, b.referenceOps[i]);
    }
  }

  // ---------- committing a compile ----------

  function Compiled(db: Db, file: Path, info: FileBasicInfo, b: Batch): Db {
    ApplyAll(db, CompileOps(file, info, b))
  }

  function Erased(db: Db, file: Path, b: Batch): Db {
    ApplyAll(db, ErasureOps(file, b))
  }

  lemma CompiledFamilies(layout: D.Layout, db: Db, file: Path, info: FileBasicInfo, unit: TranslationUnit, b: Batch)
    requires CompileBatch(layout, db, file, unit, b)
    ensures var defs, refs := ApplyAll(db, b.definitionOps), ApplyAll(db, b.referenceOps);
      Compiled(db, file, info, b) == Db(db.fileInfo[file := info], defs.fileDefs, refs.fileRefs, defs.symDefs, refs.symRefs)
  {
    CompileParts(layout, db, file, unit, b);
    PartsCommit(db, PutFileInfo(file, info), b.definitionOps, b.referenceOps);
  }

  lemma ErasedFamilies(layout: D.Layout, db: Db, file: Path, b: Batch)
    requires ErasureBatch(layout, db, file, b)
    ensures var defs, refs := ApplyAll(db, b.definitionOps), ApplyAll(db, b.referenceOps);
      Erased(db, file, b) == Db(db.fileInfo - {file}, defs.fileDefs, refs.fileRefs, defs.symDefs, refs.symRefs)
  {
    ErasureParts(layout, db, file, b);
    PartsCommit(db, DeleteFileInfo(file), b.definitionOps, b.referenceOps);
  }

  /** What is said of a file's references depends on the two reference families only. */
  lemma ReferencesAreLocal(d: Db, e: Db, g: Path)
    requires d.fileRefs == e.fileRefs && d.symRefs == e.symRefs
    ensures R.AgreeFor(d, g) <==> R.AgreeFor(e, g)
    ensures R.Unposted(d, g) <==> R.Unposted(e, g)
    ensures R.ReferencesOf(d, g) == R.ReferencesOf(e, g)
    ensures forall k: R.SymbolModule :: R.Posted(d, k, g) == R.Posted(e, k, g)
  {
    forall k: R.SymbolModule
      ensures R.Posted(d, k, g) == R.Posted(e, k, g) && R.ReferencesOf(d, g) == R.ReferencesOf(e, g)
    {
    }
  }

  lemma QueriesAreLocal(layout: D.Layout, d: Db, e: Db, s: Symbol, file: Path)
    requires d.symDefs == e.symDefs
    ensures D.QueryDefinition(layout, d, s, file) == D.QueryDefinition(layout, e, s, file)
  {
  }

  lemma DefinitionsAreLocal(layout: D.Layout, d: Db, e: Db, file: Path)
    requires d.fileDefs == e.fileDefs && d.symDefs == e.symDefs
    ensures D.DefinitionsOf(layout, d, file) == D.DefinitionsOf(layout, e, file)
  {
    forall s: Symbol ensures D.QueryDefinition(layout, d, s, file) == D.QueryDefinition(layout, e, s, file) {
      QueriesAreLocal(layout, d, e, s, file);
    }
  }

  /** Everything that is stored for the file is the same in both databases. */
  ghost predicate SameRecords(d: Db, e: Db, g: Path) {
    && Get(d.fileInfo, g) == Get(e.fileInfo, g) && Get(d.fileDefs, g) == Get(e.fileDefs, g) && Get(d.fileRefs, g) == Get(e.fileRefs, g)
    && forall k: R.SymbolModule :: R.Posted(d, k, g) == R.Posted(e, k, g)
  }

  /** A committed compile changes nothing that is stored for another file. */
  lemma CompileLeavesOthers(layout: D.Layout, db: Db, file: Path, info: FileBasicInfo, unit: TranslationUnit, b: Batch, g: Path)
    requires CompileBatch(layout, db, file, unit, b) && g != file
    ensures SameRecords(db, Compiled(db, file, info, b), g)
  {
    hide D.DefinitionBatch, R.ReferenceBatch, R.Posted;
    var refs, db' := ApplyAll(db, b.referenceOps), Compiled(db, file, info, b);
    CompiledFamilies(layout, db, file, info, unit, b);
    D.WrittenDefinitions(layout, db, file, unit.defined, b.symbols, b.definitionOps, "");
    R.WrittenPostings(db, file, NewReferences(layout, unit), b.keys, b.referenceOps, "");
    ReferencesAreLocal(refs, db', g);
    forall k: R.SymbolModule ensures R.Posted(db, k, g) == R.Posted(db', k, g) {
      R.WriteLeavesOtherFiles(db, file, NewReferences(layout, unit), b.keys, b.referenceOps, g, k);
    }
  }

  /** Nor does a committed erasure. */
  lemma ErasureLeavesOthers(layout: D.Layout, db: Db, file: Path, b: Batch, g: Path)
    requires ErasureBatch(layout, db, file, b) && g != file
    ensures SameRecords(db, Erased(db, file, b), g)
  {
    hide D.DeletionChange, R.ReferenceDeletion, R.Posted;
    var refs, db' := ApplyAll(db, b.referenceOps), Erased(db, file, b);
    ErasedFamilies(layout, db, file, b);
    D.RecordsCommit(s => D.DeletionChange(layout, db, file, s), db, b.symbols, b.definitionOps, "");
    ReferencesAreLocal(refs, db', g);
    R.DeletedPlaces(db, file, b.keys, b.referenceOps, R.SymbolModule("", ""), g);
    forall k: R.SymbolModule ensures R.Posted(db, k, g) == R.Posted(db', k, g) {
      R.DeleteLeavesOthers(db, file, b.keys, b.referenceOps, g, k);
    }
  }

  /** The file has a module, or sees each of its definitions without one. */
  ghost predicate DefinitionsSeen(layout: D.Layout, db: Db, file: Path, new_: D.Definitions) {
    layout.ModuleOf(file) != "" || forall s | s in new_ :: D.SeenWithoutModule(layout, db, file, new_, s)
  }

  /** A committed compile stores the file's new stamp; loading its definitions back gives what the
      compiler reported exactly when they are seen, and so does loading its references when they
      agreed before. */
  lemma CompileLoadsBack(layout: D.Layout, db: Db, file: Path, info: FileBasicInfo, unit: TranslationUnit, b: Batch)
    requires layout.Valid() && D.DefinedHere(layout, file, unit.defined) && CompileBatch(layout, db, file, unit, b)
    ensures var db' := Compiled(db, file, info, b);
      && db'.fileInfo == db.fileInfo[file := info]
      && (D.DefinitionsOf(layout, db', file) == unit.defined <==> DefinitionsSeen(layout, db, file, unit.defined))
      && (R.AgreeFor(db, file) ==> R.ReferencesOf(db', file) == NewReferences(layout, unit))
  {
    hide D.DefinitionBatch, R.ReferenceBatch, D.DefinitionsOf, D.SeenWithoutModule, R.AgreeFor, R.ReferencesOf;
    var db' := Compiled(db, file, info, b);
    CompiledFamilies(layout, db, file, info, unit, b);
    D.LoadAfterWriteExactly(layout, db, file, unit.defined, b.symbols, b.definitionOps);
    DefinitionsAreLocal(layout, ApplyAll(db, b.definitionOps), db', file);
    if R.AgreeFor(db, file) {
      R.WriteSetsForwardRecord(db, file, NewReferences(layout, unit), b.keys, b.referenceOps);
    }
    ReferencesAreLocal(ApplyAll(db, b.referenceOps), db', file);
  }

  /** What a committed compile makes of the references of one file: of any other file nothing, of
      its own what WriteAgreesExactly and RecompileAgreesExactly say. */
  lemma CompileReferences(layout: D.Layout, db: Db, file: Path, info: FileBasicInfo, unit: TranslationUnit, b: Batch, g: Path)
    requires CompileBatch(layout, db, file, unit, b)
    ensures var db' := Compiled(db, file, info, b);
      && (g != file ==> (R.AgreeFor(db', g) <==> R.AgreeFor(db, g)) && (R.Unposted(db', g) <==> R.Unposted(db, g)))
      && (R.AgreeFor(db, file) ==>
            (R.AgreeFor(db', file) <==> R.OneChangePerSymbol(R.ReferencesOf(db, file), NewReferences(layout, unit))))
      && (R.Unposted(db, file) ==> (R.AgreeFor(db', file) <==> R.RecompileRestores(db, file, NewReferences(layout, unit))))
  {
    hide D.DefinitionBatch, R.ReferenceBatch, R.AgreeFor, R.Unposted, R.ReferencesOf, R.OneChangePerSymbol, R.RecompileRestores;
    var new_ := NewReferences(layout, unit);
    var refs, db' := ApplyAll(db, b.referenceOps), Compiled(db, file, info, b);
    CompiledFamilies(layout, db, file, info, unit, b);
    ReferencesAreLocal(refs, db', g);
    ReferencesAreLocal(refs, db', file);
    if g != file {
      R.WriteLeavesOtherAgreement(db, file, new_, b.keys, b.referenceOps, g);
    }
    if R.AgreeFor(db, file) {
      R.WriteAgreesExactly(db, file, new_, b.keys, b.referenceOps);
    }
    if R.Unposted(db, file) {
      R.RecompileAgreesExactly(db, file, new_, b.keys, b.referenceOps);
    }
  }

  /** A compile writes the stamp alone if and only if it found exactly what is stored. */
  lemma OnlyStampExactly(layout: D.Layout, db: Db, file: Path, info: FileBasicInfo, unit: TranslationUnit, b: Batch)
    requires R.AgreeFor(db, file) && CompileBatch(layout, db, file, unit, b)
    ensures CompileOps(file, info, b) == [PutFileInfo(file, info)]
       <==> D.DefinitionsOf(layout, db, file) == unit.defined && R.ReferencesOf(db, file) == NewReferences(layout, unit)
  {
    hide D.DefinitionBatch, R.ReferenceBatch, D.DefinitionsOf, R.ReferencesOf, R.AgreeFor;
    D.NothingWrittenExactly(layout, db, file, unit.defined, b.symbols, b.definitionOps);
    R.NothingWrittenExactly(db, file, NewReferences(layout, unit), b.keys, b.referenceOps);
    if CompileOps(file, info, b) == [PutFileInfo(file, info)] {
      assert |CompileOps(file, info, b)| == 1 + |b.definitionOps| + |b.referenceOps|;
    }
  }

  /** A committed compile stores the references under the modules of the paths that they lead to: in
      the forward record, and in the symbols' records when no symbol changes under two modules. */
  lemma CompileFilesByModule(layout: D.Layout, db: Db, file: Path, info: FileBasicInfo, unit: TranslationUnit, b: Batch)
    requires R.AgreeFor(db, file) && CompileBatch(layout, db, file, unit, b)
    ensures var db' := Compiled(db, file, info, b);
      && FiledByModule(layout, unit.referred, R.ReferencesOf(db', file))
      && (R.OneChangePerSymbol(R.ReferencesOf(db, file), R.ReferencesOf(db', file)) ==>
            forall s, m :: R.Posted(db', R.SymbolModule(s, m), file).Some?
              <==> exists p :: R.SymbolPath(s, p) in unit.referred && layout.ModuleOf(p) == m)
  {
    hide D.DefinitionBatch, R.ReferenceBatch, R.ReferencesOf, R.OneChangePerSymbol, R.Posted, R.Grouped, layout.ModuleOf;
    var db' := Compiled(db, file, info, b);
    CompiledFamilies(layout, db, file, info, unit, b);
    R.WriteSetsForwardRecord(db, file, NewReferences(layout, unit), b.keys, b.referenceOps);
    ReferencesAreLocal(ApplyAll(db, b.referenceOps), db', file);
    GroupedByModule(layout, unit.referred);
    CompileReferences(layout, db, file, info, unit, b, file);
    if R.OneChangePerSymbol(R.ReferencesOf(db, file), R.ReferencesOf(db', file)) {
      forall s, m
        ensures R.Posted(db', R.SymbolModule(s, m), file).Some?
           <==> exists p :: R.SymbolPath(s, p) in unit.referred && layout.ModuleOf(p) == m
      {
        assert R.Posted(db', R.SymbolModule(s, m), file) == Get(R.ReferencesOf(db', file), R.SymbolModule(s, m));
      }
    }
  }

  lemma CompileKeepsOnePerModule(layout: D.Layout, db: Db, file: Path, info: FileBasicInfo, unit: TranslationUnit, b: Batch)
    requires layout.Valid() && D.DefinedHere(layout, file, unit.defined)
    requires D.AllOnePerModule(layout, db) && CompileBatch(layout, db, file, unit, b)
    ensures D.AllOnePerModule(layout, Compiled(db, file, info, b))
  {
    hide D.DefinitionBatch, R.ReferenceBatch;
    CompiledFamilies(layout, db, file, info, unit, b);
    D.WriteKeepsOnePerModule(layout, db, file, unit.defined, b.symbols, b.definitionOps);
  }

  /** What erasing a file makes of the references of one file. */
  lemma ErasureReferences(layout: D.Layout, db: Db, file: Path, b: Batch, g: Path)
    requires ErasureBatch(layout, db, file, b)
    ensures var db' := Erased(db, file, b);
      && (g != file ==> (R.AgreeFor(db', g) <==> R.AgreeFor(db, g)) && (R.Unposted(db', g) <==> R.Unposted(db, g)))
      && (R.AgreeFor(db, file) ==> (R.Unposted(db', file) <==> R.OneModulePerSymbol(R.ReferencesOf(db, file))))
      && (R.Unposted(db, file) ==> R.Unposted(db', file))
      && R.ReferencesOf(db', file) == R.ReferencesOf(db, file)
  {
    hide D.DefinitionDeletion, R.ReferenceDeletion, R.AgreeFor, R.Unposted, R.ReferencesOf, R.OneModulePerSymbol;
    var refs, db' := ApplyAll(db, b.referenceOps), Erased(db, file, b);
    ErasedFamilies(layout, db, file, b);
    ReferencesAreLocal(refs, db', g);
    ReferencesAreLocal(refs, db', file);
    R.DeleteLeavesOthers(db, file, b.keys, b.referenceOps, file, R.SymbolModule("", ""));
    if g != file {
      R.DeleteLeavesOtherAgreement(db, file, b.keys, b.referenceOps, g);
    }
    if R.AgreeFor(db, file) {
      R.DeleteRemovesExactly(db, file, b.keys, b.referenceOps);
    }
    if R.Unposted(db, file) {
      R.DeleteKeepsUnposted(db, file, b.keys, b.referenceOps);
    }
  }

  lemma ErasureKeepsOnePerModule(layout: D.Layout, db: Db, file: Path, b: Batch)
    requires D.AllOnePerModule(layout, db) && ErasureBatch(layout, db, file, b)
    ensures D.AllOnePerModule(layout, Erased(db, file, b))
  {
    hide D.DefinitionDeletion, R.ReferenceDeletion;
    ErasedFamilies(layout, db, file, b);
    D.DeletionKeepsOnePerModule(layout, db, file, b.symbols, b.definitionOps);
  }

  /** What the erasure leaves of the file's posting under k: the last module of each symbol goes. */
  function LeftByErasure(e: Batch, old_: R.FileReferences, k: R.SymbolModule): Option<R.Places> {
    if R.LastChange(e.keys, k.symbol) == Some(k) then None else Get(old_, k)
  }

  /** The posting under k is right after the compile: it was written last, or what the erasure left
      is what the forward record says. */
  predicate Recovered(e: Batch, b: Batch, old_: R.FileReferences, new_: R.FileReferences, k: R.SymbolModule) {
    || R.LastChange(b.keys, k.symbol) == Some(k)
    || LeftByErasure(e, old_, k) == Get(if b.keys == [] then old_ else new_, k)
  }

  /** Erasing a file and compiling it again: the definitions come back exactly when they are seen,
      the references agree again exactly when every posting is recovered, and for a file that
      refers to each symbol under one module that is what RecompileRestores says. */
  lemma RebuildOutcome(layout: D.Layout, db: Db, file: Path, e: Batch, info: FileBasicInfo, unit: TranslationUnit, b: Batch)
    requires layout.Valid() && D.DefinedHere(layout, file, unit.defined)
    requires R.AgreeFor(db, file) && ErasureBatch(layout, db, file, e)
    requires CompileBatch(layout, Erased(db, file, e), file, unit, b)
    ensures var db1 := Erased(db, file, e);
      var db2 := Compiled(db1, file, info, b);
      var old_, new_ := R.ReferencesOf(db, file), NewReferences(layout, unit);
      && (D.DefinitionsOf(layout, db2, file) == unit.defined <==> DefinitionsSeen(layout, db1, file, unit.defined))
      && (R.AgreeFor(db2, file) <==> forall k: R.SymbolModule :: Recovered(e, b, old_, new_, k))
      && (R.OneModulePerSymbol(old_) ==> (R.AgreeFor(db2, file) <==> R.RecompileRestores(db1, file, new_)))
  {
    hide D.DefinitionBatch, R.ReferenceBatch, D.DefinitionDeletion, R.ReferenceDeletion, D.DefinitionsOf, DefinitionsSeen;
    hide R.AgreeFor, R.Unposted, R.OneModulePerSymbol, R.RecompileRestores, R.ReferencesOf, R.Posted, R.LastChange;
    hide Compiled, Erased;
    var db1 := Erased(db, file, e);
    var new_ := NewReferences(layout, unit);
    CompileLoadsBack(layout, db1, file, info, unit, b);
    CompileReferences(layout, db1, file, info, unit, b, file);
    ErasureReferences(layout, db, file, e, file);
    ErasedPlaces(layout, db, file, e);
    R.WriteAgreesInGeneral(db1, file, new_, b.keys, b.referenceOps);
    CompiledAgreement(layout, db1, file, info, unit, b);
    forall k: R.SymbolModule
      ensures Recovered(e, b, R.ReferencesOf(db, file), new_, k)
         <==> R.LastChange(b.keys, k.symbol) == Some(k) || R.Posted(db1, k, file) == Get(R.ForwardAfter(db1, file, new_, b.keys), k)
    {
    }
  }

  lemma ErasedPlaces(layout: D.Layout, db: Db, file: Path, e: Batch)
    requires R.AgreeFor(db, file) && ErasureBatch(layout, db, file, e)
    ensures forall k: R.SymbolModule :: R.Posted(Erased(db, file, e), k, file) == LeftByErasure(e, R.ReferencesOf(db, file), k)
  {
    hide D.DefinitionDeletion, R.ReferenceDeletion, R.ReferencesOf, R.Posted, R.LastChange;
    ErasedFamilies(layout, db, file, e);
    ReferencesAreLocal(ApplyAll(db, e.referenceOps), Erased(db, file, e), file);
    forall k: R.SymbolModule
      ensures R.Posted(Erased(db, file, e), k, file) == LeftByErasure(e, R.ReferencesOf(db, file), k)
    {
      R.DeletedPlaces(db, file, e.keys, e.referenceOps, k, file);
      assert R.Posted(db, k, file) == Get(R.ReferencesOf(db, file), k);
    }
  }

  lemma CompiledAgreement(layout: D.Layout, db: Db, file: Path, info: FileBasicInfo, unit: TranslationUnit, b: Batch)
    requires CompileBatch(layout, db, file, unit, b)
    ensures R.AgreeFor(Compiled(db, file, info, b), file) <==> R.AgreeFor(ApplyAll(db, b.referenceOps), file)
  {
    hide D.DefinitionBatch, R.ReferenceBatch, R.AgreeFor;
    CompiledFamilies(layout, db, file, info, unit, b);
    ReferencesAreLocal(ApplyAll(db, b.referenceOps), Compiled(db, file, info, b), file);
  }
}
