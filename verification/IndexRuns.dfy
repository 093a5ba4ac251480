/** What the runs of the build protocol do to the two indexes: to the definition records as a whole,
    to what one file sees of one symbol, and to the references of one file.  */
module IndexRuns {
  import opened Basics
  import opened SymbolDb
  import R = ReferenceIndex
  import D = DefinitionIndex
  import opened CompileCommit
  import opened BuildProtocol

  // ---------- one location per module ----------

  /** Every posted unit was compiled from the file it is posted for. */
  ghost predicate UnitsDefinedHere(layout: D.Layout, st: State) {
    forall m | m in st.shared.queue && m.WriteCompiled? :: D.DefinedHere(layout, m.path, m.unit.defined)
  }

  lemma StepKeepsUnits(layout: D.Layout, st: State, step: Step)
    requires Enabled(layout, st, step) && UnitsDefinedHere(layout, st)
    ensures UnitsDefinedHere(layout, Do(layout, st, step))
  {
    var st' := Do(layout, st, step);
    forall m | m in st'.shared.queue && m.WriteCompiled? ensures D.DefinedHere(layout, m.path, m.unit.defined) {
      if m !in st.shared.queue {
        assert step.ParseDone?;
      }
    }
  }

  lemma StepKeepsOnePerModule(layout: D.Layout, st: State, step: Step)
    requires layout.Valid() && Enabled(layout, st, step) && UnitsDefinedHere(layout, st)
    requires D.AllOnePerModule(layout, st.shared.db)
    ensures D.AllOnePerModule(layout, Do(layout, st, step).shared.db)
  {
    var sh := st.shared;
    if step.Handle? && sh.queue[0].WriteCompiled? {
      assert sh.queue[0] in sh.queue;
      CompileKeepsOnePerModule(layout, sh.db, sh.queue[0].path, sh.queue[0].info, sh.queue[0].unit, step.batch);
    } else if step.Rebuild? && step.p !in sh.inParsing {
      ErasureKeepsOnePerModule(layout, sh.db, step.p, step.erasure);
    } else if step.DeleteFile? && step.p in sh.sources {
      ErasureKeepsOnePerModule(layout, sh.db, step.p, step.erasure);
    } else {
      assert Do(layout, st, step).shared.db == sh.db;
    }
  }

  /** Over every run, deletions and rebuilds included, no definition record ever holds
      two locations of one module. */
  lemma {:induction false} RunsKeepOnePerModule(layout: D.Layout, st: State, steps: seq<Step>, st': State)
    requires layout.Valid() && Leads(layout, st, steps, st')
    requires D.AllOnePerModule(layout, st.shared.db) && UnitsDefinedHere(layout, st)
    ensures D.AllOnePerModule(layout, st'.shared.db) && UnitsDefinedHere(layout, st')
    decreases |steps|
  {
    if steps != [] {
      StepKeepsUnits(layout, st, steps[0]);
      StepKeepsOnePerModule(layout, st, steps[0]);
      RunsKeepOnePerModule(layout, Do(layout, st, steps[0]), steps[1..], st');
    }
  }

  // ---------- what a file sees of a symbol ----------

  /** The step leaves what f sees of s as it is: a condition on the state before it. */
  ghost predicate LeavesDefinition(layout: D.Layout, st: State, step: Step, s: Symbol, f: Path)
    requires D.QueryDefinition(layout, st.shared.db, s, f).IsValid()
  {
    var sh := st.shared;
    && (step.Handle? && sh.queue != [] && sh.queue[0].WriteCompiled? ==>
          D.WriteLeaves(layout, sh.db, sh.queue[0].path, sh.queue[0].unit.defined, s, f))
    && ((step.Rebuild? || step.DeleteFile?) && Erases(st, step, step.p) ==> D.DeletionLeaves(layout, sh.db, step.p, s, f))
  }

  lemma StepKeepsDefinitionExactly(layout: D.Layout, st: State, step: Step, s: Symbol, f: Path)
    requires layout.Valid() && Enabled(layout, st, step) && UnitsDefinedHere(layout, st) && D.AllOnePerModule(layout, st.shared.db)
    requires D.QueryDefinition(layout, st.shared.db, s, f).IsValid()
    ensures D.QueryDefinition(layout, Do(layout, st, step).shared.db, s, f) == D.QueryDefinition(layout, st.shared.db, s, f)
       <==> LeavesDefinition(layout, st, step, s, f)
  {
    hide D.QueryDefinition, D.WriteLeaves, D.DeletionLeaves, D.AllOnePerModule, D.DefinitionBatch, D.DefinitionDeletion;
    hide R.ReferenceBatch, R.ReferenceDeletion, Compiled, Erased;
    var sh := st.shared;
    if step.Handle? && sh.queue[0].WriteCompiled? {
      var head, b := sh.queue[0], step.batch;
      assert head in sh.queue;
      CompiledFamilies(layout, sh.db, head.path, head.info, head.unit, b);
      D.QueryKeptByWriteExactly(layout, sh.db, head.path, head.unit.defined, b.symbols, b.definitionOps, s, f);
      QueriesAreLocal(layout, ApplyAll(sh.db, b.definitionOps), Compiled(sh.db, head.path, head.info, b), s, f);
    } else if (step.Rebuild? || step.DeleteFile?) && Erases(st, step, step.p) {
      var b := step.erasure;
      ErasedFamilies(layout, sh.db, step.p, b);
      D.QueryKeptByDeletionExactly(layout, sh.db, step.p, b.symbols, b.definitionOps, s, f);
      QueriesAreLocal(layout, ApplyAll(sh.db, b.definitionOps), Erased(sh.db, step.p, b), s, f);
    } else {
      assert Do(layout, st, step).shared.db == sh.db;
    }
  }

  ghost predicate SeenThroughout(layout: D.Layout, st: State, steps: seq<Step>, s: Symbol, f: Path, loc: Location)
    decreases |steps|
  {
    D.QueryDefinition(layout, st.shared.db, s, f) == loc && (steps != [] ==>
      Enabled(layout, st, steps[0]) && SeenThroughout(layout, Do(layout, st, steps[0]), steps[1..], s, f, loc))
  }

  lemma SeenNow(layout: D.Layout, st: State, steps: seq<Step>, s: Symbol, f: Path, loc: Location)
    ensures SeenThroughout(layout, st, steps, s, f, loc) ==> D.QueryDefinition(layout, st.shared.db, s, f) == loc
  {
  }

  ghost predicate LeavesThroughout(layout: D.Layout, st: State, steps: seq<Step>, s: Symbol, f: Path)
    decreases |steps|
  {
    steps != [] ==>
      && Enabled(layout, st, steps[0])
      && D.QueryDefinition(layout, st.shared.db, s, f).IsValid() && LeavesDefinition(layout, st, steps[0], s, f)
      && LeavesThroughout(layout, Do(layout, st, steps[0]), steps[1..], s, f)
  }

  /** Over every run a file, with a module or without one, goes on seeing the same definition of a
      symbol if and only if each compile and erasure of the run leaves it. */
  lemma {:induction false} RunsKeepDefinitionExactly(layout: D.Layout, st: State, steps: seq<Step>, st': State, s: Symbol, f: Path, loc: Location)
    requires layout.Valid() && Leads(layout, st, steps, st') && UnitsDefinedHere(layout, st) && D.AllOnePerModule(layout, st.shared.db)
    requires D.QueryDefinition(layout, st.shared.db, s, f) == loc && loc.IsValid()
    ensures SeenThroughout(layout, st, steps, s, f, loc) <==> LeavesThroughout(layout, st, steps, s, f)
    decreases |steps|
  {
    hide Enabled, Do, LeavesDefinition, UnitsDefinedHere, D.AllOnePerModule, D.QueryDefinition;
    if steps != [] {
      var next := Do(layout, st, steps[0]);
      StepKeepsDefinitionExactly(layout, st, steps[0], s, f);
      StepKeepsUnits(layout, st, steps[0]);
      StepKeepsOnePerModule(layout, st, steps[0]);
      if D.QueryDefinition(layout, next.shared.db, s, f) == loc {
        RunsKeepDefinitionExactly(layout, next, steps[1..], st', s, f, loc);
      } else {
        SeenNow(layout, next, steps[1..], s, f, loc);
      }
    }
  }

  /** From the commit of its compile on, a file sees each location that the compile found and that it
      sees at all, up to the first step that does not leave it. */
  lemma CompiledDefinitionStays(layout: D.Layout, st: State, b: Batch, steps: seq<Step>, st': State, s: Symbol)
    requires layout.Valid() && Enabled(layout, st, Handle(b)) && st.shared.queue[0].WriteCompiled?
    requires Leads(layout, Do(layout, st, Handle(b)), steps, st') && UnitsDefinedHere(layout, st) && D.AllOnePerModule(layout, st.shared.db)
    requires var head := st.shared.queue[0];
      && s in head.unit.defined
      && (layout.ModuleOf(head.path) != "" || D.SeenWithoutModule(layout, st.shared.db, head.path, head.unit.defined, s))
    ensures var head, next := st.shared.queue[0], Do(layout, st, Handle(b));
      SeenThroughout(layout, next, steps, s, head.path, head.unit.defined[s]) <==> LeavesThroughout(layout, next, steps, s, head.path)
  {
    hide Leads, D.QueryDefinition, D.AllOnePerModule, D.DefinitionBatch, D.SeenWithoutModule, R.ReferenceBatch, Compiled;
    var sh, head := st.shared, st.shared.queue[0];
    var next := Do(layout, st, Handle(b));
    assert head in sh.queue;
    CompiledFamilies(layout, sh.db, head.path, head.info, head.unit, b);
    D.QueryAfterWriteExactly(layout, sh.db, head.path, head.unit.defined, b.symbols, b.definitionOps, s);
    QueriesAreLocal(layout, ApplyAll(sh.db, b.definitionOps), next.shared.db, s, head.path);
    layout.AbsIsStable(head.path);
    StepKeepsUnits(layout, st, Handle(b));
    StepKeepsOnePerModule(layout, st, Handle(b));
    hide Do, Enabled, UnitsDefinedHere;
    RunsKeepDefinitionExactly(layout, next, steps, st', s, head.path, head.unit.defined[s]);
  }

  // ---------- what a file's references go through ----------

  /** What is known of g's references: the indexes agree for it, or, between its erasure and its
      next compile, it has no postings. */
  ghost predicate RecordsHold(db: Db, g: Path, agreeing: bool) {
    if agreeing then R.AgreeFor(db, g) else R.Unposted(db, g)
  }

  predicate AgreesAfter(st: State, step: Step, g: Path, agreeing: bool) {
    Writes(st, step, g) || (agreeing && !Erases(st, step, g))
  }

  /** The condition on a step that touches g, read off the state before it; other steps are free. */
  ghost predicate GoodFor(layout: D.Layout, st: State, step: Step, g: Path, agreeing: bool) {
    var db := st.shared.db;
    && (Erases(st, step, g) && agreeing ==> R.OneModulePerSymbol(R.ReferencesOf(db, g)))
    && (Writes(st, step, g) ==>
          var new_ := NewReferences(layout, st.shared.queue[0].unit);
          if agreeing then R.OneChangePerSymbol(R.ReferencesOf(db, g), new_) else R.RecompileRestores(db, g, new_))
  }

  lemma StepAgreesExactly(layout: D.Layout, st: State, step: Step, g: Path, agreeing: bool)
    requires Enabled(layout, st, step) && RecordsHold(st.shared.db, g, agreeing)
    ensures RecordsHold(Do(layout, st, step).shared.db, g, AgreesAfter(st, step, g, agreeing)) <==> GoodFor(layout, st, step, g, agreeing)
  {
    hide Compiled, Erased, CompileBatch, ErasureBatch, NewReferences;
    hide R.AgreeFor, R.Unposted, R.OneModulePerSymbol, R.OneChangePerSymbol, R.RecompileRestores, R.ReferencesOf;
    var sh := st.shared;
    if step.Handle? && sh.queue[0].WriteCompiled? {
      CompileReferences(layout, sh.db, sh.queue[0].path, sh.queue[0].info, sh.queue[0].unit, step.batch, g);
    } else if (step.Rebuild? || step.DeleteFile?) && Erases(st, step, step.p) {
      ErasureReferences(layout, sh.db, step.p, step.erasure, g);
    } else {
      assert Do(layout, st, step).shared.db == sh.db;
    }
  }

  ghost predicate GoodThroughout(layout: D.Layout, st: State, steps: seq<Step>, g: Path, agreeing: bool)
    decreases |steps|
  {
    steps != [] ==>
      && Enabled(layout, st, steps[0]) && GoodFor(layout, st, steps[0], g, agreeing)
      && GoodThroughout(layout, Do(layout, st, steps[0]), steps[1..], g, AgreesAfter(st, steps[0], g, agreeing))
  }

  ghost predicate RecordsHoldThroughout(layout: D.Layout, st: State, steps: seq<Step>, g: Path, agreeing: bool)
    decreases |steps|
  {
    RecordsHold(st.shared.db, g, agreeing) && (steps != [] ==>
      && Enabled(layout, st, steps[0])
      && RecordsHoldThroughout(layout, Do(layout, st, steps[0]), steps[1..], g, AgreesAfter(st, steps[0], g, agreeing)))
  }

  /** Whether g's last erasure was followed by a compile. */
  ghost predicate AgreesAtEnd(layout: D.Layout, st: State, steps: seq<Step>, g: Path, agreeing: bool)
    decreases |steps|
  {
    if steps == [] then agreeing
    else
      && Enabled(layout, st, steps[0])
      && AgreesAtEnd(layout, Do(layout, st, steps[0]), steps[1..], g, AgreesAfter(st, steps[0], g, agreeing))
  }

  /** Over every run, whatever happens to other files: forward and inverse references of g agree
      after each compile of g, and g has no postings after each erasure of it, in every state, if and
      only if each step that touches g meets its condition. */
  lemma {:induction false} RunsAgreeExactly(layout: D.Layout, st: State, steps: seq<Step>, st': State, g: Path, agreeing: bool)
    requires Leads(layout, st, steps, st') && RecordsHold(st.shared.db, g, agreeing)
    ensures RecordsHoldThroughout(layout, st, steps, g, agreeing) <==> GoodThroughout(layout, st, steps, g, agreeing)
    decreases |steps|
  {
    hide RecordsHold, Enabled, Do, GoodFor, AgreesAfter;
    if steps != [] {
      var next, agrees := Do(layout, st, steps[0]), AgreesAfter(st, steps[0], g, agreeing);
      StepAgreesExactly(layout, st, steps[0], g, agreeing);
      if RecordsHold(next.shared.db, g, agrees) {
        RunsAgreeExactly(layout, next, steps[1..], st', g, agrees);
      } else {
        RecordsHoldNow(layout, next, steps[1..], g, agrees);
      }
    }
  }

  lemma RecordsHoldNow(layout: D.Layout, st: State, steps: seq<Step>, g: Path, agreeing: bool)
    ensures RecordsHoldThroughout(layout, st, steps, g, agreeing) ==> RecordsHold(st.shared.db, g, agreeing)
  {
  }

  lemma {:induction false} RunsKeepRecords(layout: D.Layout, st: State, steps: seq<Step>, st': State, g: Path, agreeing: bool)
    requires Leads(layout, st, steps, st') && RecordsHold(st.shared.db, g, agreeing)
    requires GoodThroughout(layout, st, steps, g, agreeing)
    ensures RecordsHold(st'.shared.db, g, AgreesAtEnd(layout, st, steps, g, agreeing))
    decreases |steps|
  {
    hide RecordsHold, Enabled, Do, GoodFor, AgreesAfter;
    if steps != [] {
      StepAgreesExactly(layout, st, steps[0], g, agreeing);
      RunsKeepRecords(layout, Do(layout, st, steps[0]), steps[1..], st', g, AgreesAfter(st, steps[0], g, agreeing));
    }
  }

  /** No step erases g, and no unit written for g changes one symbol under two modules. */
  ghost predicate GentleFor(layout: D.Layout, st: State, steps: seq<Step>, g: Path)
    decreases |steps|
  {
    steps != [] ==>
      && Enabled(layout, st, steps[0]) && !Erases(st, steps[0], g) && GoodFor(layout, st, steps[0], g, true)
      && GentleFor(layout, Do(layout, st, steps[0]), steps[1..], g)
  }

  /** Over every run the references of g agree throughout as long as g itself is treated gently;
      other files may be erased, rebuilt and written in any way. */
  lemma {:induction false} RunsKeepAgreementFor(layout: D.Layout, st: State, steps: seq<Step>, st': State, g: Path)
    requires Leads(layout, st, steps, st') && GentleFor(layout, st, steps, g) && R.AgreeFor(st.shared.db, g)
    ensures R.AgreeFor(st'.shared.db, g)
    decreases |steps|
  {
    hide R.AgreeFor, Enabled, Do, GoodFor, Erases, Writes;
    if steps != [] {
      StepAgreesExactly(layout, st, steps[0], g, true);
      assert AgreesAfter(st, steps[0], g, true);
      RunsKeepAgreementFor(layout, Do(layout, st, steps[0]), steps[1..], st', g);
    }
  }

  /** The same for the indexes as a whole. */
  lemma RunsKeepAgreement(layout: D.Layout, st: State, steps: seq<Step>, st': State)
    requires Leads(layout, st, steps, st') && R.Agree(st.shared.db)
    requires forall g :: GentleFor(layout, st, steps, g)
    ensures R.Agree(st'.shared.db)
  {
    hide R.AgreeFor, Leads, GentleFor;
    forall g ensures R.AgreeFor(st'.shared.db, g) {
      RunsKeepAgreementFor(layout, st, steps, st', g);
    }
  }
}
