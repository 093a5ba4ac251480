/** The build protocol between the main thread and the worker threads.  Main handlers run one
    at a time; a worker runs ClangParseFile, whose effects on shared state are separate steps
    here: taking a task, reading the file's stored stamp, posting the result, and posting the
    removal that the guard issues when the function returns.  */
module BuildProtocol {
  import opened Basics
  import opened SymbolDb
  import R = ReferenceIndex
  import D = DefinitionIndex
  import opened CompileCommit

  datatype Message =
    | WriteCompiled(path: Path, info: FileBasicInfo, unit: TranslationUnit)
    | RemoveParsing(path: Path)

  /** Where a worker is inside ClangParseFile. */
  datatype Worker =
    | Idle
    | Started(path: Path)
    | HasStored(path: Path, mtime: int, stored: FileBasicInfo)
    | Parsing(path: Path, info: FileBasicInfo)
    | Leaving(path: Path)

  /** State that the main thread owns, plus the two queues. */
  datatype Shared = Shared(
    db: Db,
    inParsing: set<Path>,
    sources: set<Path>,
    tasks: seq<Path>,
    queue: seq<Message>)

  /** The whole system.  `latest` and `lost` only record history: the stamp of the latest finished
      compile of each file since the file was last erased, and the files whose worker gave up
      before its guard existed. */
  datatype State = State(
    shared: Shared,
    workers: seq<Worker>,
    latest: map<Path, FileBasicInfo>,
    lost: set<Path>)

  // ---------- main thread operations ----------

  function BuildFile(sh: Shared, p: Path, hasFlags: bool): Shared {
    if p in sh.inParsing || !hasFlags then sh
    else sh.(inParsing := sh.inParsing + {p}, tasks := sh.tasks + [p])
  }

  function RebuildFile(sh: Shared, p: Path, hasFlags: bool, b: Batch): Shared {
    if p in sh.inParsing then sh
    else BuildFile(sh.(db := Erased(sh.db, p, b)), p, hasFlags)
  }

  function DeleteUnexistFile(sh: Shared, p: Path, b: Batch): Shared {
    if p !in sh.sources then sh
    else sh.(sources := sh.sources - {p}, inParsing := sh.inParsing - {p}, db := Erased(sh.db, p, b))
  }

  /** Run the oldest posted handler. */
  function HandleMessage(sh: Shared, b: Batch): Shared
    requires sh.queue != []
  {
    var rest := sh.(queue := sh.queue[1..]);
    match sh.queue[0]
    case WriteCompiled(p, info, unit) => rest.(db := Compiled(sh.db, p, info, b))
    case RemoveParsing(p) => rest.(inParsing := sh.inParsing - {p})
  }

  // ---------- steps ----------

  datatype Step =
    | Build(p: Path, hasFlags: bool)
    | Rebuild(p: Path, hasFlags: bool, erasure: Batch)
    | DeleteFile(p: Path, erasure: Batch)
    | SetSources(sources: set<Path>)
    | Handle(batch: Batch)
    | Take(w: nat)
    | StatFails(w: nat)
    | ReadStored(w: nat, mtime: int)
    | SameMtime(w: nat)
    | CheckMd5(w: nat, md5: string)
    | ParseFails(w: nat)
    | ParseDone(w: nat, unit: TranslationUnit)
    | Leave(w: nat)

  const NO_STAMP := FileBasicInfo(0, "")

  /** A missing record reads as the default message. */
  function StoredStamp(db: Db, p: Path): FileBasicInfo {
    if p in db.fileInfo then db.fileInfo[p] else NO_STAMP
  }

  ghost predicate Enabled(layout: D.Layout, st: State, step: Step) {
    var sh := st.shared;
    match step
    case Build(_, _) => true
    case SetSources(_) => true
    case Rebuild(p, _, e) => p !in sh.inParsing ==> ErasureBatch(layout, sh.db, p, e)
    case DeleteFile(p, e) => p in sh.sources ==> ErasureBatch(layout, sh.db, p, e)
    case Handle(b) =>
      sh.queue != [] && (sh.queue[0].WriteCompiled? ==> CompileBatch(layout, sh.db, sh.queue[0].path, sh.queue[0].unit, b))
    case Take(w) => w < |st.workers| && st.workers[w] == Idle && sh.tasks != []
    case StatFails(w) => w < |st.workers| && st.workers[w].Started?
    case ReadStored(w, _) => w < |st.workers| && st.workers[w].Started?
    case SameMtime(w) => w < |st.workers| && st.workers[w].HasStored? && st.workers[w].stored.lastMtime == st.workers[w].mtime
    case CheckMd5(w, _) => w < |st.workers| && st.workers[w].HasStored? && st.workers[w].stored.lastMtime != st.workers[w].mtime
    case ParseFails(w) => w < |st.workers| && st.workers[w].Parsing?
    case ParseDone(w, unit) => w < |st.workers| && st.workers[w].Parsing? && D.DefinedHere(layout, st.workers[w].path, unit.defined)
    case Leave(w) => w < |st.workers| && st.workers[w].Leaving?
  }

  function SetWorker(st: State, w: nat, x: Worker): State
    requires w < |st.workers|
  {
    st.(workers := st.workers[w := x])
  }

  function Post(st: State, m: Message): State {
    st.(shared := st.shared.(queue := st.shared.queue + [m]))
  }

  ghost function Do(layout: D.Layout, st: State, step: Step): State
    requires Enabled(layout, st, step)
  {
    var sh := st.shared;
    match step
    case Build(p, hasFlags) => st.(shared := BuildFile(sh, p, hasFlags))
    case Rebuild(p, hasFlags, e) =>
      st.(shared := RebuildFile(sh, p, hasFlags, e),
          latest := if p in sh.inParsing then st.latest else st.latest - {p})
    case DeleteFile(p, e) =>
      if p !in sh.sources then st
      else st.(shared := DeleteUnexistFile(sh, p, e), latest := st.latest - {p}, lost := st.lost - {p})
    case SetSources(s) => st.(shared := sh.(sources := s))
    case Handle(b) =>
      st.(shared := HandleMessage(sh, b),
          lost := if sh.queue[0].RemoveParsing? then st.lost - {sh.queue[0].path} else st.lost)
    case Take(w) => SetWorker(st.(shared := sh.(tasks := sh.tasks[1..])), w, Started(sh.tasks[0]))
    case StatFails(w) => SetWorker(st, w, Idle).(lost := st.lost + {st.workers[w].path})
    case ReadStored(w, mtime) =>
      SetWorker(st, w, HasStored(st.workers[w].path, mtime, StoredStamp(sh.db, st.workers[w].path)))
    case SameMtime(w) => SetWorker(st, w, Leaving(st.workers[w].path))
    case CheckMd5(w, md5) =>
      var x := st.workers[w];
      SetWorker(st, w, if x.stored.contentMd5 == md5 then Leaving(x.path) else Parsing(x.path, FileBasicInfo(x.mtime, md5)))
    case ParseFails(w) => SetWorker(st, w, Leaving(st.workers[w].path))
    case ParseDone(w, unit) =>
      var x := st.workers[w];
      SetWorker(Post(st, WriteCompiled(x.path, x.info, unit)), w, Leaving(x.path)).(latest := st.latest[x.path := x.info])
    case Leave(w) => SetWorker(Post(st, RemoveParsing(st.workers[w].path)), w, Idle)
  }

  /** Running `steps` one after the other takes st to st'. */
  ghost predicate Leads(layout: D.Layout, st: State, steps: seq<Step>, st': State)
    decreases |steps|
  {
    if steps == [] then st == st'
    else Enabled(layout, st, steps[0]) && Leads(layout, Do(layout, st, steps[0]), steps[1..], st')
  }

  lemma {:induction false} LeadsOn(layout: D.Layout, a: State, s: seq<Step>, b: State, t: seq<Step>, c: State)
    requires Leads(layout, a, s, b) && Leads(layout, b, t, c)
    ensures Leads(layout, a, s + t, c)
    decreases |s|
  {
    if s == [] {
      assert s + t == t;
    } else {
      LeadsOn(layout, Do(layout, a, s[0]), s[1..], b, t, c);
      assert (s + t)[1..] == s[1..] + t;
    }
  }

  lemma OneStep(layout: D.Layout, st: State, step: Step)
    requires Enabled(layout, st, step)
    ensures Leads(layout, st, [step], Do(layout, st, step))
  {
    assert [step][1..] == [];
  }

  /** The steps take the main thread's state from sh to sh', whatever the workers are doing, and leave
      the workers and the history alone. */
  ghost predicate SharedLeads(layout: D.Layout, sh: Shared, steps: seq<Step>, sh': Shared) {
    forall st: State | st.shared == sh :: Leads(layout, st, steps, st.(shared := sh'))
  }

  lemma SharedStays(layout: D.Layout, sh: Shared)
    ensures SharedLeads(layout, sh, [], sh)
  {
  }

  lemma SharedLeadsOn(layout: D.Layout, a: Shared, s: seq<Step>, b: Shared, t: seq<Step>, c: Shared)
    requires SharedLeads(layout, a, s, b) && SharedLeads(layout, b, t, c)
    ensures SharedLeads(layout, a, s + t, c)
  {
    hide Leads;
    forall st: State | st.shared == a ensures Leads(layout, st, s + t, st.(shared := c)) {
      LeadsOn(layout, st, s, st.(shared := b), t, st.(shared := c));
    }
  }

  lemma SharedSetSources(layout: D.Layout, sh: Shared, sources: set<Path>)
    ensures SharedLeads(layout, sh, [SetSources(sources)], sh.(sources := sources))
  {
    forall st: State | st.shared == sh ensures Leads(layout, st, [SetSources(sources)], st.(shared := sh.(sources := sources))) {
      OneStep(layout, st, SetSources(sources));
    }
  }

  lemma SharedBuild(layout: D.Layout, a: Shared, s: seq<Step>, b: Shared, p: Path, hasFlags: bool)
    requires SharedLeads(layout, a, s, b)
    ensures SharedLeads(layout, a, s + [Build(p, hasFlags)], BuildFile(b, p, hasFlags))
  {
    forall st: State | st.shared == b ensures Leads(layout, st, [Build(p, hasFlags)], st.(shared := BuildFile(b, p, hasFlags))) {
      OneStep(layout, st, Build(p, hasFlags));
    }
    SharedLeadsOn(layout, a, s, b, [Build(p, hasFlags)], BuildFile(b, p, hasFlags));
  }

  lemma SharedDeletesNothing(layout: D.Layout, a: Shared, s: seq<Step>, b: Shared, p: Path, e: Batch)
    requires SharedLeads(layout, a, s, b) && p !in b.sources
    ensures SharedLeads(layout, a, s + [DeleteFile(p, e)], b)
  {
    forall st: State | st.shared == b ensures Leads(layout, st, [DeleteFile(p, e)], st.(shared := b)) {
      OneStep(layout, st, DeleteFile(p, e));
    }
    SharedLeadsOn(layout, a, s, b, [DeleteFile(p, e)], b);
  }

  ghost predicate Initial(st: State) {
    && st.shared.inParsing == {} && st.shared.tasks == [] && st.shared.queue == []
    && (forall w | 0 <= w < |st.workers| :: st.workers[w] == Idle)
    && st.latest == st.shared.db.fileInfo && st.lost == {}
  }

  /** The step erases what is stored for g. */
  predicate Erases(st: State, step: Step, g: Path) {
    || (step.Rebuild? && step.p == g && g !in st.shared.inParsing)
    || (step.DeleteFile? && step.p == g && g in st.shared.sources)
  }

  /** The step commits a compile of g. */
  predicate Writes(st: State, step: Step, g: Path) {
    step.Handle? && st.shared.queue != [] && st.shared.queue[0].WriteCompiled? && st.shared.queue[0].path == g
  }

  // ---------- build tokens ----------

  function WorkerToken(x: Worker, p: Path): nat {
    if !x.Idle? && x.path == p then 1 else 0
  }

  function WorkerTokens(ws: seq<Worker>, p: Path): nat {
    if ws == [] then 0 else WorkerToken(ws[0], p) + WorkerTokens(ws[1..], p)
  }

  function MessageToken(m: Message, p: Path): nat {
    if m == RemoveParsing(p) then 1 else 0
  }

  function QueueTokens(ms: seq<Message>, p: Path): nat {
    if ms == [] then 0 else MessageToken(ms[0], p) + QueueTokens(ms[1..], p)
  }

  function TaskTokens(ts: seq<Path>, p: Path): nat {
    if ts == [] then 0 else (if ts[0] == p then 1 else 0) + TaskTokens(ts[1..], p)
  }

  /** How many builds of p are queued, running, or about to be removed. */
  function Tokens(st: State, p: Path): nat {
    TaskTokens(st.shared.tasks, p) + WorkerTokens(st.workers, p) + QueueTokens(st.shared.queue, p)
  }

  lemma {:induction false} WorkerTokensUpdate(ws: seq<Worker>, w: nat, x: Worker, p: Path)
    requires w < |ws|
    ensures WorkerTokens(ws[w := x], p) == WorkerTokens(ws, p) - WorkerToken(ws[w], p) + WorkerToken(x, p)
  {
    if w > 0 {
      WorkerTokensUpdate(ws[1..], w - 1, x, p);
      assert ws[w := x][1..] == ws[1..][w - 1 := x];
    }
  }

  lemma {:induction false} WorkerHolds(ws: seq<Worker>, w: nat, p: Path)
    requires w < |ws|
    ensures WorkerToken(ws[w], p) <= WorkerTokens(ws, p)
  {
    if w > 0 {
      WorkerHolds(ws[1..], w - 1, p);
    }
  }

  /** Two different workers on one path hold two tokens. */
  lemma TwoWorkersHold(ws: seq<Worker>, v: nat, w: nat, p: Path)
    requires v < |ws| && w < |ws| && v != w
    ensures WorkerToken(ws[v], p) + WorkerToken(ws[w], p) <= WorkerTokens(ws, p)
  {
    WorkerTokensUpdate(ws, v, Idle, p);
    WorkerHolds(ws[v := Idle], w, p);
  }

  lemma {:induction false} QueueHolds(ms: seq<Message>, i: nat, p: Path)
    requires i < |ms|
    ensures MessageToken(ms[i], p) <= QueueTokens(ms, p)
  {
    if i > 0 {
      QueueHolds(ms[1..], i - 1, p);
    }
  }

  lemma {:induction false} QueueTokensPush(ms: seq<Message>, m: Message, p: Path)
    ensures QueueTokens(ms + [m], p) == QueueTokens(ms, p) + MessageToken(m, p)
  {
    if ms != [] {
      QueueTokensPush(ms[1..], m, p);
      assert (ms + [m])[1..] == ms[1..] + [m];
    }
  }

  lemma {:induction false} TaskTokensPush(ts: seq<Path>, t: Path, p: Path)
    ensures TaskTokens(ts + [t], p) == TaskTokens(ts, p) + if t == p then 1 else 0
  {
    if ts != [] {
      TaskTokensPush(ts[1..], t, p);
      assert (ts + [t])[1..] == ts[1..] + [t];
    }
  }

  // ---------- the invariant ----------

  /** A path in in_parsing_files_ has one live build, unless its build was lost; a live build's path
      is in in_parsing_files_. */
  ghost predicate TokensMatch(st: State, p: Path) {
    && (p in st.lost ==> p in st.shared.inParsing)
    && Tokens(st, p) == if p in st.shared.inParsing && p !in st.lost then 1 else 0
  }

  predicate WritesAt(st: State, i: int, p: Path) {
    0 <= i < |st.shared.queue| && st.shared.queue[i].WriteCompiled? && st.shared.queue[i].path == p
  }

  ghost predicate Pending(st: State, p: Path) {
    exists i :: WritesAt(st, i, p)
  }

  /** A write of p posted at i is followed by the removal of the same build: already posted, or
      still to be posted by a worker that is leaving. */
  ghost predicate Covered(st: State, i: nat, p: Path) {
    || (exists j :: i < j < |st.shared.queue| && st.shared.queue[j] == RemoveParsing(p))
    || (exists w :: 0 <= w < |st.workers| && st.workers[w] == Leaving(p))
  }

  ghost predicate WritesCovered(st: State, p: Path) {
    forall i | WritesAt(st, i, p) :: Covered(st, i, p)
  }

  /** The latest finished compile of p is either still to be written or what the database holds. */
  ghost predicate HistoryMatches(st: State, p: Path) {
    && (forall i | WritesAt(st, i, p) :: Get(st.latest, p) == Some(st.shared.queue[i].info))
    && (Pending(st, p) || Get(st.latest, p) == Get(st.shared.db.fileInfo, p))
  }

  ghost predicate InvFor(st: State, p: Path) {
    TokensMatch(st, p) && WritesCovered(st, p) && HistoryMatches(st, p)
  }

  /** The step does not delete p while a build of it is live. */
  predicate DeletesIdle(st: State, step: Step, p: Path) {
    step.DeleteFile? && step.p == p && p in st.shared.sources ==> p !in st.shared.inParsing || p in st.lost
  }

  // ---------- each step keeps the invariant ----------

  lemma QueueTokensHead(ms: seq<Message>, p: Path)
    requires ms != []
    ensures QueueTokens(ms, p) == MessageToken(ms[0], p) + QueueTokens(ms[1..], p)
  {
  }

  lemma TaskTokensHead(ts: seq<Path>, p: Path)
    requires ts != []
    ensures TaskTokens(ts, p) == (if ts[0] == p then 1 else 0) + TaskTokens(ts[1..], p)
  {
  }

  lemma StepTokens(layout: D.Layout, st: State, step: Step, p: Path)
    requires Enabled(layout, st, step)
    ensures Tokens(Do(layout, st, step), p) == Tokens(st, p) + Gained(st, step, p) - Spent(st, step, p)
  {
    hide Compiled, Erased, CompileBatch, ErasureBatch, WorkerTokens, TaskTokens, QueueTokens;
    var sh := st.shared;
    match step
    case Build(q, hasFlags) => TaskTokensPush(sh.tasks, q, p);
    case Rebuild(q, hasFlags, e) => TaskTokensPush(sh.tasks, q, p);
    case DeleteFile(_, _) =>
    case SetSources(_) =>
    case Handle(_) => QueueTokensHead(sh.queue, p);
    case Take(w) =>
      TaskTokensHead(sh.tasks, p);
      WorkerTokensUpdate(st.workers, w, Started(sh.tasks[0]), p);
    case StatFails(w) => WorkerTokensUpdate(st.workers, w, Idle, p);
    case ReadStored(w, mtime) => WorkerTokensUpdate(st.workers, w, Do(layout, st, step).workers[w], p);
    case SameMtime(w) => WorkerTokensUpdate(st.workers, w, Do(layout, st, step).workers[w], p);
    case CheckMd5(w, md5) => WorkerTokensUpdate(st.workers, w, Do(layout, st, step).workers[w], p);
    case ParseFails(w) => WorkerTokensUpdate(st.workers, w, Do(layout, st, step).workers[w], p);
    case ParseDone(w, unit) =>
      QueueTokensPush(sh.queue, WriteCompiled(st.workers[w].path, st.workers[w].info, unit), p);
      WorkerTokensUpdate(st.workers, w, Leaving(st.workers[w].path), p);
    case Leave(w) =>
      QueueTokensPush(sh.queue, RemoveParsing(st.workers[w].path), p);
      WorkerTokensUpdate(st.workers, w, Idle, p);
  }

  /** Only starting a build makes a token. */
  function Gained(st: State, step: Step, p: Path): nat {
    if (step.Build? || step.Rebuild?) && step.p == p && p !in st.shared.inParsing && step.hasFlags then 1 else 0
  }

  /** Only handling a removal, or a failed stat, spends one. */
  ghost function Spent(st: State, step: Step, p: Path): nat {
    if step.Handle? && st.shared.queue != [] && st.shared.queue[0] == RemoveParsing(p) then 1
    else if step.StatFails? && step.w < |st.workers| && st.workers[step.w] == Started(p) then 1
    else 0
  }

  lemma StepKeepsTokensMatch(layout: D.Layout, st: State, step: Step, p: Path)
    requires Enabled(layout, st, step) && TokensMatch(st, p) && DeletesIdle(st, step, p)
    ensures TokensMatch(Do(layout, st, step), p)
  {
    hide Compiled, Erased, CompileBatch, ErasureBatch, Tokens;
    StepTokens(layout, st, step, p);
    if step.Handle? && st.shared.queue[0] == RemoveParsing(p) {
      QueueIsLive(st, 0, p);
    }
    if step.StatFails? && st.workers[step.w] == Started(p) {
      WorkerIsLive(st, step.w, p);
    }
  }

  lemma QueueIsLive(st: State, i: nat, p: Path)
    requires i < |st.shared.queue| && st.shared.queue[i] == RemoveParsing(p)
    ensures Tokens(st, p) >= 1
  {
    QueueHolds(st.shared.queue, i, p);
  }

  lemma WorkerIsLive(st: State, w: nat, p: Path)
    requires w < |st.workers| && !st.workers[w].Idle? && st.workers[w].path == p
    ensures Tokens(st, p) >= 1
  {
    WorkerHolds(st.workers, w, p);
  }

  /** A pending write means a live build, and not one that is still before its guard's end. */
  lemma PendingHasToken(st: State, p: Path)
    requires WritesCovered(st, p) && Pending(st, p)
    ensures Tokens(st, p) >= 1
    ensures forall w | 0 <= w < |st.workers| && !st.workers[w].Idle? && !st.workers[w].Leaving? && st.workers[w].path == p ::
      Tokens(st, p) >= 2
  {
    var i :| WritesAt(st, i, p);
    assert Covered(st, i, p);
    if j :| i < j < |st.shared.queue| && st.shared.queue[j] == RemoveParsing(p) {
      QueueHolds(st.shared.queue, j, p);
      forall w | 0 <= w < |st.workers| ensures WorkerToken(st.workers[w], p) <= WorkerTokens(st.workers, p) {
        WorkerHolds(st.workers, w, p);
      }
    } else {
      var v :| 0 <= v < |st.workers| && st.workers[v] == Leaving(p);
      WorkerHolds(st.workers, v, p);
      forall w | 0 <= w < |st.workers| && !st.workers[w].Idle? && !st.workers[w].Leaving? && st.workers[w].path == p
        ensures Tokens(st, p) >= 2
      {
        TwoWorkersHold(st.workers, v, w, p);
      }
    }
  }

  /** While a worker has not yet finished p, no write of p is pending. */
  lemma BusyMeansNothingPending(st: State, w: nat, p: Path)
    requires TokensMatch(st, p) && WritesCovered(st, p) && w < |st.workers|
    requires !st.workers[w].Idle? && !st.workers[w].Leaving? && st.workers[w].path == p
    ensures !Pending(st, p)
  {
    hide Tokens;
    assert Tokens(st, p) <= 1;
    if Pending(st, p) {
      PendingHasToken(st, p);
    }
  }

  /** Nor while p has no live build. */
  lemma IdleMeansNothingPending(st: State, p: Path)
    requires TokensMatch(st, p) && WritesCovered(st, p) && (p !in st.shared.inParsing || p in st.lost)
    ensures !Pending(st, p)
  {
    hide Tokens;
    if Pending(st, p) {
      PendingHasToken(st, p);
    }
  }

  lemma StepKeepsWritesCovered(layout: D.Layout, st: State, step: Step, p: Path)
    requires Enabled(layout, st, step) && WritesCovered(st, p)
    ensures WritesCovered(Do(layout, st, step), p)
  {
    hide Compiled, Erased, CompileBatch, ErasureBatch;
    var st' := Do(layout, st, step);
    var shift := if step.Handle? then 1 else 0;
    forall i | WritesAt(st', i, p) ensures Covered(st', i, p) {
      if i + shift < |st.shared.queue| {
        assert WritesAt(st, i + shift, p);
        CoverMoves(layout, st, step, i + shift, p);
      } else {
        assert step.ParseDone?;
        assert st'.workers[step.w] == Leaving(p);
      }
    }
  }

  lemma CoverMoves(layout: D.Layout, st: State, step: Step, i: nat, p: Path)
    requires Enabled(layout, st, step) && Covered(st, i, p) && i < |st.shared.queue| && (step.Handle? ==> i > 0)
    ensures Covered(Do(layout, st, step), if step.Handle? then i - 1 else i, p)
  {
    hide Compiled, Erased, CompileBatch, ErasureBatch;
    var st' := Do(layout, st, step);
    var shift := if step.Handle? then 1 else 0;
    if j :| i < j < |st.shared.queue| && st.shared.queue[j] == RemoveParsing(p) {
      assert st'.shared.queue[j - shift] == RemoveParsing(p);
    } else {
      var v :| 0 <= v < |st.workers| && st.workers[v] == Leaving(p);
      if step.Leave? && step.w == v {
        assert st'.shared.queue[|st.shared.queue|] == RemoveParsing(p);
      } else {
        assert st'.workers[v] == Leaving(p);
      }
    }
  }

  lemma HandleKeepsHistory(layout: D.Layout, st: State, b: Batch, p: Path)
    requires Enabled(layout, st, Handle(b)) && HistoryMatches(st, p)
    ensures HistoryMatches(Do(layout, st, Handle(b)), p)
  {
    hide Compiled, CompileBatch;
    var st' := Do(layout, st, Handle(b));
    var head := st.shared.queue[0];
    if head.WriteCompiled? {
      CompiledFamilies(layout, st.shared.db, head.path, head.info, head.unit, b);
    }
    forall i ensures WritesAt(st', i, p) <==> i >= 0 && WritesAt(st, i + 1, p) {
    }
    if Pending(st, p) {
      var i :| WritesAt(st, i, p);
      if i > 0 {
        assert WritesAt(st', i - 1, p);
      }
    }
  }

  lemma ParseDoneKeepsHistory(layout: D.Layout, st: State, w: nat, unit: TranslationUnit, p: Path)
    requires Enabled(layout, st, ParseDone(w, unit)) && InvFor(st, p)
    ensures HistoryMatches(Do(layout, st, ParseDone(w, unit)), p)
  {
    hide Tokens, Covered;
    var st' := Do(layout, st, ParseDone(w, unit));
    var n := |st.shared.queue|;
    forall i ensures WritesAt(st', i, p) <==> WritesAt(st, i, p) || (i == n && st.workers[w].path == p) {
    }
    if st.workers[w].path == p {
      BusyMeansNothingPending(st, w, p);
      assert WritesAt(st', n, p);
    } else if Pending(st, p) {
      var i :| WritesAt(st, i, p);
      assert WritesAt(st', i, p);
    }
  }

  lemma ErasureKeepsHistory(layout: D.Layout, st: State, step: Step, p: Path)
    requires Enabled(layout, st, step) && InvFor(st, p) && DeletesIdle(st, step, p)
    requires step.Rebuild? || step.DeleteFile?
    ensures HistoryMatches(Do(layout, st, step), p)
  {
    hide Tokens, Covered, Erased, ErasureBatch;
    var st' := Do(layout, st, step);
    assert st'.shared.queue == st.shared.queue;
    assert forall i :: WritesAt(st', i, p) <==> WritesAt(st, i, p);
    if Erases(st, step, step.p) {
      ErasedFamilies(layout, st.shared.db, step.p, step.erasure);
      if step.p == p {
        IdleMeansNothingPending(st, p);
      }
    }
  }

  lemma OtherStepsKeepHistory(layout: D.Layout, st: State, step: Step, p: Path)
    requires Enabled(layout, st, step) && HistoryMatches(st, p)
    requires !step.Handle? && !step.ParseDone? && !step.Rebuild? && !step.DeleteFile?
    ensures HistoryMatches(Do(layout, st, step), p)
  {
    var st' := Do(layout, st, step);
    assert st.shared.queue <= st'.shared.queue && st'.shared.db == st.shared.db && st'.latest == st.latest;
    assert forall i :: WritesAt(st', i, p) <==> WritesAt(st, i, p);
  }

  lemma StepKeepsInv(layout: D.Layout, st: State, step: Step, p: Path)
    requires Enabled(layout, st, step) && InvFor(st, p) && DeletesIdle(st, step, p)
    ensures InvFor(Do(layout, st, step), p)
  {
    StepKeepsTokensMatch(layout, st, step, p);
    StepKeepsWritesCovered(layout, st, step, p);
    hide Enabled, Do, TokensMatch, WritesCovered, HistoryMatches;
    if step.Handle? {
      HandleKeepsHistory(layout, st, step.batch, p);
    } else if step.ParseDone? {
      ParseDoneKeepsHistory(layout, st, step.w, step.unit, p);
    } else if step.Rebuild? || step.DeleteFile? {
      ErasureKeepsHistory(layout, st, step, p);
    } else {
      OtherStepsKeepHistory(layout, st, step, p);
    }
  }

  /** A step keeps what holds of p if and only if it does not delete p while a build of it is live. */
  lemma StepKeepsInvExactly(layout: D.Layout, st: State, step: Step, p: Path)
    requires Enabled(layout, st, step) && InvFor(st, p)
    ensures InvFor(Do(layout, st, step), p) <==> DeletesIdle(st, step, p)
  {
    if DeletesIdle(st, step, p) {
      StepKeepsInv(layout, st, step, p);
    } else {
      hide Tokens, WritesCovered, HistoryMatches;
      StepTokens(layout, st, step, p);
    }
  }

  // ---------- runs ----------

  lemma InitialInv(st: State, p: Path)
    requires Initial(st)
    ensures InvFor(st, p)
  {
    AllIdle(st.workers, p);
  }

  lemma {:induction false} AllIdle(ws: seq<Worker>, p: Path)
    requires forall w | 0 <= w < |ws| :: ws[w] == Idle
    ensures WorkerTokens(ws, p) == 0
  {
    if ws != [] {
      AllIdle(ws[1..], p);
    }
  }

  /** No step of the run deletes p while a build of it is live; what other paths do is free. */
  ghost predicate IdleDeletes(layout: D.Layout, st: State, steps: seq<Step>, p: Path)
    decreases |steps|
  {
    steps != [] ==>
      Enabled(layout, st, steps[0]) && DeletesIdle(st, steps[0], p) && IdleDeletes(layout, Do(layout, st, steps[0]), steps[1..], p)
  }

  ghost predicate InvThroughout(layout: D.Layout, st: State, steps: seq<Step>, p: Path)
    decreases |steps|
  {
    InvFor(st, p) && (steps != [] ==>
      Enabled(layout, st, steps[0]) && InvThroughout(layout, Do(layout, st, steps[0]), steps[1..], p))
  }

  lemma {:induction false} RunsKeepInv(layout: D.Layout, st: State, steps: seq<Step>, st': State, p: Path)
    requires Leads(layout, st, steps, st') && InvFor(st, p) && IdleDeletes(layout, st, steps, p)
    ensures InvFor(st', p)
    decreases |steps|
  {
    hide InvFor, Enabled, Do, DeletesIdle;
    if steps != [] {
      StepKeepsInv(layout, st, steps[0], p);
      RunsKeepInv(layout, Do(layout, st, steps[0]), steps[1..], st', p);
    }
  }

  /** The invariant holds for p in every state of a run if and only if the run deletes p only while
      no build of it is live. */
  lemma {:induction false} RunsKeepInvExactly(layout: D.Layout, st: State, steps: seq<Step>, st': State, p: Path)
    requires Leads(layout, st, steps, st') && InvFor(st, p)
    ensures InvThroughout(layout, st, steps, p) <==> IdleDeletes(layout, st, steps, p)
    decreases |steps|
  {
    hide InvFor, Enabled, Do, DeletesIdle;
    if steps != [] {
      var next := Do(layout, st, steps[0]);
      StepKeepsInvExactly(layout, st, steps[0], p);
      if InvFor(next, p) {
        RunsKeepInvExactly(layout, next, steps[1..], st', p);
      } else {
        ThroughoutNow(layout, next, steps[1..], p);
      }
    }
  }

  lemma ThroughoutNow(layout: D.Layout, st: State, steps: seq<Step>, p: Path)
    ensures InvThroughout(layout, st, steps, p) ==> InvFor(st, p)
  {
  }

  /** The step starts a build of p while another one is live. */
  predicate StartsSecond(st: State, step: Step, p: Path) {
    Gained(st, step, p) == 1 && Tokens(st, p) >= 1
  }

  ghost predicate StartsOneAtATime(layout: D.Layout, st: State, steps: seq<Step>, p: Path)
    decreases |steps|
  {
    steps != [] ==>
      && Enabled(layout, st, steps[0]) && !StartsSecond(st, steps[0], p)
      && StartsOneAtATime(layout, Do(layout, st, steps[0]), steps[1..], p)
  }

  ghost predicate OneBuildThroughout(layout: D.Layout, st: State, steps: seq<Step>, p: Path)
    decreases |steps|
  {
    Tokens(st, p) <= 1 && (steps != [] ==>
      Enabled(layout, st, steps[0]) && OneBuildThroughout(layout, Do(layout, st, steps[0]), steps[1..], p))
  }

  lemma OneBuildNow(layout: D.Layout, st: State, steps: seq<Step>, p: Path)
    ensures OneBuildThroughout(layout, st, steps, p) ==> Tokens(st, p) <= 1
  {
  }

  /** Deletions or not, p has at most one live build in every state of a run if and only if no step
      starts a build of it while another one is live. */
  lemma {:induction false} RunsKeepOneBuildExactly(layout: D.Layout, st: State, steps: seq<Step>, st': State, p: Path)
    requires Leads(layout, st, steps, st') && Tokens(st, p) <= 1
    ensures OneBuildThroughout(layout, st, steps, p) <==> StartsOneAtATime(layout, st, steps, p)
    decreases |steps|
  {
    hide Tokens, Enabled, Do;
    if steps != [] {
      var next := Do(layout, st, steps[0]);
      StepTokens(layout, st, steps[0], p);
      if Tokens(next, p) <= 1 {
        RunsKeepOneBuildExactly(layout, next, steps[1..], st', p);
      } else {
        OneBuildNow(layout, next, steps[1..], p);
      }
    }
  }

  /** A second build is started only after a deletion during a build: where the invariant holds,
      each start finds no live build. */
  lemma {:induction false} SecondStartNeedsDeletion(layout: D.Layout, st: State, steps: seq<Step>, st': State, p: Path)
    requires Leads(layout, st, steps, st') && InvFor(st, p) && IdleDeletes(layout, st, steps, p)
    ensures StartsOneAtATime(layout, st, steps, p)
    decreases |steps|
  {
    hide Tokens, Enabled, Do, DeletesIdle, WritesCovered, HistoryMatches;
    if steps != [] {
      StepKeepsInv(layout, st, steps[0], p);
      SecondStartNeedsDeletion(layout, Do(layout, st, steps[0]), steps[1..], st', p);
    }
  }

  /** In every run that does not delete p while it is built, p has at most one live build, and has
      one exactly when it is in in_parsing_files_ and was not lost. */
  lemma OneBuildPerPath(layout: D.Layout, st: State, steps: seq<Step>, st': State, p: Path)
    requires Initial(st) && Leads(layout, st, steps, st') && IdleDeletes(layout, st, steps, p)
    ensures Tokens(st', p) <= 1
    ensures Tokens(st', p) == 1 <==> p in st'.shared.inParsing && p !in st'.lost
  {
    hide Tokens, WritesCovered, HistoryMatches, Initial;
    InitialInv(st, p);
    RunsKeepInv(layout, st, steps, st', p);
  }

  /** When a worker is about to read a file's stored stamp, no write of that file is pending and
      the stamp is that of the latest finished compile: the skip test never uses an older one. */
  lemma ReadSeesLatestCompile(layout: D.Layout, st: State, steps: seq<Step>, st': State, w: nat, mtime: int)
    requires Initial(st) && Leads(layout, st, steps, st')
    requires w < |st'.workers| && st'.workers[w].Started? && IdleDeletes(layout, st, steps, st'.workers[w].path)
    ensures !Pending(st', st'.workers[w].path)
    ensures Do(layout, st', ReadStored(w, mtime)).workers[w].stored
         == if st'.workers[w].path in st'.latest then st'.latest[st'.workers[w].path] else NO_STAMP
  {
    hide Tokens, WritesCovered, Initial;
    var p := st'.workers[w].path;
    InitialInv(st, p);
    RunsKeepInv(layout, st, steps, st', p);
    BusyMeansNothingPending(st', w, p);
    assert Get(st'.latest, p) == Get(st'.shared.db.fileInfo, p);
  }

  /** Nothing is queued or running. */
  predicate Quiet(st: State) {
    && st.shared.tasks == [] && st.shared.queue == []
    && forall w | 0 <= w < |st.workers| :: st.workers[w] == Idle
  }

  /** In a quiet state p is left in in_parsing_files_ exactly when it was lost, and its stored stamp
      is that of its latest compile. */
  lemma QuietMeansOnlyLostLeft(layout: D.Layout, st: State, steps: seq<Step>, st': State, p: Path)
    requires Initial(st) && Leads(layout, st, steps, st') && IdleDeletes(layout, st, steps, p) && Quiet(st')
    ensures p in st'.shared.inParsing <==> p in st'.lost
    ensures Get(st'.shared.db.fileInfo, p) == Get(st'.latest, p)
  {
    hide Initial;
    InitialInv(st, p);
    RunsKeepInv(layout, st, steps, st', p);
    AllIdle(st'.workers, p);
    assert !Pending(st', p);
  }

  // ---------- a failed stat ----------

  predicate DeletesFile(st: State, step: Step, p: Path) {
    step.DeleteFile? && step.p == p && p in st.shared.sources
  }

  /** A lost path stays lost if and only if the step is not its own deletion, and until then nothing
      that is stored for it changes. */
  lemma StepKeepsLost(layout: D.Layout, st: State, step: Step, p: Path)
    requires Enabled(layout, st, step) && InvFor(st, p) && p in st.lost
    ensures p in Do(layout, st, step).lost <==> !DeletesFile(st, step, p)
    ensures !DeletesFile(st, step, p) ==> SameRecords(st.shared.db, Do(layout, st, step).shared.db, p)
  {
    hide Compiled, Erased, CompileBatch, ErasureBatch, Tokens, Covered, SameRecords;
    IdleMeansNothingPending(st, p);
    if step.Handle? {
      var head := st.shared.queue[0];
      if head == RemoveParsing(p) {
        QueueIsLive(st, 0, p);
      } else if head.WriteCompiled? {
        assert WritesAt(st, 0, head.path);
      }
    }
    if !DeletesFile(st, step, p) {
      assert !Writes(st, step, p) && !Erases(st, step, p);
      StepKeepsStored(layout, st, step, p);
    }
  }

  /** The run never deletes p. */
  ghost predicate KeepsFile(layout: D.Layout, st: State, steps: seq<Step>, p: Path)
    decreases |steps|
  {
    steps != [] ==>
      Enabled(layout, st, steps[0]) && !DeletesFile(st, steps[0], p) && KeepsFile(layout, Do(layout, st, steps[0]), steps[1..], p)
  }

  /** A file whose worker could not stat it stays in in_parsing_files_ for the rest of the run, up to
      its own deletion: it is never built again and nothing that is stored for it changes. */
  lemma {:induction false} LostForever(layout: D.Layout, st: State, steps: seq<Step>, st': State, p: Path)
    requires Leads(layout, st, steps, st') && KeepsFile(layout, st, steps, p)
    requires InvFor(st, p) && p in st.lost
    ensures p in st'.lost && p in st'.shared.inParsing && Tokens(st', p) == 0
    ensures SameRecords(st.shared.db, st'.shared.db, p)
    decreases |steps|
  {
    hide Enabled, Do, Tokens, WritesCovered, HistoryMatches, R.Posted;
    if steps != [] {
      StepKeepsInv(layout, st, steps[0], p);
      StepKeepsLost(layout, st, steps[0], p);
      LostForever(layout, Do(layout, st, steps[0]), steps[1..], st', p);
    }
  }

  // ---------- the skip test ----------

  /** The stamp of the latest finished compile of p since it was last erased. */
  function LatestStamp(st: State, p: Path): FileBasicInfo {
    if p in st.latest then st.latest[p] else NO_STAMP
  }

  /** Every worker on p that has read the stored stamp holds the latest one, and one that goes on to
      parse has found another time and another checksum. */
  ghost predicate ComparesWithLatest(st: State, p: Path) {
    forall w | 0 <= w < |st.workers| :: HoldsLatest(st, st.workers[w], p)
  }

  predicate HoldsLatest(st: State, x: Worker, p: Path) {
    && (x.HasStored? && x.path == p ==> x.stored == LatestStamp(st, p))
    && (x.Parsing? && x.path == p ==>
          x.info.lastMtime != LatestStamp(st, p).lastMtime && x.info.contentMd5 != LatestStamp(st, p).contentMd5)
  }

  lemma StepComparesWithLatest(layout: D.Layout, st: State, step: Step, p: Path)
    requires Enabled(layout, st, step) && InvFor(st, p) && DeletesIdle(st, step, p) && ComparesWithLatest(st, p)
    ensures ComparesWithLatest(Do(layout, st, step), p)
  {
    hide Compiled, Erased, CompileBatch, ErasureBatch, Tokens, Covered;
    var st' := Do(layout, st, step);
    if LatestStamp(st', p) == LatestStamp(st, p) {
      forall w | 0 <= w < |st.workers| ensures HoldsLatest(st', st'.workers[w], p) {
        assert HoldsLatest(st, st.workers[w], p);
        if st'.workers[w] != st.workers[w] && st'.workers[w].HasStored? && st'.workers[w].path == p {
          BusyMeansNothingPending(st, w, p);
          assert Get(st.latest, p) == Get(st.shared.db.fileInfo, p);
        }
      }
    } else {
      forall w | 0 <= w < |st.workers| ensures HoldsLatest(st', st'.workers[w], p) {
        NoOtherBusy(layout, st, step, p, w);
      }
    }
  }

  /** When the latest stamp of p changes, no worker is between reading it and posting. */
  lemma NoOtherBusy(layout: D.Layout, st: State, step: Step, p: Path, w: nat)
    requires Enabled(layout, st, step) && InvFor(st, p) && DeletesIdle(st, step, p) && w < |st.workers|
    requires LatestStamp(Do(layout, st, step), p) != LatestStamp(st, p)
    ensures var x := Do(layout, st, step).workers[w]; !((x.HasStored? || x.Parsing?) && x.path == p)
  {
    hide Compiled, Erased, CompileBatch, ErasureBatch, Tokens, WritesCovered, HistoryMatches;
    var x := Do(layout, st, step).workers[w];
    if (x.HasStored? || x.Parsing?) && x.path == p {
      assert x == st.workers[w];
      WorkerIsLive(st, w, p);
      if step.ParseDone? {
        TwoBusy(st, step.w, w, p);
      }
      assert false;
    }
  }

  lemma TwoBusy(st: State, v: nat, w: nat, p: Path)
    requires v < |st.workers| && w < |st.workers| && v != w
    requires !st.workers[v].Idle? && st.workers[v].path == p && !st.workers[w].Idle? && st.workers[w].path == p
    ensures Tokens(st, p) >= 2
  {
    TwoWorkersHold(st.workers, v, w, p);
  }

  lemma {:induction false} RunsCompareWithLatest(layout: D.Layout, st: State, steps: seq<Step>, st': State, p: Path)
    requires Leads(layout, st, steps, st') && InvFor(st, p) && IdleDeletes(layout, st, steps, p) && ComparesWithLatest(st, p)
    ensures InvFor(st', p) && ComparesWithLatest(st', p)
    decreases |steps|
  {
    hide InvFor, Enabled, Do, DeletesIdle, ComparesWithLatest;
    if steps != [] {
      StepKeepsInv(layout, st, steps[0], p);
      StepComparesWithLatest(layout, st, steps[0], p);
      RunsCompareWithLatest(layout, Do(layout, st, steps[0]), steps[1..], st', p);
    }
  }

  /** Over every run that does not delete p while it is built: a worker that has read the stored stamp
      holds that of the latest finished compile.  Whatever it does next posts nothing, and it leaves
      exactly when the file's time or its checksum is that of the latest compile; otherwise it goes
      on to parse with the new ones. */
  lemma SkipTestExactly(layout: D.Layout, st: State, steps: seq<Step>, st': State, w: nat, step: Step)
    requires Initial(st) && Leads(layout, st, steps, st')
    requires w < |st'.workers| && st'.workers[w].HasStored? && IdleDeletes(layout, st, steps, st'.workers[w].path)
    requires Enabled(layout, st', step) && Do(layout, st', step).workers[w] != st'.workers[w]
    ensures var x := st'.workers[w];
      var next, latest := Do(layout, st', step), LatestStamp(st', x.path);
      && x.stored == latest && (x.path !in st'.latest ==> latest == FileBasicInfo(0, "")) && next.shared == st'.shared
      && if x.mtime == latest.lastMtime then step == SameMtime(w) && next.workers[w] == Leaving(x.path)
         else
           && step.CheckMd5? && step.w == w
           && next.workers[w] == if step.md5 == latest.contentMd5 then Leaving(x.path)
                                 else Parsing(x.path, FileBasicInfo(x.mtime, step.md5))
  {
    hide Tokens, WritesCovered, HistoryMatches, Initial, Compiled, Erased;
    var p := st'.workers[w].path;
    InitialInv(st, p);
    InitialCompares(st, p);
    RunsCompareWithLatest(layout, st, steps, st', p);
    assert HoldsLatest(st', st'.workers[w], p);
  }

  lemma InitialCompares(st: State, p: Path)
    requires Initial(st)
    ensures ComparesWithLatest(st, p)
  {
  }

  /** Over the same runs a compile is posted only for a file whose time and checksum both differ from
      those of its latest finished compile, and what is posted, and will be stored, is the new ones. */
  lemma PostedOnlyWhenChanged(layout: D.Layout, st: State, steps: seq<Step>, st': State, step: Step)
    requires Initial(st) && Leads(layout, st, steps, st') && Enabled(layout, st', step)
    requires var q, q' := st'.shared.queue, Do(layout, st', step).shared.queue;
      && |q| < |q'| && q'[|q|].WriteCompiled? && IdleDeletes(layout, st, steps, q'[|q|].path)
    ensures var next := Do(layout, st', step);
      var posted := next.shared.queue[|st'.shared.queue|];
      var latest := LatestStamp(st', posted.path);
      && posted.info.lastMtime != latest.lastMtime && posted.info.contentMd5 != latest.contentMd5
      && next.shared.queue == st'.shared.queue + [posted] && LatestStamp(next, posted.path) == posted.info
      && step.ParseDone? && st'.workers[step.w] == Parsing(posted.path, posted.info) && posted.unit == step.unit
  {
    hide Tokens, WritesCovered, HistoryMatches, Initial, Compiled, Erased;
    assert step.ParseDone?;
    var p := st'.workers[step.w].path;
    InitialInv(st, p);
    InitialCompares(st, p);
    RunsCompareWithLatest(layout, st, steps, st', p);
    assert HoldsLatest(st', st'.workers[step.w], p);
  }

  // ---------- sources stay sources ----------

  /** The step takes p out of the sources: its own deletion, or a new source set without it. */
  predicate DropsSource(step: Step, p: Path) {
    (step.DeleteFile? && step.p == p) || (step.SetSources? && p !in step.sources)
  }

  ghost predicate SourceThroughout(layout: D.Layout, st: State, steps: seq<Step>, p: Path)
    decreases |steps|
  {
    p in st.shared.sources && (steps != [] ==>
      Enabled(layout, st, steps[0]) && SourceThroughout(layout, Do(layout, st, steps[0]), steps[1..], p))
  }

  lemma SourceNow(layout: D.Layout, st: State, steps: seq<Step>, p: Path)
    ensures SourceThroughout(layout, st, steps, p) ==> p in st.shared.sources
  {
  }

  lemma StepKeepsSource(layout: D.Layout, st: State, step: Step, p: Path)
    requires Enabled(layout, st, step) && p in st.shared.sources
    ensures p in Do(layout, st, step).shared.sources <==> !DropsSource(step, p)
  {
    hide Compiled, Erased, CompileBatch, ErasureBatch;
  }

  /** Over every run a source is one in every state, whatever is deleted, built and written besides,
      if and only if no step is its own deletion or a source set without it. */
  lemma {:induction false} RunsKeepSourceExactly(layout: D.Layout, st: State, steps: seq<Step>, st': State, p: Path)
    requires Leads(layout, st, steps, st') && p in st.shared.sources
    ensures SourceThroughout(layout, st, steps, p) <==> forall s | s in steps :: !DropsSource(s, p)
    decreases |steps|
  {
    hide Enabled, Do, DropsSource;
    if steps != [] {
      assert forall s :: s in steps <==> s == steps[0] || s in steps[1..];
      var next := Do(layout, st, steps[0]);
      StepKeepsSource(layout, st, steps[0], p);
      if p in next.shared.sources {
        RunsKeepSourceExactly(layout, next, steps[1..], st', p);
      } else {
        SourceNow(layout, next, steps[1..], p);
      }
    }
  }

  // ---------- files that dropped out of the sources ----------

  /** A step that neither erases p nor commits a compile of it changes nothing stored for p. */
  lemma StepKeepsStored(layout: D.Layout, st: State, step: Step, p: Path)
    requires Enabled(layout, st, step) && !Erases(st, step, p) && !Writes(st, step, p)
    ensures SameRecords(st.shared.db, Do(layout, st, step).shared.db, p)
  {
    hide Compiled, Erased, CompileBatch, ErasureBatch, R.Posted;
    var sh := st.shared;
    if step.Handle? && sh.queue[0].WriteCompiled? {
      CompileLeavesOthers(layout, sh.db, sh.queue[0].path, sh.queue[0].info, sh.queue[0].unit, step.batch, p);
    } else if (step.Rebuild? || step.DeleteFile?) && Erases(st, step, step.p) {
      ErasureLeavesOthers(layout, sh.db, step.p, step.erasure, p);
    } else {
      assert Do(layout, st, step).shared.db == sh.db;
    }
  }

  /** No step makes p a source or rebuilds it. */
  predicate StaysOut(steps: seq<Step>, p: Path) {
    forall s | s in steps :: (s.SetSources? ==> p !in s.sources) && (s.Rebuild? ==> s.p != p)
  }

  /** No step erases p: its deletions have no effect whatever. */
  ghost predicate NeverErased(layout: D.Layout, st: State, steps: seq<Step>, p: Path)
    decreases |steps|
  {
    steps != [] ==>
      && Enabled(layout, st, steps[0]) && !Erases(st, steps[0], p)
      && (steps[0].DeleteFile? && steps[0].p == p ==> Do(layout, st, steps[0]) == st)
      && NeverErased(layout, Do(layout, st, steps[0]), steps[1..], p)
  }

  ghost predicate NeverWritten(layout: D.Layout, st: State, steps: seq<Step>, p: Path)
    decreases |steps|
  {
    steps != [] ==>
      Enabled(layout, st, steps[0]) && !Writes(st, steps[0], p) && NeverWritten(layout, Do(layout, st, steps[0]), steps[1..], p)
  }

  /** A file that is no source and does not come back is never erased, over every run: deleting it
      does nothing, and its stamp, its definition list, its forward record and all its postings stay
      as they are until a compile that was still under way is written. */
  lemma {:induction false} DroppedFileStays(layout: D.Layout, st: State, steps: seq<Step>, st': State, p: Path)
    requires Leads(layout, st, steps, st') && StaysOut(steps, p) && p !in st.shared.sources
    ensures p !in st'.shared.sources && NeverErased(layout, st, steps, p)
    ensures NeverWritten(layout, st, steps, p) ==> SameRecords(st.shared.db, st'.shared.db, p)
    ensures p in st.shared.db.fileInfo ==> p in st'.shared.db.fileInfo
    decreases |steps|
  {
    hide Compiled, Erased, CompileBatch, ErasureBatch, R.Posted;
    if steps != [] {
      var step := steps[0];
      assert step in steps;
      StaysNoSource(layout, st, step, p);
      if Writes(st, step, p) {
        var head := st.shared.queue[0];
        CompiledFamilies(layout, st.shared.db, head.path, head.info, head.unit, step.batch);
      } else {
        StepKeepsStored(layout, st, step, p);
        assert Get(st.shared.db.fileInfo, p) == Get(Do(layout, st, step).shared.db.fileInfo, p);
      }
      hide Do, Enabled;
      DroppedFileStays(layout, Do(layout, st, step), steps[1..], st', p);
    }
  }

  lemma StaysNoSource(layout: D.Layout, st: State, step: Step, p: Path)
    requires Enabled(layout, st, step) && StaysOut([step], p) && p !in st.shared.sources
    ensures p !in Do(layout, st, step).shared.sources && !Erases(st, step, p)
    ensures step.DeleteFile? && step.p == p ==> Do(layout, st, step) == st
  {
    hide Compiled, Erased, CompileBatch, ErasureBatch;
    assert step in [step];
  }

  // ---------- a race ----------

  const NO_BATCH := Batch([], [], [], [])

  function TwoWorkers(sh: Shared, v: Worker, w: Worker): State {
    State(sh, [v, w], map[], {})
  }

  lemma EmptyErasure(layout: D.Layout, p: Path)
    ensures ErasureBatch(layout, EMPTY_DB, p, NO_BATCH) && Erased(EMPTY_DB, p, NO_BATCH) == EMPTY_DB
  {
    assert ErasureBatch(layout, EMPTY_DB, p, NO_BATCH);
    ErasedFamilies(layout, EMPTY_DB, p, NO_BATCH);
    assert map[] - {p} == EMPTY_DB.fileInfo;
  }

  lemma RaceBegins(layout: D.Layout, p: Path)
    ensures Leads(layout, TwoWorkers(Shared(EMPTY_DB, {}, {p}, [], []), Idle, Idle),
                  [Build(p, true), Take(0), ReadStored(0, 1), CheckMd5(0, "md5")],
                  TwoWorkers(Shared(EMPTY_DB, {p}, {p}, [], []), Parsing(p, FileBasicInfo(1, "md5")), Idle))
  {
    var s0 := TwoWorkers(Shared(EMPTY_DB, {}, {p}, [], []), Idle, Idle);
    var s1 := TwoWorkers(Shared(EMPTY_DB, {p}, {p}, [p], []), Idle, Idle);
    var busy := Shared(EMPTY_DB, {p}, {p}, [], []);
    var s2 := TwoWorkers(busy, Started(p), Idle);
    var s3 := TwoWorkers(busy, HasStored(p, 1, NO_STAMP), Idle);
    var s4 := TwoWorkers(busy, Parsing(p, FileBasicInfo(1, "md5")), Idle);
    OneStep(layout, s0, Build(p, true));
    assert Do(layout, s0, Build(p, true)) == s1;
    OneStep(layout, s1, Take(0));
    assert Do(layout, s1, Take(0)) == s2;
    OneStep(layout, s2, ReadStored(0, 1));
    assert Do(layout, s2, ReadStored(0, 1)) == s3;
    OneStep(layout, s3, CheckMd5(0, "md5"));
    assert Do(layout, s3, CheckMd5(0, "md5")) == s4;
    LeadsOn(layout, s0, [Build(p, true)], s1, [Take(0)], s2);
    LeadsOn(layout, s0, [Build(p, true)] + [Take(0)], s2, [ReadStored(0, 1)], s3);
    LeadsOn(layout, s0, [Build(p, true)] + [Take(0)] + [ReadStored(0, 1)], s3, [CheckMd5(0, "md5")], s4);
    assert [Build(p, true)] + [Take(0)] + [ReadStored(0, 1)] + [CheckMd5(0, "md5")]
        == [Build(p, true), Take(0), ReadStored(0, 1), CheckMd5(0, "md5")];
  }

  lemma RaceDeletes(layout: D.Layout, p: Path, x: Worker)
    ensures Leads(layout, TwoWorkers(Shared(EMPTY_DB, {p}, {p}, [], []), x, Idle),
                  [DeleteFile(p, NO_BATCH), Build(p, true), Take(1)],
                  TwoWorkers(Shared(EMPTY_DB, {p}, {}, [], []), x, Started(p)))
  {
    EmptyErasure(layout, p);
    var s0 := TwoWorkers(Shared(EMPTY_DB, {p}, {p}, [], []), x, Idle);
    var s1 := TwoWorkers(Shared(EMPTY_DB, {}, {}, [], []), x, Idle);
    var s2 := TwoWorkers(Shared(EMPTY_DB, {p}, {}, [p], []), x, Idle);
    var s3 := TwoWorkers(Shared(EMPTY_DB, {p}, {}, [], []), x, Started(p));
    OneStep(layout, s0, DeleteFile(p, NO_BATCH));
    assert Do(layout, s0, DeleteFile(p, NO_BATCH)) == s1;
    OneStep(layout, s1, Build(p, true));
    assert Do(layout, s1, Build(p, true)) == s2;
    OneStep(layout, s2, Take(1));
    assert Do(layout, s2, Take(1)) == s3;
    LeadsOn(layout, s0, [DeleteFile(p, NO_BATCH)], s1, [Build(p, true)], s2);
    LeadsOn(layout, s0, [DeleteFile(p, NO_BATCH)] + [Build(p, true)], s2, [Take(1)], s3);
    assert [DeleteFile(p, NO_BATCH)] + [Build(p, true)] + [Take(1)] == [DeleteFile(p, NO_BATCH), Build(p, true), Take(1)];
  }

  function AfterPost(p: Path, unit: TranslationUnit): State {
    var info := FileBasicInfo(1, "md5");
    State(Shared(EMPTY_DB, {p}, {}, [], [WriteCompiled(p, info, unit)]), [Leaving(p), Started(p)], map[p := info], {})
  }

  lemma RacePosts(layout: D.Layout, p: Path, unit: TranslationUnit)
    requires D.DefinedHere(layout, p, unit.defined)
    ensures Leads(layout, TwoWorkers(Shared(EMPTY_DB, {p}, {}, [], []), Parsing(p, FileBasicInfo(1, "md5")), Started(p)),
                  [ParseDone(0, unit)], AfterPost(p, unit))
  {
    var st := TwoWorkers(Shared(EMPTY_DB, {p}, {}, [], []), Parsing(p, FileBasicInfo(1, "md5")), Started(p));
    OneStep(layout, st, ParseDone(0, unit));
    assert Do(layout, st, ParseDone(0, unit)) == AfterPost(p, unit);
  }

  /** Two builds of p are live; worker 1 is about to read p's stamp, which is missing, while the
      stamp of the latest finished compile still waits to be written. */
  ghost predicate StaleRead(layout: D.Layout, st: State, p: Path) {
    && Tokens(st, p) == 2 && Pending(st, p) && st.workers == [Leaving(p), Started(p)]
    && Do(layout, st, ReadStored(1, 2)).workers[1].stored == NO_STAMP
    && Get(st.latest, p) == Some(FileBasicInfo(1, "md5"))
  }

  /** A file is deleted and built again while a worker still compiles it: a run
      from an initial state that ends in a stale read. */
  lemma DeleteDuringBuildRaces(layout: D.Layout, p: Path, unit: TranslationUnit)
    requires D.DefinedHere(layout, p, unit.defined)
    ensures exists st, steps, st' :: Initial(st) && Leads(layout, st, steps, st') && StaleRead(layout, st', p)
  {
    hide Enabled, Do, StaleRead, Tokens;
    var a := TwoWorkers(Shared(EMPTY_DB, {}, {p}, [], []), Idle, Idle);
    var b := TwoWorkers(Shared(EMPTY_DB, {p}, {p}, [], []), Parsing(p, FileBasicInfo(1, "md5")), Idle);
    var c := TwoWorkers(Shared(EMPTY_DB, {p}, {}, [], []), Parsing(p, FileBasicInfo(1, "md5")), Started(p));
    var first := [Build(p, true), Take(0), ReadStored(0, 1), CheckMd5(0, "md5")];
    var second := [DeleteFile(p, NO_BATCH), Build(p, true), Take(1)];
    RaceBegins(layout, p);
    RaceDeletes(layout, p, Parsing(p, FileBasicInfo(1, "md5")));
    RacePosts(layout, p, unit);
    LeadsOn(layout, a, first, b, second, c);
    LeadsOn(layout, a, first + second, c, [ParseDone(0, unit)], AfterPost(p, unit));
    var st' := AfterPost(p, unit);
    EndsStale(layout, p, unit);
    assert Initial(a) && Leads(layout, a, first + second + [ParseDone(0, unit)], st');
  }

  lemma EndsStale(layout: D.Layout, p: Path, unit: TranslationUnit)
    ensures StaleRead(layout, AfterPost(p, unit), p)
  {
    AfterPostState(p, unit);
  }

  lemma AfterPostState(p: Path, unit: TranslationUnit)
    ensures Tokens(AfterPost(p, unit), p) == 2 && Pending(AfterPost(p, unit), p)
  {
    var st := AfterPost(p, unit);
    assert WritesAt(st, 0, p);
    assert st.workers[1..] == [Started(p)] && [Started(p)][1..] == [];
    assert WorkerTokens([Started(p)], p) == 1;
    assert WorkerTokens(st.workers, p) == 2;
    assert st.shared.queue[1..] == [];
    assert QueueTokens(st.shared.queue, p) == 0;
    assert TaskTokens(st.shared.tasks, p) == 0;
  }
}
