/** The definition index.  A symbol's record lists where it is defined, at most once per
    module; a file's record lists the symbols it defines.  */
module DefinitionIndex {
  import opened Basics
  import opened SymbolDb

  /** The project home and the module that the flag cache assigns to an absolute path. */
  datatype Layout = Layout(home: Path, moduleAt: Path -> ModuleName) {
    predicate Valid() {
      home != "" && home[0] == '/'
    }

    function Abs(p: Path): Path {
      if p != "" && p[0] == '/' then p else home + "/" + p
    }

    function ModuleOf(p: Path): ModuleName {
      moduleAt(Abs(p))
    }

    lemma AbsIsStable(p: Path)
      requires Valid()
      ensures Abs(Abs(p)) == Abs(p) && ModuleOf(Abs(p)) == ModuleOf(p) && Abs(p) != ""
    {
    }
  }

  type Record = seq<Location>
  type Definitions = map<Symbol, Location>

  // ---------- one symbol record ----------

  function FindModule(layout: Layout, rec: Record, m: ModuleName): (i: nat)
    ensures i <= |rec|
    ensures i < |rec| ==> layout.ModuleOf(rec[i].path) == m
    ensures forall j | 0 <= j < i :: layout.ModuleOf(rec[j].path) != m
  {
    if rec == [] || layout.ModuleOf(rec[0].path) == m then 0 else 1 + FindModule(layout, rec[1..], m)
  }

  /** The place of the symbol in module m, as stored. */
  function InModule(layout: Layout, rec: Record, m: ModuleName): Option<Location> {
    var i := FindModule(layout, rec, m);
    if i < |rec| then Some(rec[i]) else None
  }

  function AddLocation(layout: Layout, rec: Record, m: ModuleName, loc: Location): Record {
    var i := FindModule(layout, rec, m);
    if i < |rec| then rec[i := loc] else rec + [loc]
  }

  function RemoveLocation(layout: Layout, rec: Record, m: ModuleName): Record {
    var i := FindModule(layout, rec, m);
    if i < |rec| then rec[..i] + rec[i + 1..] else rec
  }

  ghost predicate OnePerModule(layout: Layout, rec: Record) {
    forall i, j | 0 <= i < j < |rec| :: layout.ModuleOf(rec[i].path) != layout.ModuleOf(rec[j].path)
  }

  lemma FirstInModule(layout: Layout, rec: Record, m: ModuleName, i: nat)
    requires i < |rec| && layout.ModuleOf(rec[i].path) == m
    requires forall j | 0 <= j < i :: layout.ModuleOf(rec[j].path) != m
    ensures InModule(layout, rec, m) == Some(rec[i])
  {
    var f := FindModule(layout, rec, m);
    assert f == i;
  }

  lemma AddThenFind(layout: Layout, rec: Record, m: ModuleName, loc: Location, n: ModuleName)
    requires layout.ModuleOf(loc.path) == m
    ensures InModule(layout, AddLocation(layout, rec, m, loc), n) == if n == m then Some(loc) else InModule(layout, rec, n)
  {
    var after := AddLocation(layout, rec, m, loc);
    var i := FindModule(layout, rec, m);
    var f := FindModule(layout, rec, n);
    if n == m {
      FirstInModule(layout, after, m, i);
    } else if f < |rec| {
      assert f != i;
      FirstInModule(layout, after, n, f);
    } else {
      assert FindModule(layout, after, n) == |after|;
    }
  }

  lemma AddKeepsOnePerModule(layout: Layout, rec: Record, m: ModuleName, loc: Location)
    requires OnePerModule(layout, rec) && layout.ModuleOf(loc.path) == m
    ensures OnePerModule(layout, AddLocation(layout, rec, m, loc))
  {
  }

  lemma RemoveKeepsOnePerModule(layout: Layout, rec: Record, m: ModuleName)
    requires OnePerModule(layout, rec)
    ensures OnePerModule(layout, RemoveLocation(layout, rec, m))
  {
    hide FindModule;
    var i, after := FindModule(layout, rec, m), RemoveLocation(layout, rec, m);
    if i < |rec| {
      forall j, k | 0 <= j < k < |after| ensures layout.ModuleOf(after[j].path) != layout.ModuleOf(after[k].path) {
        assert after[j] == rec[if j < i then j else j + 1] && after[k] == rec[if k < i then k else k + 1];
      }
    }
  }

  /** Removing leaves no entry of the module exactly because there was at most one. */
  lemma RemoveThenFind(layout: Layout, rec: Record, m: ModuleName, n: ModuleName)
    requires OnePerModule(layout, rec)
    ensures InModule(layout, RemoveLocation(layout, rec, m), n) == if n == m then None else InModule(layout, rec, n)
  {
    hide FindModule;
    var after := RemoveLocation(layout, rec, m);
    var i := FindModule(layout, rec, m);
    if i < |rec| {
      assert forall j | 0 <= j < |after| :: after[j] == rec[if j < i then j else j + 1];
      var f := FindModule(layout, rec, n);
      if n != m && f < |rec| {
        FirstInModule(layout, after, n, if f < i then f else f - 1);
      } else {
        forall j | 0 <= j < |after| ensures layout.ModuleOf(after[j].path) != n {
          assert after[j] == rec[if j < i then j else j + 1];
        }
      }
    }
  }

  // ---------- queries ----------

  function RecordOf(db: Db, s: Symbol): Record {
    if s in db.symDefs then db.symDefs[s] else []
  }

  /** Found by module, with an absolute path; no module, no location. */
  function GetSymbolLocation(layout: Layout, rec: Record, file: Path): Location {
    var m := layout.ModuleOf(file);
    match if m == "" then None else InModule(layout, rec, m)
    case Some(loc) => Location(layout.Abs(loc.path), loc.line, loc.column)
    case None => NO_LOCATION
  }

  /** The definition seen from `file`: the one of its own module, else the first one as stored. */
  function QueryDefinition(layout: Layout, db: Db, s: Symbol, file: Path): Location {
    var loc := GetSymbolLocation(layout, RecordOf(db, s), file);
    if loc.IsValid() then loc
    else if RecordOf(db, s) == [] then NO_LOCATION
    else RecordOf(db, s)[0]
  }

  function ListedSymbols(db: Db, file: Path): seq<Symbol> {
    if file in db.fileDefs then db.fileDefs[file] else []
  }

  /** What LoadFileDefinedSymbolInfo reads back for a file. */
  function DefinitionsOf(layout: Layout, db: Db, file: Path): Definitions {
    map s | s in ListedSymbols(db, file) && QueryDefinition(layout, db, s, file).IsValid() ::
      QueryDefinition(layout, db, s, file)
  }

  ghost predicate AllOnePerModule(layout: Layout, db: Db) {
    forall s | s in db.symDefs :: OnePerModule(layout, db.symDefs[s])
  }

  // ---------- WriteFileDefinitions ----------

  predicate Vanished(layout: Layout, db: Db, file: Path, new_: Definitions, s: Symbol) {
    s in DefinitionsOf(layout, db, file) && s !in new_
  }

  /** What a compile of `file` does to the record of one symbol. */
  datatype Change = Keep | Drop | Store(rec: Record) {
    function Result(before: Option<Record>): Option<Record> {
      match this
      case Keep => before
      case Drop => None
      case Store(rec) => Some(rec)
    }

    ghost predicate WrittenBy(op: Op, s: Symbol) {
      match this
      case Keep => false
      case Drop => op == DeleteSymDefs(s)
      case Store(rec) => op == PutSymDefs(s, rec)
    }
  }

  function DefinitionChange(layout: Layout, db: Db, file: Path, new_: Definitions, s: Symbol): Change {
    var m := layout.ModuleOf(file);
    if Vanished(layout, db, file, new_, s) then
      Drop
    else if s !in new_ then
      Keep
    else if s !in DefinitionsOf(layout, db, file) then
      Store(AddLocation(layout, RecordOf(db, s), m, Location(file, new_[s].line, new_[s].column)))
    else if QueryDefinition(layout, db, s, file) != new_[s] then
      Store(AddLocation(layout, RecordOf(db, s), m, new_[s]))
    else
      Keep
  }

  ghost predicate WritesRecords(changes: Symbol -> Change, ss: seq<Symbol>, ops: seq<Op>) {
    |ss| == |ops| && forall i | 0 <= i < |ss| :: changes(ss[i]).WrittenBy(ops[i], ss[i])
  }

  /** Exactly the symbols with a change are written, then the file's list if there was any. */
  ghost predicate RecordBatch(changes: Symbol -> Change, file: Path, new_: Definitions, ss: seq<Symbol>, ops: seq<Op>) {
    && (forall s :: s in ss <==> changes(s) != Keep)
    && if ss == [] then ops == []
       else
         && |ops| == |ss| + 1
         && WritesRecords(changes, ss, ops[..|ss|])
         && ListsDefinitions(file, new_, ops[|ss|])
  }

  ghost predicate ListsDefinitions(file: Path, new_: Definitions, op: Op) {
    if new_ == map[] then op == DeleteFileDefs(file)
    else op.PutFileDefs? && op.path == file && forall s :: s in op.symbols <==> s in new_
  }

  /** What WriteFileDefinitions adds to the batch, for any order in which the maps are walked. */
  ghost predicate DefinitionBatch(layout: Layout, db: Db, file: Path, new_: Definitions, ss: seq<Symbol>, ops: seq<Op>) {
    RecordBatch(s => DefinitionChange(layout, db, file, new_, s), file, new_, ss, ops)
  }

  lemma ChangeOfKnown(layout: Layout, db: Db, file: Path, new_: Definitions, s: Symbol)
    requires s in DefinitionsOf(layout, db, file)
    ensures DefinitionChange(layout, db, file, new_, s)
         == if s !in new_ then Drop
            else if QueryDefinition(layout, db, s, file) != new_[s] then
              Store(AddLocation(layout, RecordOf(db, s), layout.ModuleOf(file), new_[s]))
            else Keep
  {
  }

  lemma AppendRecord(changes: Symbol -> Change, ss: seq<Symbol>, ops: seq<Op>, s: Symbol, op: Op)
    requires WritesRecords(changes, ss, ops) && changes(s).WrittenBy(op, s)
    ensures WritesRecords(changes, ss + [s], ops + [op])
  {
  }

  lemma ConcatRecords(changes: Symbol -> Change, ss: seq<Symbol>, ops: seq<Op>, more: seq<Symbol>, moreOps: seq<Op>)
    requires WritesRecords(changes, ss, ops) && WritesRecords(changes, more, moreOps)
    ensures WritesRecords(changes, ss + more, ops + moreOps)
  {
    forall i | 0 <= i < |ss + more| ensures changes((ss + more)[i]).WrittenBy((ops + moreOps)[i], (ss + more)[i]) {
      if i >= |ss| {
        assert changes(more[i - |ss|]).WrittenBy(moreOps[i - |ss|], more[i - |ss|]);
      }
    }
  }

  lemma FinishDefinitions(layout: Layout, db: Db, file: Path, old_: Definitions, new_: Definitions, ss: seq<Symbol>, ops: seq<Op>,
                          more: seq<Symbol>, moreOps: seq<Op>, last: Op, all: seq<Op>)
    requires forall s :: s in ss <==> s in old_ && DefinitionChange(layout, db, file, new_, s) != Keep
    requires forall s :: s in more <==> s !in old_ && DefinitionChange(layout, db, file, new_, s) != Keep
    requires WritesRecords(s => DefinitionChange(layout, db, file, new_, s), ss, ops)
    requires WritesRecords(s => DefinitionChange(layout, db, file, new_, s), more, moreOps)
    requires if ss == [] && more == [] then all == [] else ListsDefinitions(file, new_, last) && all == ops + moreOps + [last]
    ensures DefinitionBatch(layout, db, file, new_, ss + more, all)
  {
    var changes := s => DefinitionChange(layout, db, file, new_, s);
    ConcatRecords(changes, ss, ops, more, moreOps);
    forall s ensures s in ss + more <==> changes(s) != Keep {
    }
    if ss + more != [] {
      assert all[..|ss + more|] == ops + moreOps;
    }
  }

  ghost predicate SameApartFromSymDefs(db: Db, db': Db) {
    db'.fileInfo == db.fileInfo && db'.fileDefs == db.fileDefs && db'.fileRefs == db.fileRefs && db'.symRefs == db.symRefs
  }

  lemma RecordCommits(change: Change, db: Db, t: Symbol, op: Op, s: Symbol)
    requires change.WrittenBy(op, t)
    ensures SameApartFromSymDefs(db, Apply(db, op))
    ensures Get(Apply(db, op).symDefs, s) == if s == t then change.Result(None) else Get(db.symDefs, s)
  {
  }

  lemma {:induction false} RecordsCommit(changes: Symbol -> Change, db: Db, ss: seq<Symbol>, ops: seq<Op>, s: Symbol)
    requires WritesRecords(changes, ss, ops)
    ensures SameApartFromSymDefs(db, ApplyAll(db, ops))
    ensures Get(ApplyAll(db, ops).symDefs, s) == if s in ss then changes(s).Result(None) else Get(db.symDefs, s)
  {
    if ops != [] {
      hide Apply;
      var n := |ops| - 1;
      assert ss == ss[..n] + [ss[n]];
      RecordCommits(changes(ss[n]), ApplyAll(db, ops[..n]), ss[n], ops[n], s);
      RecordsCommit(changes, db, ss[..n], ops[..n], s);
    }
  }

  lemma RecordBatchCommit(changes: Symbol -> Change, db: Db, file: Path, new_: Definitions, ss: seq<Symbol>, ops: seq<Op>, s: Symbol)
    requires RecordBatch(changes, file, new_, ss, ops)
    ensures Get(ApplyAll(db, ops).symDefs, s) == changes(s).Result(Get(db.symDefs, s))
    ensures ss != [] ==> (s in ListedSymbols(ApplyAll(db, ops), file) <==> s in new_)
    ensures ss == [] ==> ops == []
    ensures forall g | g != file :: Get(ApplyAll(db, ops).fileDefs, g) == Get(db.fileDefs, g)
    ensures ApplyAll(db, ops).fileInfo == db.fileInfo && ApplyAll(db, ops).fileRefs == db.fileRefs
    ensures ApplyAll(db, ops).symRefs == db.symRefs
  {
    hide Apply, WritesRecords, ListsDefinitions, ListedSymbols;
    assert s in ss <==> changes(s) != Keep;
    if ss != [] {
      var n := |ss|;
      RecordsCommit(changes, db, ss, ops[..n], s);
      assert ops[..|ops| - 1] == ops[..n];
      ListCommits(ApplyAll(db, ops[..n]), file, new_, ops[n], s);
    }
  }

  lemma ListCommits(db: Db, file: Path, new_: Definitions, op: Op, s: Symbol)
    requires ListsDefinitions(file, new_, op)
    ensures var db' := Apply(db, op);
      && db'.fileInfo == db.fileInfo && db'.fileRefs == db.fileRefs && db'.symDefs == db.symDefs && db'.symRefs == db.symRefs
      && (s in ListedSymbols(db', file) <==> s in new_)
      && forall g | g != file :: Get(db'.fileDefs, g) == Get(db.fileDefs, g)
  {
  }

  /** The effect of a committed definition batch. */
  lemma WrittenDefinitions(layout: Layout, db: Db, file: Path, new_: Definitions, ss: seq<Symbol>, ops: seq<Op>, s: Symbol)
    requires DefinitionBatch(layout, db, file, new_, ss, ops)
    ensures Get(ApplyAll(db, ops).symDefs, s) == DefinitionChange(layout, db, file, new_, s).Result(Get(db.symDefs, s))
    ensures s in ss <==> DefinitionChange(layout, db, file, new_, s) != Keep
    ensures ss != [] ==> (s in ListedSymbols(ApplyAll(db, ops), file) <==> s in new_)
    ensures ss == [] ==> ops == []
    ensures forall g | g != file :: Get(ApplyAll(db, ops).fileDefs, g) == Get(db.fileDefs, g)
    ensures ApplyAll(db, ops).fileInfo == db.fileInfo && ApplyAll(db, ops).fileRefs == db.fileRefs
    ensures ApplyAll(db, ops).symRefs == db.symRefs
  {
    RecordBatchCommit(s => DefinitionChange(layout, db, file, new_, s), db, file, new_, ss, ops, s);
  }

  /** The compiler gives every definition the absolute path of the compiled file. */
  ghost predicate DefinedHere(layout: Layout, file: Path, new_: Definitions) {
    forall s | s in new_ :: new_[s].path == layout.Abs(file)
  }

  lemma AddedIsFound(layout: Layout, rec: Record, file: Path, loc: Location)
    requires layout.Valid() && layout.ModuleOf(file) != "" && (loc.path == file || loc.path == layout.Abs(file))
    ensures GetSymbolLocation(layout, AddLocation(layout, rec, layout.ModuleOf(file), loc), file)
         == Location(layout.Abs(file), loc.line, loc.column)
  {
    layout.AbsIsStable(file);
    AddThenFind(layout, rec, layout.ModuleOf(file), loc, layout.ModuleOf(file));
  }

  /** After the commit, a query from a file with a module finds the location of this compile. */
  lemma QueryAfterWrite(layout: Layout, db: Db, file: Path, new_: Definitions, ss: seq<Symbol>, ops: seq<Op>, s: Symbol)
    requires layout.Valid() && layout.ModuleOf(file) != "" && DefinedHere(layout, file, new_)
    requires DefinitionBatch(layout, db, file, new_, ss, ops) && s in new_
    ensures QueryDefinition(layout, ApplyAll(db, ops), s, file) == new_[s]
  {
    hide AddLocation, InModule, DefinitionBatch;
    layout.AbsIsStable(file);
    WrittenDefinitions(layout, db, file, new_, ss, ops, s);
    var here := Location(file, new_[s].line, new_[s].column);
    AddedIsFound(layout, RecordOf(db, s), file, here);
    AddedIsFound(layout, RecordOf(db, s), file, new_[s]);
    var after := RecordOf(ApplyAll(db, ops), s);
    match DefinitionChange(layout, db, file, new_, s)
    case Keep => assert after == RecordOf(db, s);
    case Store(rec) => assert after == rec;
    case Drop =>
  }

  /** From a file whose directory has no module, a query falls back on the first stored entry. */
  lemma QueryWithoutModule(layout: Layout, db: Db, s: Symbol, file: Path)
    requires layout.ModuleOf(file) == ""
    ensures QueryDefinition(layout, db, s, file) == if RecordOf(db, s) == [] then NO_LOCATION else RecordOf(db, s)[0]
  {
  }

  /** When a file without a module sees its own definition after the commit: nothing had to be
      stored, or the entry goes to the front of the record and is stored with an absolute path. */
  predicate SeenWithoutModule(layout: Layout, db: Db, file: Path, new_: Definitions, s: Symbol)
    requires s in new_
  {
    if s in DefinitionsOf(layout, db, file) then
      QueryDefinition(layout, db, s, file) == new_[s] || StoredInFront(layout, RecordOf(db, s))
    else
      StoredInFront(layout, RecordOf(db, s)) && file == layout.Abs(file)
  }

  predicate StoredInFront(layout: Layout, rec: Record) {
    rec == [] || layout.ModuleOf(rec[0].path) == ""
  }

  lemma AddedInFront(layout: Layout, rec: Record, loc: Location)
    ensures var r := AddLocation(layout, rec, "", loc);
      r != [] && r[0] == if StoredInFront(layout, rec) then loc else rec[0]
  {
  }

  lemma QueryAfterWriteWithoutModule(layout: Layout, db: Db, file: Path, new_: Definitions, ss: seq<Symbol>, ops: seq<Op>, s: Symbol)
    requires layout.Valid() && layout.ModuleOf(file) == "" && DefinedHere(layout, file, new_)
    requires DefinitionBatch(layout, db, file, new_, ss, ops) && s in new_
    ensures QueryDefinition(layout, ApplyAll(db, ops), s, file) == new_[s] <==> SeenWithoutModule(layout, db, file, new_, s)
  {
    hide AddLocation, DefinitionBatch, DefinitionsOf, QueryDefinition;
    layout.AbsIsStable(file);
    WrittenDefinitions(layout, db, file, new_, ss, ops, s);
    QueryWithoutModule(layout, db, s, file);
    QueryWithoutModule(layout, ApplyAll(db, ops), s, file);
    AddedInFront(layout, RecordOf(db, s), Location(file, new_[s].line, new_[s].column));
    AddedInFront(layout, RecordOf(db, s), new_[s]);
    var after := RecordOf(ApplyAll(db, ops), s);
    match DefinitionChange(layout, db, file, new_, s)
    case Keep => assert after == RecordOf(db, s);
    case Store(rec) => assert after == rec;
    case Drop =>
  }

  /** After the commit, a query from the file finds the location of this compile if and only if the
      file has a module, or sees its definition without one. */
  lemma QueryAfterWriteExactly(layout: Layout, db: Db, file: Path, new_: Definitions, ss: seq<Symbol>, ops: seq<Op>, s: Symbol)
    requires layout.Valid() && DefinedHere(layout, file, new_)
    requires DefinitionBatch(layout, db, file, new_, ss, ops) && s in new_
    ensures QueryDefinition(layout, ApplyAll(db, ops), s, file) == new_[s]
       <==> layout.ModuleOf(file) != "" || SeenWithoutModule(layout, db, file, new_, s)
  {
    hide DefinitionBatch, QueryDefinition, SeenWithoutModule;
    if layout.ModuleOf(file) == "" {
      QueryAfterWriteWithoutModule(layout, db, file, new_, ss, ops, s);
    } else {
      QueryAfterWrite(layout, db, file, new_, ss, ops, s);
    }
  }

  lemma ListedAfterWrite(layout: Layout, db: Db, file: Path, new_: Definitions, ss: seq<Symbol>, ops: seq<Op>, s: Symbol)
    requires DefinitionBatch(layout, db, file, new_, ss, ops)
    ensures s in DefinitionsOf(layout, ApplyAll(db, ops), file) ==> s in new_
    ensures s in new_ && QueryDefinition(layout, ApplyAll(db, ops), s, file).IsValid() ==>
      s in DefinitionsOf(layout, ApplyAll(db, ops), file)
  {
    hide QueryDefinition, DefinitionBatch, AddLocation;
    WrittenDefinitions(layout, db, file, new_, ss, ops, s);
    if ss == [] {
      assert ApplyAll(db, ops) == db;
      assert s !in ss && DefinitionChange(layout, db, file, new_, s) == Keep;
    }
  }

  /** Whatever was stored before, loading the file's definitions after the commit gives back exactly
      what the compile found, if and only if a query finds each of them. */
  lemma LoadAfterWriteExactly(layout: Layout, db: Db, file: Path, new_: Definitions, ss: seq<Symbol>, ops: seq<Op>)
    requires layout.Valid() && DefinedHere(layout, file, new_)
    requires DefinitionBatch(layout, db, file, new_, ss, ops)
    ensures DefinitionsOf(layout, ApplyAll(db, ops), file) == new_
       <==> layout.ModuleOf(file) != "" || forall s | s in new_ :: SeenWithoutModule(layout, db, file, new_, s)
  {
    hide DefinitionBatch, QueryDefinition, SeenWithoutModule, DefinitionsOf;
    layout.AbsIsStable(file);
    var db' := ApplyAll(db, ops);
    var loaded := DefinitionsOf(layout, db', file);
    forall s
      ensures s in loaded ==> s in new_
      ensures s in new_ && QueryDefinition(layout, db', s, file).IsValid() ==> s in loaded
    {
      ListedAfterWrite(layout, db, file, new_, ss, ops, s);
    }
    forall s | s in new_
      ensures QueryDefinition(layout, db', s, file) == new_[s]
         <==> layout.ModuleOf(file) != "" || SeenWithoutModule(layout, db, file, new_, s)
      ensures new_[s].IsValid()
      ensures s in loaded ==> loaded[s] == QueryDefinition(layout, db', s, file)
    {
      QueryAfterWriteExactly(layout, db, file, new_, ss, ops, s);
      LoadedIsQueried(layout, db', file, s);
    }
  }

  lemma LoadedIsQueried(layout: Layout, db: Db, file: Path, s: Symbol)
    ensures s in DefinitionsOf(layout, db, file) ==> DefinitionsOf(layout, db, file)[s] == QueryDefinition(layout, db, s, file)
  {
  }

  /** Nothing is written if and only if the compile found exactly what is stored. */
  lemma NothingWrittenExactly(layout: Layout, db: Db, file: Path, new_: Definitions, ss: seq<Symbol>, ops: seq<Op>)
    requires DefinitionBatch(layout, db, file, new_, ss, ops)
    ensures ops == [] <==> DefinitionsOf(layout, db, file) == new_
  {
    hide QueryDefinition, AddLocation;
    var old_ := DefinitionsOf(layout, db, file);
    forall s ensures s in ss <==> DefinitionChange(layout, db, file, new_, s) != Keep
      ensures DefinitionChange(layout, db, file, new_, s) == Keep <==> Get(old_, s) == Get(new_, s)
    {
      LoadedIsQueried(layout, db, file, s);
    }
    if ss == [] {
      forall s ensures (s in old_ <==> s in new_) && (s in old_ ==> old_[s] == new_[s]) {
        assert s !in ss && Get(old_, s) == Get(new_, s);
      }
    } else {
      assert ss[0] in ss && Get(old_, ss[0]) != Get(new_, ss[0]);
    }
  }

  /** Another module's entry for s survives the commit if and only if s did not vanish
      from the file or the entry was not there: a vanished symbol loses its whole record. */
  lemma OtherModulesKeptExactly(layout: Layout, db: Db, file: Path, new_: Definitions, ss: seq<Symbol>, ops: seq<Op>, s: Symbol, m: ModuleName)
    requires layout.Valid() && DefinedHere(layout, file, new_) && m != layout.ModuleOf(file)
    requires DefinitionBatch(layout, db, file, new_, ss, ops)
    ensures InModule(layout, RecordOf(ApplyAll(db, ops), s), m) == InModule(layout, RecordOf(db, s), m)
       <==> !(Vanished(layout, db, file, new_, s) && InModule(layout, RecordOf(db, s), m).Some?)
  {
    layout.AbsIsStable(file);
    WrittenDefinitions(layout, db, file, new_, ss, ops, s);
    var own := layout.ModuleOf(file);
    if s in new_ {
      AddThenFind(layout, RecordOf(db, s), own, Location(file, new_[s].line, new_[s].column), m);
      AddThenFind(layout, RecordOf(db, s), own, new_[s], m);
    }
    var after := RecordOf(ApplyAll(db, ops), s);
    match DefinitionChange(layout, db, file, new_, s)
    case Keep => assert after == RecordOf(db, s);
    case Drop => assert after == [];
    case Store(rec) => assert after == rec;
  }

  lemma WriteKeepsOnePerModule(layout: Layout, db: Db, file: Path, new_: Definitions, ss: seq<Symbol>, ops: seq<Op>)
    requires layout.Valid() && DefinedHere(layout, file, new_) && AllOnePerModule(layout, db)
    requires DefinitionBatch(layout, db, file, new_, ss, ops)
    ensures AllOnePerModule(layout, ApplyAll(db, ops))
  {
    layout.AbsIsStable(file);
    var db' := ApplyAll(db, ops);
    forall s | s in db'.symDefs ensures OnePerModule(layout, db'.symDefs[s]) {
      WrittenDefinitions(layout, db, file, new_, ss, ops, s);
      assert OnePerModule(layout, RecordOf(db, s));
      if s in new_ {
        AddKeepsOnePerModule(layout, RecordOf(db, s), layout.ModuleOf(file), Location(file, new_[s].line, new_[s].column));
        AddKeepsOnePerModule(layout, RecordOf(db, s), layout.ModuleOf(file), new_[s]);
      }
    }
  }

  // ---------- DeleteFileDefinedSymbolInfo ----------

  function DeletionChange(layout: Layout, db: Db, file: Path, s: Symbol): Change {
    Store(RemoveLocation(layout, RecordOf(db, s), layout.ModuleOf(file)))
  }

  /** Every listed symbol that has a record is stored again without the file's module. */
  ghost predicate DefinitionDeletion(layout: Layout, db: Db, file: Path, ss: seq<Symbol>, ops: seq<Op>) {
    && (forall s :: s in ss <==> s in ListedSymbols(db, file) && s in db.symDefs)
    && WritesRecords(s => DeletionChange(layout, db, file, s), ss, ops)
  }

  /** The deletion removes exactly the file's module from exactly the listed symbols. */
  lemma DeletedDefinitions(layout: Layout, db: Db, file: Path, ss: seq<Symbol>, ops: seq<Op>, s: Symbol, m: ModuleName)
    requires DefinitionDeletion(layout, db, file, ss, ops) && AllOnePerModule(layout, db)
    ensures InModule(layout, RecordOf(ApplyAll(db, ops), s), m)
         == if m == layout.ModuleOf(file) && s in ListedSymbols(db, file) then None else InModule(layout, RecordOf(db, s), m)
    ensures SameApartFromSymDefs(db, ApplyAll(db, ops))
  {
    var own := layout.ModuleOf(file);
    RecordsCommit(s => DeletionChange(layout, db, file, s), db, ss, ops, s);
    assert OnePerModule(layout, RecordOf(db, s));
    RemoveThenFind(layout, RecordOf(db, s), own, m);
    if s in ss {
      assert RecordOf(ApplyAll(db, ops), s) == RemoveLocation(layout, RecordOf(db, s), own);
    } else {
      assert RecordOf(ApplyAll(db, ops), s) == RecordOf(db, s);
    }
  }

  lemma DeletionKeepsOnePerModule(layout: Layout, db: Db, file: Path, ss: seq<Symbol>, ops: seq<Op>)
    requires DefinitionDeletion(layout, db, file, ss, ops) && AllOnePerModule(layout, db)
    ensures AllOnePerModule(layout, ApplyAll(db, ops))
  {
    var own := layout.ModuleOf(file);
    var db' := ApplyAll(db, ops);
    forall s | s in db'.symDefs ensures OnePerModule(layout, db'.symDefs[s]) {
      RecordsCommit(s => DeletionChange(layout, db, file, s), db, ss, ops, s);
      assert OnePerModule(layout, RecordOf(db, s));
      RemoveKeepsOnePerModule(layout, RecordOf(db, s), own);
    }
  }

  // ---------- what other files' batches do to a query ----------

  /** The record has an entry of the asking file's own module. */
  predicate HasOwn(layout: Layout, rec: Record, f: Path) {
    layout.ModuleOf(f) != "" && InModule(layout, rec, layout.ModuleOf(f)).Some?
  }

  /** What a query makes of one record. */
  function Seen(layout: Layout, rec: Record, f: Path): Location {
    var loc := GetSymbolLocation(layout, rec, f);
    if loc.IsValid() then loc else if rec == [] then NO_LOCATION else rec[0]
  }

  /** An entry of its own module comes first, the record's first entry is the fallback; and seeing a
      location of one's own module means having one. */
  lemma SeenByModule(layout: Layout, rec: Record, f: Path)
    requires layout.Valid()
    ensures HasOwn(layout, rec, f) ==>
      var loc := InModule(layout, rec, layout.ModuleOf(f)).value;
      Seen(layout, rec, f) == Location(layout.Abs(loc.path), loc.line, loc.column)
      && layout.ModuleOf(Seen(layout, rec, f).path) == layout.ModuleOf(f) && Seen(layout, rec, f).IsValid()
    ensures !HasOwn(layout, rec, f) ==> Seen(layout, rec, f) == if rec == [] then NO_LOCATION else rec[0]
    ensures Seen(layout, rec, f).IsValid() && layout.ModuleOf(f) != "" && layout.ModuleOf(Seen(layout, rec, f).path) == layout.ModuleOf(f)
        ==> HasOwn(layout, rec, f)
  {
    hide FindModule;
    FirstIsOwn(layout, rec, f);
    if HasOwn(layout, rec, f) {
      layout.AbsIsStable(InModule(layout, rec, layout.ModuleOf(f)).value.path);
    }
  }

  lemma FirstIsOwn(layout: Layout, rec: Record, f: Path)
    ensures rec != [] && layout.ModuleOf(f) != "" && layout.ModuleOf(rec[0].path) == layout.ModuleOf(f) ==> HasOwn(layout, rec, f)
  {
  }

  /** What putting a location into the record changes for the file. */
  predicate AddLeaves(layout: Layout, rec: Record, m: ModuleName, loc: Location, f: Path)
    requires HasOwn(layout, rec, f) || rec != []
  {
    if HasOwn(layout, rec, f) then
      m == layout.ModuleOf(f) ==> Location(layout.Abs(loc.path), loc.line, loc.column) == Seen(layout, rec, f)
    else
      (m == layout.ModuleOf(f) ==> m == "") && (m == layout.ModuleOf(rec[0].path) ==> loc == rec[0])
  }

  lemma AddLeavesExactly(layout: Layout, rec: Record, m: ModuleName, loc: Location, f: Path)
    requires layout.Valid() && layout.ModuleOf(loc.path) == m && (HasOwn(layout, rec, f) || rec != [])
    ensures Seen(layout, AddLocation(layout, rec, m, loc), f) == Seen(layout, rec, f) <==> AddLeaves(layout, rec, m, loc, f)
  {
    hide Seen, InModule;
    var own, after := layout.ModuleOf(f), AddLocation(layout, rec, m, loc);
    SeenByModule(layout, rec, f);
    SeenByModule(layout, after, f);
    AddThenFind(layout, rec, m, loc, own);
    if !HasOwn(layout, rec, f) {
      if m == own && own != "" {
        assert HasOwn(layout, after, f);
      } else {
        AddedFirst(layout, rec, m, loc);
      }
    }
  }

  lemma AddedFirst(layout: Layout, rec: Record, m: ModuleName, loc: Location)
    requires rec != []
    ensures var r := AddLocation(layout, rec, m, loc); r != [] && r[0] == if layout.ModuleOf(rec[0].path) == m then loc else rec[0]
  {
  }

  /** What a compile of g leaves of the file's view of s: the symbol must not vanish from g, and what
      is stored must not be another location of the file's own module or of the entry it falls
      back on. */
  predicate WriteLeaves(layout: Layout, db: Db, g: Path, new_: Definitions, s: Symbol, f: Path)
    requires QueryDefinition(layout, db, s, f).IsValid()
  {
    match DefinitionChange(layout, db, g, new_, s)
    case Keep => true
    case Drop => false
    case Store(_) =>
      var loc := if s in DefinitionsOf(layout, db, g) then new_[s] else Location(g, new_[s].line, new_[s].column);
      AddLeaves(layout, RecordOf(db, s), layout.ModuleOf(g), loc, f)
  }

  lemma QueryIsSeen(layout: Layout, db: Db, s: Symbol, f: Path)
    ensures QueryDefinition(layout, db, s, f) == Seen(layout, RecordOf(db, s), f)
    ensures QueryDefinition(layout, db, s, f).IsValid() ==> RecordOf(db, s) != []
  {
  }

  /** A committed compile of any file leaves what a file sees of a symbol as it is exactly then. */
  lemma QueryKeptByWriteExactly(layout: Layout, db: Db, g: Path, new_: Definitions, ss: seq<Symbol>, ops: seq<Op>, s: Symbol, f: Path)
    requires layout.Valid() && DefinedHere(layout, g, new_) && DefinitionBatch(layout, db, g, new_, ss, ops)
    requires QueryDefinition(layout, db, s, f).IsValid()
    ensures QueryDefinition(layout, ApplyAll(db, ops), s, f) == QueryDefinition(layout, db, s, f) <==> WriteLeaves(layout, db, g, new_, s, f)
  {
    hide DefinitionBatch, QueryDefinition, Seen, AddLeaves, AddLocation, DefinitionsOf;
    layout.AbsIsStable(g);
    WrittenDefinitions(layout, db, g, new_, ss, ops, s);
    QueryIsSeen(layout, db, s, f);
    QueryIsSeen(layout, ApplyAll(db, ops), s, f);
    var rec, after := RecordOf(db, s), RecordOf(ApplyAll(db, ops), s);
    match DefinitionChange(layout, db, g, new_, s)
    case Keep => assert after == rec;
    case Drop =>
      assert after == [];
      SeenByModule(layout, after, f);
      NothingInEmpty(layout, f);
    case Store(r) =>
      assert after == r;
      AddLeavesExactly(layout, rec, layout.ModuleOf(g), if s in DefinitionsOf(layout, db, g) then new_[s] else Location(g, new_[s].line, new_[s].column), f);
  }

  lemma NothingInEmpty(layout: Layout, f: Path)
    ensures !HasOwn(layout, [], f)
  {
  }

  /** Erasing a file leaves the view of s as it is exactly when it does not take away the entry seen. */
  predicate DeletionLeaves(layout: Layout, db: Db, g: Path, s: Symbol, f: Path) {
    s in ListedSymbols(db, g) ==> layout.ModuleOf(QueryDefinition(layout, db, s, f).path) != layout.ModuleOf(g)
  }

  lemma QueryKeptByDeletionExactly(layout: Layout, db: Db, g: Path, ss: seq<Symbol>, ops: seq<Op>, s: Symbol, f: Path)
    requires layout.Valid() && DefinitionDeletion(layout, db, g, ss, ops) && AllOnePerModule(layout, db)
    requires QueryDefinition(layout, db, s, f).IsValid()
    ensures QueryDefinition(layout, ApplyAll(db, ops), s, f) == QueryDefinition(layout, db, s, f) <==> DeletionLeaves(layout, db, g, s, f)
  {
    hide QueryDefinition, Seen, RemoveLocation, InModule;
    var own, m := layout.ModuleOf(f), layout.ModuleOf(g);
    RecordsCommit(s => DeletionChange(layout, db, g, s), db, ss, ops, s);
    QueryIsSeen(layout, db, s, f);
    QueryIsSeen(layout, ApplyAll(db, ops), s, f);
    var rec, after := RecordOf(db, s), RecordOf(ApplyAll(db, ops), s);
    assert OnePerModule(layout, rec);
    if s in ListedSymbols(db, g) {
      assert s in ss && after == RemoveLocation(layout, rec, m);
      RemoveLeavesExactly(layout, rec, m, f);
    } else {
      assert after == rec;
    }
  }

  lemma RemoveLeavesExactly(layout: Layout, rec: Record, m: ModuleName, f: Path)
    requires layout.Valid() && OnePerModule(layout, rec) && Seen(layout, rec, f).IsValid()
    ensures Seen(layout, RemoveLocation(layout, rec, m), f) == Seen(layout, rec, f) <==> layout.ModuleOf(Seen(layout, rec, f).path) != m
  {
    hide Seen, InModule;
    var own, after := layout.ModuleOf(f), RemoveLocation(layout, rec, m);
    SeenByModule(layout, rec, f);
    SeenByModule(layout, after, f);
    RemoveThenFind(layout, rec, m, own);
    RemovedFirst(layout, rec, m);
  }

  lemma RemovedFirst(layout: Layout, rec: Record, m: ModuleName)
    requires OnePerModule(layout, rec)
    ensures var r := RemoveLocation(layout, rec, m);
      rec != [] ==>
        if layout.ModuleOf(rec[0].path) == m then r == rec[1..] && (r != [] ==> r[0] != rec[0])
        else r != [] && r[0] == rec[0]
  {
    if rec != [] && layout.ModuleOf(rec[0].path) == m && |rec| > 1 {
      assert layout.ModuleOf(rec[0].path) != layout.ModuleOf(rec[1].path);
    }
  }
}
