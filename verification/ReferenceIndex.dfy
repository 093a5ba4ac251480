/** The reference index.  Every file has a forward record (which symbols it refers to,
    per module, and where) and every symbol an inverse record (module, file, places).
    This module says what the stored records mean, what a batch written for one file
    does to them, and exactly when the two directions still agree afterwards.  */
module ReferenceIndex {
  import opened Basics
  import opened SymbolDb

  datatype SymbolModule = SymbolModule(symbol: Symbol, moduleName: ModuleName)
  datatype SymbolPath = SymbolPath(symbol: Symbol, path: Path)

  type Places = set<LineCol>
  type FileReferences = map<SymbolModule, Places>
  type PathPlaces = map<Path, Places>
  type Postings = map<ModuleName, PathPlaces>

  // ---------- what the stored messages mean ----------

  function DecodePlaces(locations: seq<LineCol>): Places {
    set l | l in locations
  }

  function AddPath(m: PathPlaces, p: PathLocations): PathPlaces {
    m[p.path := (if p.path in m then m[p.path] else {}) + DecodePlaces(p.locations)]
  }

  function DecodePaths(m: PathPlaces, ps: seq<PathLocations>): PathPlaces {
    if ps == [] then m else AddPath(DecodePaths(m, ps[..|ps| - 1]), ps[|ps| - 1])
  }

  function AddItem(m: Postings, item: ReferenceItem): Postings {
    m[item.moduleName :=
      DecodePaths(if item.moduleName in m then m[item.moduleName] else map[], item.pathLocs)]
  }

  function DecodePostings(items: seq<ReferenceItem>): Postings {
    if items == [] then map[] else AddItem(DecodePostings(items[..|items| - 1]), items[|items| - 1])
  }

  function AddReferred(m: FileReferences, r: ReferredSymbol): FileReferences {
    var k := SymbolModule(r.symbolName, r.moduleName);
    m[k := (if k in m then m[k] else {}) + DecodePlaces(r.locations)]
  }

  function DecodeFileReferences(rs: seq<ReferredSymbol>): FileReferences {
    if rs == [] then map[] else AddReferred(DecodeFileReferences(rs[..|rs| - 1]), rs[|rs| - 1])
  }

  function PostingsOf(db: Db, s: Symbol): Postings {
    if s in db.symRefs then DecodePostings(db.symRefs[s]) else map[]
  }

  function ReferencesOf(db: Db, file: Path): FileReferences {
    if file in db.fileRefs then DecodeFileReferences(db.fileRefs[file]) else map[]
  }

  function PlacesIn(post: Postings, m: ModuleName, file: Path): Option<Places> {
    if m in post then Get(post[m], file) else None
  }

  /** Inverse lookup: where does `file` refer to symbol k, according to the symbol's record? */
  function Posted(db: Db, k: SymbolModule, file: Path): Option<Places> {
    PlacesIn(PostingsOf(db, k.symbol), k.moduleName, file)
  }

  // ---------- the messages again, entry by entry ----------

  /** Entry j of item i of a symbol's message is about the file, under the module. */
  predicate EntryAt(items: seq<ReferenceItem>, m: ModuleName, file: Path, i: int, j: int) {
    0 <= i < |items| && 0 <= j < |items[i].pathLocs| && items[i].moduleName == m && items[i].pathLocs[j].path == file
  }

  predicate PathAt(ps: seq<PathLocations>, file: Path, j: int) {
    0 <= j < |ps| && ps[j].path == file
  }

  lemma {:induction false} PathsMean(m: PathPlaces, ps: seq<PathLocations>, file: Path, l: LineCol)
    ensures file in DecodePaths(m, ps) <==> file in m || exists j :: PathAt(ps, file, j)
    ensures file in DecodePaths(m, ps) && l in DecodePaths(m, ps)[file]
       <==> (file in m && l in m[file]) || exists j :: PathAt(ps, file, j) && l in ps[j].locations
  {
    if ps != [] {
      var n := |ps| - 1;
      PathsMean(m, ps[..n], file, l);
      forall j ensures PathAt(ps, file, j) <==> PathAt(ps[..n], file, j) || (j == n && ps[n].path == file) {
      }
      if ps[n].path == file {
        assert PathAt(ps, file, n);
      }
    }
  }

  /** The file has an entry under the module at all, and one that holds the place. */
  ghost predicate HasEntry(items: seq<ReferenceItem>, m: ModuleName, file: Path) {
    exists i, j :: EntryAt(items, m, file, i, j)
  }

  ghost predicate HasPlace(items: seq<ReferenceItem>, m: ModuleName, file: Path, l: LineCol) {
    exists i, j :: EntryAt(items, m, file, i, j) && l in items[i].pathLocs[j].locations
  }

  lemma OneMoreItem(items: seq<ReferenceItem>, m: ModuleName, file: Path, l: LineCol)
    requires items != []
    ensures var front, last := items[..|items| - 1], items[|items| - 1];
      && (HasEntry(items, m, file) <==> HasEntry(front, m, file) || (last.moduleName == m && exists j :: PathAt(last.pathLocs, file, j)))
      && (HasPlace(items, m, file, l) <==>
            (HasPlace(front, m, file, l)
             || (last.moduleName == m && exists j :: PathAt(last.pathLocs, file, j) && l in last.pathLocs[j].locations)))
  {
    var n := |items| - 1;
    var front, last := items[..n], items[n];
    forall i, j ensures EntryAt(items, m, file, i, j)
                   <==> EntryAt(front, m, file, i, j) || (i == n && last.moduleName == m && PathAt(last.pathLocs, file, j)) {
    }
    forall j | last.moduleName == m && PathAt(last.pathLocs, file, j) ensures EntryAt(items, m, file, n, j) {
    }
  }

  lemma ItemMeans(before: Postings, item: ReferenceItem, m: ModuleName, file: Path, l: LineCol)
    ensures m in AddItem(before, item) <==> m in before || item.moduleName == m
    ensures var was, places := PlacesIn(before, m, file), PlacesIn(AddItem(before, item), m, file);
      && (places.Some? <==> was.Some? || (item.moduleName == m && exists j :: PathAt(item.pathLocs, file, j)))
      && (places.Some? && l in places.value <==>
            ((was.Some? && l in was.value)
             || (item.moduleName == m && exists j :: PathAt(item.pathLocs, file, j) && l in item.pathLocs[j].locations)))
  {
    hide DecodePaths, PathAt;
    if item.moduleName == m {
      PathsMean(if m in before then before[m] else map[], item.pathLocs, file, l);
    }
  }

  /** A stored symbol record means: a file is posted under a module if some entry says so, at the
      places of all entries that do. */
  lemma {:induction false} PostingsMean(items: seq<ReferenceItem>, m: ModuleName, file: Path, l: LineCol)
    ensures m in DecodePostings(items) <==> exists i :: 0 <= i < |items| && items[i].moduleName == m
    ensures var places := PlacesIn(DecodePostings(items), m, file);
      && (places.Some? <==> HasEntry(items, m, file))
      && (places.Some? && l in places.value <==> HasPlace(items, m, file, l))
  {
    if items != [] {
      hide AddItem, EntryAt, HasEntry, HasPlace, PathAt, PlacesIn;
      PostingsMean(items[..|items| - 1], m, file, l);
      ItemMeans(DecodePostings(items[..|items| - 1]), items[|items| - 1], m, file, l);
      OneMoreItem(items, m, file, l);
    }
  }

  predicate ReferredAt(rs: seq<ReferredSymbol>, s: Symbol, m: ModuleName, i: int) {
    0 <= i < |rs| && rs[i].symbolName == s && rs[i].moduleName == m
  }

  /** The same for a file's forward record. */
  lemma {:induction false} FileReferencesMean(rs: seq<ReferredSymbol>, s: Symbol, m: ModuleName, l: LineCol)
    ensures var refs, k := DecodeFileReferences(rs), SymbolModule(s, m);
      && (k in refs <==> exists i :: ReferredAt(rs, s, m, i))
      && (k in refs && l in refs[k] <==> exists i :: ReferredAt(rs, s, m, i) && l in rs[i].locations)
  {
    if rs != [] {
      var n := |rs| - 1;
      FileReferencesMean(rs[..n], s, m, l);
      forall i ensures ReferredAt(rs, s, m, i) <==> ReferredAt(rs[..n], s, m, i) || (i == n && rs[n].symbolName == s && rs[n].moduleName == m) {
      }
      if rs[n].symbolName == s && rs[n].moduleName == m {
        assert ReferredAt(rs, s, m, n);
      }
    }
  }

  // ---------- the two directions ----------

  /** The two directions record the same places for one file, under every symbol and module. */
  ghost predicate AgreeFor(db: Db, file: Path) {
    forall k: SymbolModule :: Posted(db, k, file) == Get(ReferencesOf(db, file), k)
  }

  ghost predicate Agree(db: Db) {
    forall file: Path :: AgreeFor(db, file)
  }

  /** The inverse records know nothing of the file. */
  ghost predicate Unposted(db: Db, file: Path) {
    forall k: SymbolModule :: Posted(db, k, file) == None
  }

  /** No stored symbol record is empty or holds an empty module. */
  ghost predicate Compact(db: Db) {
    forall s | s in db.symRefs ::
      PostingsOf(db, s) != map[] && forall m | m in PostingsOf(db, s) :: PostingsOf(db, s)[m] != map[]
  }

  // ---------- new symbols of a compile ----------

  function KeyOf(moduleOf: Path -> ModuleName, r: SymbolPath): SymbolModule {
    SymbolModule(r.symbol, moduleOf(r.path))
  }

  function GroupedKeys(moduleOf: Path -> ModuleName, refs: map<SymbolPath, Places>): set<SymbolModule> {
    set r | r in refs :: KeyOf(moduleOf, r)
  }

  function PlacesFor(moduleOf: Path -> ModuleName, refs: map<SymbolPath, Places>, k: SymbolModule): Places {
    set r, l | r in refs && l in refs[r] && KeyOf(moduleOf, r) == k :: l
  }

  /** The compiler reports references by symbol and defining file; files of one module merge. */
  function Grouped(moduleOf: Path -> ModuleName, refs: map<SymbolPath, Places>): FileReferences {
    map k | k in GroupedKeys(moduleOf, refs) :: PlacesFor(moduleOf, refs, k)
  }

  // ---------- one change to one symbol record ----------

  /** The committed record of a symbol with this file's entry of one module replaced or erased. */
  function Updated(post: Postings, m: ModuleName, file: Path, places: Option<Places>): Postings {
    match places
    case Some(v) => post[m := (if m in post then post[m] else map[])[file := v]]
    case None =>
      if m !in post then post
      else
        var left := post[m] - {file};
        if left == map[] then post - {m} else post[m := left]
  }

  lemma UpdatedPlaces(post: Postings, m: ModuleName, file: Path, places: Option<Places>, m': ModuleName, g: Path)
    ensures PlacesIn(Updated(post, m, file, places), m', g)
         == if m' == m && g == file then places else PlacesIn(post, m', g)
  {
    if places.None? && m in post {
      assert g in post[m] && g != file ==> g in post[m] - {file};
    }
  }

  /** The operation that writes the change of key k for `file`; empty records are deleted. */
  ghost predicate WritesChange(db: Db, file: Path, k: SymbolModule, places: Option<Places>, op: Op) {
    var post := Updated(PostingsOf(db, k.symbol), k.moduleName, file, places);
    if post == map[] then op == DeleteSymRefs(k.symbol)
    else op.PutSymRefs? && op.symbol == k.symbol && DecodePostings(op.items) == post
  }

  /** ops writes, in this order, the changes of keys ks; each is computed from the committed db. */
  ghost predicate WritesChanges(db: Db, file: Path, new_: FileReferences, ks: seq<SymbolModule>, ops: seq<Op>) {
    |ks| == |ops| &&
    forall i | 0 <= i < |ks| :: WritesChange(db, file, ks[i], Get(new_, ks[i]), ops[i])
  }

  /** A key gets a write when it vanished and its module is still in the symbol's record,
      or when it is new or its places differ. */
  predicate NeedsWrite(db: Db, old_: FileReferences, new_: FileReferences, k: SymbolModule) {
    if k in new_ then k !in old_ || old_[k] != new_[k]
    else k in old_ && k.symbol in db.symRefs && k.moduleName in PostingsOf(db, k.symbol)
  }

  /** The loop over vanished keys runs before the loop over new ones. */
  ghost predicate VanishedFirst(ks: seq<SymbolModule>, new_: FileReferences) {
    forall i, j | 0 <= i < j < |ks| && ks[i] in new_ :: ks[j] in new_
  }

  /** What WriteFileReferences adds to the batch, for any order in which each map is walked. */
  ghost predicate ReferenceBatch(db: Db, file: Path, new_: FileReferences, ks: seq<SymbolModule>, ops: seq<Op>) {
    var old_ := ReferencesOf(db, file);
    && (forall k :: k in ks <==> NeedsWrite(db, old_, new_, k))
    && VanishedFirst(ks, new_)
    && if ks == [] then ops == []
       else
         && |ops| == |ks| + 1
         && WritesChanges(db, file, new_, ks, ops[..|ks|])
         && ops[|ks|].PutFileRefs? && ops[|ks|].path == file
         && DecodeFileReferences(ops[|ks|].refs) == new_
  }

  /** What DeleteFileReferredSymbolInfo adds to the batch. */
  ghost predicate ReferenceDeletion(db: Db, file: Path, ks: seq<SymbolModule>, ops: seq<Op>) {
    && (forall k :: k in ks <==> k in ReferencesOf(db, file) && Posted(db, k, file).Some?)
    && WritesChanges(db, file, map[], ks, ops)
  }

  // ---------- the last change of a symbol wins ----------

  ghost predicate SameApartFromSymRefs(db: Db, db': Db) {
    db'.fileInfo == db.fileInfo && db'.fileDefs == db.fileDefs && db'.fileRefs == db.fileRefs && db'.symDefs == db.symDefs
  }

  function LastChange(ks: seq<SymbolModule>, s: Symbol): (last: Option<SymbolModule>)
    ensures last.None? ==> forall k | k in ks :: k.symbol != s
    ensures last.Some? ==> last.value in ks && last.value.symbol == s
  {
    if ks == [] then None
    else if ks[|ks| - 1].symbol == s then Some(ks[|ks| - 1])
    else LastChange(ks[..|ks| - 1], s)
  }

  /** What a commit makes of one symbol's record: only the last change counts, and it starts
      from the record as it was before the batch. */
  ghost predicate OnlyLastChange(db: Db, db': Db, file: Path, new_: FileReferences, s: Symbol, last: Option<SymbolModule>) {
    match last
    case None => Get(db'.symRefs, s) == Get(db.symRefs, s)
    case Some(k) =>
      && PostingsOf(db', s) == Updated(PostingsOf(db, s), k.moduleName, file, Get(new_, k))
      && (s in db'.symRefs ==> PostingsOf(db', s) != map[])
  }

  lemma ChangeCommits(db: Db, acc: Db, file: Path, k: SymbolModule, places: Option<Places>, op: Op)
    requires WritesChange(db, file, k, places, op)
    ensures SameApartFromSymRefs(acc, Apply(acc, op))
    ensures PostingsOf(Apply(acc, op), k.symbol) == Updated(PostingsOf(db, k.symbol), k.moduleName, file, places)
    ensures k.symbol in Apply(acc, op).symRefs ==> PostingsOf(Apply(acc, op), k.symbol) != map[]
    ensures forall s | s != k.symbol :: Get(Apply(acc, op).symRefs, s) == Get(acc.symRefs, s)
  {
  }

  lemma LastChangeExtends(db: Db, acc: Db, file: Path, new_: FileReferences, ks: seq<SymbolModule>, k: SymbolModule, op: Op, s: Symbol)
    requires WritesChange(db, file, k, Get(new_, k), op)
    requires OnlyLastChange(db, acc, file, new_, s, LastChange(ks, s))
    ensures OnlyLastChange(db, Apply(acc, op), file, new_, s, LastChange(ks + [k], s))
  {
    ChangeCommits(db, acc, file, k, Get(new_, k), op);
    assert (ks + [k])[..|ks|] == ks;
    assert k.symbol != s ==> Get(Apply(acc, op).symRefs, s) == Get(acc.symRefs, s);
  }

  lemma {:induction false} ChangesFrame(db: Db, ops: seq<Op>)
    requires forall op | op in ops :: op.PutSymRefs? || op.DeleteSymRefs?
    ensures SameApartFromSymRefs(db, ApplyAll(db, ops))
  {
    if ops != [] {
      ChangesFrame(db, ops[..|ops| - 1]);
      assert ops[|ops| - 1] in ops;
    }
  }

  lemma NothingChanged(db: Db, file: Path, new_: FileReferences, ks: seq<SymbolModule>, s: Symbol)
    requires ks == []
    ensures OnlyLastChange(db, db, file, new_, s, LastChange(ks, s))
  {
  }

  lemma {:induction false} LastChangeCommits(db: Db, file: Path, new_: FileReferences, ks: seq<SymbolModule>, ops: seq<Op>, s: Symbol)
    requires WritesChanges(db, file, new_, ks, ops)
    ensures OnlyLastChange(db, ApplyAll(db, ops), file, new_, s, LastChange(ks, s))
  {
    hide OnlyLastChange, WritesChange, Apply, LastChange;
    if ops == [] {
      NothingChanged(db, file, new_, ks, s);
    } else {
      var n := |ops| - 1;
      LastChangeCommits(db, file, new_, ks[..n], ops[..n], s);
      assert WritesChange(db, file, ks[n], Get(new_, ks[n]), ops[n]);
      LastChangeExtends(db, ApplyAll(db, ops[..n]), file, new_, ks[..n], ks[n], ops[n], s);
      assert ks[..n] + [ks[n]] == ks;
    }
  }

  lemma ChangesCommit(db: Db, file: Path, new_: FileReferences, ks: seq<SymbolModule>, ops: seq<Op>, s: Symbol)
    requires WritesChanges(db, file, new_, ks, ops)
    ensures SameApartFromSymRefs(db, ApplyAll(db, ops))
    ensures OnlyLastChange(db, ApplyAll(db, ops), file, new_, s, LastChange(ks, s))
  {
    forall i | 0 <= i < |ops| ensures ops[i].PutSymRefs? || ops[i].DeleteSymRefs? {
      assert WritesChange(db, file, ks[i], Get(new_, ks[i]), ops[i]);
    }
    ChangesFrame(db, ops);
    LastChangeCommits(db, file, new_, ks, ops, s);
  }

  lemma OnlySymRefsMatter(db: Db, d: Db, e: Db, file: Path, new_: FileReferences, s: Symbol, last: Option<SymbolModule>)
    requires OnlyLastChange(db, d, file, new_, s, last) && d.symRefs == e.symRefs
    ensures OnlyLastChange(db, e, file, new_, s, last)
  {
  }

  /** No two modules of one symbol change together: a caller can tell from the file's old
      record and the new symbols. */
  ghost predicate OneChangePerSymbol(old_: FileReferences, new_: FileReferences) {
    forall k: SymbolModule, l: SymbolModule | k.symbol == l.symbol && Get(old_, k) != Get(new_, k) && Get(old_, l) != Get(new_, l) :: k == l
  }

  /** The effect of a committed reference batch, whatever the database was. */
  lemma WrittenPostings(db: Db, file: Path, new_: FileReferences, ks: seq<SymbolModule>, ops: seq<Op>, s: Symbol)
    requires ReferenceBatch(db, file, new_, ks, ops)
    ensures OnlyLastChange(db, ApplyAll(db, ops), file, new_, s, LastChange(ks, s))
    ensures ReferencesOf(ApplyAll(db, ops), file) == if ks == [] then ReferencesOf(db, file) else new_
    ensures forall g | g != file :: Get(ApplyAll(db, ops).fileRefs, g) == Get(db.fileRefs, g)
    ensures ApplyAll(db, ops).fileInfo == db.fileInfo && ApplyAll(db, ops).fileDefs == db.fileDefs
    ensures ApplyAll(db, ops).symDefs == db.symDefs
  {
    hide OnlyLastChange, WritesChanges, LastChange, DecodeFileReferences;
    if ks == [] {
      NothingChanged(db, file, new_, ks, s);
    } else {
      var n := |ks|;
      ChangesCommit(db, file, new_, ks, ops[..n], s);
      assert ops[..|ops| - 1] == ops[..n];
      OnlySymRefsMatter(db, ApplyAll(db, ops[..n]), ApplyAll(db, ops), file, new_, s, LastChange(ks, s));
    }
  }

  // ---------- WriteFileReferences ----------

  /** Other files' postings are untouched by every write, agreeing indexes or not. */
  lemma WriteLeavesOtherFiles(db: Db, file: Path, new_: FileReferences, ks: seq<SymbolModule>, ops: seq<Op>, g: Path, k: SymbolModule)
    requires ReferenceBatch(db, file, new_, ks, ops) && g != file
    ensures Posted(ApplyAll(db, ops), k, g) == Posted(db, k, g)
    ensures Get(ReferencesOf(ApplyAll(db, ops), g), k) == Get(ReferencesOf(db, g), k)
  {
    hide ReferenceBatch, DecodePostings, DecodeFileReferences, Updated;
    WrittenPostings(db, file, new_, ks, ops, k.symbol);
    var last := LastChange(ks, k.symbol);
    if last.Some? {
      UpdatedPlaces(PostingsOf(db, k.symbol), last.value.moduleName, file, Get(new_, last.value), k.moduleName, g);
    }
    assert Get(ApplyAll(db, ops).fileRefs, g) == Get(db.fileRefs, g);
  }

  lemma WriteLeavesOtherAgreement(db: Db, file: Path, new_: FileReferences, ks: seq<SymbolModule>, ops: seq<Op>, g: Path)
    requires ReferenceBatch(db, file, new_, ks, ops) && g != file
    ensures AgreeFor(ApplyAll(db, ops), g) <==> AgreeFor(db, g)
    ensures Unposted(ApplyAll(db, ops), g) <==> Unposted(db, g)
  {
    hide ReferenceBatch, Posted, ReferencesOf;
    forall k: SymbolModule
      ensures Posted(ApplyAll(db, ops), k, g) == Posted(db, k, g)
      ensures Get(ReferencesOf(ApplyAll(db, ops), g), k) == Get(ReferencesOf(db, g), k)
    {
      WriteLeavesOtherFiles(db, file, new_, ks, ops, g, k);
    }
  }

  /** What a write makes of the file's own postings: those of the last change of each symbol. */
  lemma WrittenPlaces(db: Db, file: Path, new_: FileReferences, ks: seq<SymbolModule>, ops: seq<Op>, k: SymbolModule)
    requires ReferenceBatch(db, file, new_, ks, ops)
    ensures Posted(ApplyAll(db, ops), k, file) == if LastChange(ks, k.symbol) == Some(k) then Get(new_, k) else Posted(db, k, file)
  {
    hide ReferenceBatch, DecodePostings, Updated;
    WrittenPostings(db, file, new_, ks, ops, k.symbol);
    var last := LastChange(ks, k.symbol);
    if last.Some? {
      UpdatedPlaces(PostingsOf(db, k.symbol), last.value.moduleName, file, Get(new_, last.value), k.moduleName, file);
    } else {
      assert Get(ApplyAll(db, ops).symRefs, k.symbol) == Get(db.symRefs, k.symbol);
    }
  }

  /** The forward record after a write: untouched when nothing had to be written. */
  function ForwardAfter(db: Db, file: Path, new_: FileReferences, ks: seq<SymbolModule>): FileReferences {
    if ks == [] then ReferencesOf(db, file) else new_
  }

  /** Whatever state a file's records are in, its indexes agree after a write exactly when every
      key is the last change of its symbol or was posted with its new places before. */
  lemma WriteAgreesInGeneral(db: Db, file: Path, new_: FileReferences, ks: seq<SymbolModule>, ops: seq<Op>)
    requires ReferenceBatch(db, file, new_, ks, ops)
    ensures AgreeFor(ApplyAll(db, ops), file) <==>
      forall k: SymbolModule :: LastChange(ks, k.symbol) == Some(k) || Posted(db, k, file) == Get(ForwardAfter(db, file, new_, ks), k)
  {
    hide ReferenceBatch, Posted, ReferencesOf, LastChange;
    WrittenPostings(db, file, new_, ks, ops, "");
    forall k: SymbolModule
      ensures Posted(ApplyAll(db, ops), k, file) == if LastChange(ks, k.symbol) == Some(k) then Get(new_, k) else Posted(db, k, file)
      ensures LastChange(ks, k.symbol) == Some(k) ==> ks != []
    {
      WrittenPlaces(db, file, new_, ks, ops, k);
      LastIsThere(ks, k.symbol);
    }
  }

  lemma LastIsThere(ks: seq<SymbolModule>, s: Symbol)
    ensures LastChange(ks, s).Some? ==> ks != []
  {
  }

  /** From indexes that agree for the file a key is written exactly when its places changed. */
  lemma WrittenKeysAreChanges(db: Db, file: Path, new_: FileReferences, ks: seq<SymbolModule>, ops: seq<Op>, k: SymbolModule)
    requires AgreeFor(db, file) && ReferenceBatch(db, file, new_, ks, ops)
    ensures k in ks <==> Get(ReferencesOf(db, file), k) != Get(new_, k)
  {
    assert Posted(db, k, file) == Get(ReferencesOf(db, file), k);
  }

  /** The file's forward record always ends up equal to the new symbols. */
  lemma WriteSetsForwardRecord(db: Db, file: Path, new_: FileReferences, ks: seq<SymbolModule>, ops: seq<Op>)
    requires AgreeFor(db, file) && ReferenceBatch(db, file, new_, ks, ops)
    ensures ForwardAfter(db, file, new_, ks) == new_
    ensures ReferencesOf(ApplyAll(db, ops), file) == new_
  {
    hide ReferencesOf;
    WrittenPostings(db, file, new_, ks, ops, "");
    if ks == [] {
      var old_ := ReferencesOf(db, file);
      forall k ensures Get(old_, k) == Get(new_, k) {
        WrittenKeysAreChanges(db, file, new_, ks, ops, k);
      }
      SameLookups(old_, new_);
    }
  }

  /** From indexes that agree for the file, nothing is written if and only if the compile found exactly
      what is stored. */
  lemma NothingWrittenExactly(db: Db, file: Path, new_: FileReferences, ks: seq<SymbolModule>, ops: seq<Op>)
    requires AgreeFor(db, file) && ReferenceBatch(db, file, new_, ks, ops)
    ensures ops == [] <==> ReferencesOf(db, file) == new_
  {
    hide AgreeFor, ReferencesOf;
    var old_ := ReferencesOf(db, file);
    if ks == [] {
      WriteSetsForwardRecord(db, file, new_, ks, ops);
    } else {
      assert ks[0] in ks;
      WrittenKeysAreChanges(db, file, new_, ks, ops, ks[0]);
    }
  }

  lemma SameLookups<K, V>(m: map<K, V>, n: map<K, V>)
    requires forall k :: Get(m, k) == Get(n, k)
    ensures m == n
  {
    forall k ensures (k in m <==> k in n) && (k in m ==> m[k] == n[k]) {
      assert Get(m, k) == Get(n, k);
    }
  }

  lemma WriteKeepsAgreement(db: Db, file: Path, new_: FileReferences, ks: seq<SymbolModule>, ops: seq<Op>)
    requires AgreeFor(db, file) && ReferenceBatch(db, file, new_, ks, ops)
    requires OneChangePerSymbol(ReferencesOf(db, file), new_)
    ensures AgreeFor(ApplyAll(db, ops), file)
  {
    hide ReferenceBatch, ReferencesOf, Posted, LastChange, ForwardAfter;
    WriteSetsForwardRecord(db, file, new_, ks, ops);
    WriteAgreesInGeneral(db, file, new_, ks, ops);
    forall k: SymbolModule ensures LastChange(ks, k.symbol) == Some(k) || Posted(db, k, file) == Get(new_, k) {
      assert Posted(db, k, file) == Get(ReferencesOf(db, file), k);
      var last := LastChange(ks, k.symbol);
      WrittenKeysAreChanges(db, file, new_, ks, ops, k);
      if last.Some? {
        WrittenKeysAreChanges(db, file, new_, ks, ops, last.value);
      }
    }
  }

  /** Two changed modules of one symbol: whichever is written first is lost. */
  lemma TwoChangesLoseOne(db: Db, file: Path, new_: FileReferences, ks: seq<SymbolModule>, ops: seq<Op>, k: SymbolModule, l: SymbolModule)
    requires AgreeFor(db, file) && ReferenceBatch(db, file, new_, ks, ops)
    requires k != l && k.symbol == l.symbol
    requires Get(ReferencesOf(db, file), k) != Get(new_, k) && Get(ReferencesOf(db, file), l) != Get(new_, l)
    ensures !AgreeFor(ApplyAll(db, ops), file)
  {
    hide ReferenceBatch, ReferencesOf, Posted, LastChange, ForwardAfter;
    WriteSetsForwardRecord(db, file, new_, ks, ops);
    WriteAgreesInGeneral(db, file, new_, ks, ops);
    var lost := if LastChange(ks, k.symbol) == Some(k) then l else k;
    assert Posted(db, lost, file) == Get(ReferencesOf(db, file), lost);
  }

  /** From indexes that agree for the file, a committed compile keeps them agreeing if and only if
      no symbol changes under two modules at once; the walk order of the maps does not matter. */
  lemma WriteAgreesExactly(db: Db, file: Path, new_: FileReferences, ks: seq<SymbolModule>, ops: seq<Op>)
    requires AgreeFor(db, file) && ReferenceBatch(db, file, new_, ks, ops)
    ensures AgreeFor(ApplyAll(db, ops), file) <==> OneChangePerSymbol(ReferencesOf(db, file), new_)
  {
    var old_ := ReferencesOf(db, file);
    if OneChangePerSymbol(old_, new_) {
      WriteKeepsAgreement(db, file, new_, ks, ops);
    } else {
      var k: SymbolModule, l: SymbolModule :| k.symbol == l.symbol && Get(old_, k) != Get(new_, k) && Get(old_, l) != Get(new_, l) && k != l;
      TwoChangesLoseOne(db, file, new_, ks, ops, k, l);
    }
  }

  /** The same for the indexes as a whole. */
  lemma WriteAgreesEverywhereExactly(db: Db, file: Path, new_: FileReferences, ks: seq<SymbolModule>, ops: seq<Op>)
    requires Agree(db) && ReferenceBatch(db, file, new_, ks, ops)
    ensures Agree(ApplyAll(db, ops)) <==> OneChangePerSymbol(ReferencesOf(db, file), new_)
  {
    hide AgreeFor, ReferenceBatch, OneChangePerSymbol;
    assert AgreeFor(db, file);
    WriteAgreesExactly(db, file, new_, ks, ops);
    forall g | g != file ensures AgreeFor(ApplyAll(db, ops), g) {
      assert AgreeFor(db, g);
      WriteLeavesOtherAgreement(db, file, new_, ks, ops, g);
    }
  }

  lemma UpdatedStaysCompact(post: Postings, m: ModuleName, file: Path, places: Option<Places>)
    requires forall n | n in post :: post[n] != map[]
    ensures forall n | n in Updated(post, m, file, places) :: Updated(post, m, file, places)[n] != map[]
  {
    if places.Some? {
      assert file in (if m in post then post[m] else map[])[file := places.value];
    }
  }

  lemma WriteKeepsCompact(db: Db, file: Path, new_: FileReferences, ks: seq<SymbolModule>, ops: seq<Op>)
    requires Compact(db) && ReferenceBatch(db, file, new_, ks, ops)
    ensures Compact(ApplyAll(db, ops))
  {
    var db' := ApplyAll(db, ops);
    forall s | s in db'.symRefs
      ensures PostingsOf(db', s) != map[] && forall m | m in PostingsOf(db', s) :: PostingsOf(db', s)[m] != map[]
    {
      WrittenPostings(db, file, new_, ks, ops, s);
      var last := LastChange(ks, s);
      if last.Some? {
        UpdatedStaysCompact(PostingsOf(db, s), last.value.moduleName, file, Get(new_, last.value));
      } else {
        assert Get(db'.symRefs, s) == Get(db.symRefs, s);
        assert s in db.symRefs && db.symRefs[s] == db'.symRefs[s];
      }
    }
  }

  // ---------- DeleteFileReferredSymbolInfo ----------

  /** Each symbol appears under one module in the file's record. */
  ghost predicate OneModulePerSymbol(refs: FileReferences) {
    forall k, l | k in refs && l in refs && k.symbol == l.symbol :: k == l
  }

  lemma DeletedPlaces(db: Db, file: Path, ks: seq<SymbolModule>, ops: seq<Op>, k: SymbolModule, g: Path)
    requires ReferenceDeletion(db, file, ks, ops)
    ensures Posted(ApplyAll(db, ops), k, g) == if g == file && LastChange(ks, k.symbol) == Some(k) then None else Posted(db, k, g)
    ensures SameApartFromSymRefs(db, ApplyAll(db, ops))
  {
    ChangesCommit(db, file, map[], ks, ops, k.symbol);
    var last := LastChange(ks, k.symbol);
    if last.Some? {
      UpdatedPlaces(PostingsOf(db, k.symbol), last.value.moduleName, file, None, k.moduleName, g);
    } else {
      assert Get(ApplyAll(db, ops).symRefs, k.symbol) == Get(db.symRefs, k.symbol);
    }
  }

  /** The deletion touches no other file, and no forward record: not even the file's own. */
  lemma DeleteLeavesOthers(db: Db, file: Path, ks: seq<SymbolModule>, ops: seq<Op>, g: Path, k: SymbolModule)
    requires ReferenceDeletion(db, file, ks, ops)
    ensures g != file ==> Posted(ApplyAll(db, ops), k, g) == Posted(db, k, g)
    ensures ReferencesOf(ApplyAll(db, ops), g) == ReferencesOf(db, g)
  {
    DeletedPlaces(db, file, ks, ops, k, g);
  }

  lemma DeleteLeavesOtherAgreement(db: Db, file: Path, ks: seq<SymbolModule>, ops: seq<Op>, g: Path)
    requires ReferenceDeletion(db, file, ks, ops) && g != file
    ensures AgreeFor(ApplyAll(db, ops), g) <==> AgreeFor(db, g)
    ensures Unposted(ApplyAll(db, ops), g) <==> Unposted(db, g)
  {
    hide ReferenceDeletion, Posted, ReferencesOf;
    forall k: SymbolModule
      ensures Posted(ApplyAll(db, ops), k, g) == Posted(db, k, g)
      ensures ReferencesOf(ApplyAll(db, ops), g) == ReferencesOf(db, g)
    {
      DeleteLeavesOthers(db, file, ks, ops, g, k);
    }
  }

  /** From indexes that agree for the file the deletion removes every posting of the file
      if and only if each symbol appears under one module in the file's record. */
  lemma DeleteRemovesExactly(db: Db, file: Path, ks: seq<SymbolModule>, ops: seq<Op>)
    requires AgreeFor(db, file) && ReferenceDeletion(db, file, ks, ops)
    ensures Unposted(ApplyAll(db, ops), file) <==> OneModulePerSymbol(ReferencesOf(db, file))
    ensures ReferencesOf(ApplyAll(db, ops), file) == ReferencesOf(db, file)
  {
    var refs := ReferencesOf(db, file);
    var db' := ApplyAll(db, ops);
    DeleteLeavesOthers(db, file, ks, ops, file, SymbolModule("", ""));
    if OneModulePerSymbol(refs) {
      forall k: SymbolModule ensures Posted(db', k, file) == None {
        DeletedPlaces(db, file, ks, ops, k, file);
        assert Posted(db, k, file) == Get(refs, k);
      }
    } else {
      var k, l :| k in refs && l in refs && k.symbol == l.symbol && k != l;
      assert Posted(db, k, file) == Get(refs, k) && Posted(db, l, file) == Get(refs, l);
      DeletedPlaces(db, file, ks, ops, k, file);
      DeletedPlaces(db, file, ks, ops, l, file);
    }
  }

  /** A file without postings stays so. */
  lemma DeleteKeepsUnposted(db: Db, file: Path, ks: seq<SymbolModule>, ops: seq<Op>)
    requires Unposted(db, file) && ReferenceDeletion(db, file, ks, ops)
    ensures Unposted(ApplyAll(db, ops), file)
  {
    forall k: SymbolModule ensures Posted(ApplyAll(db, ops), k, file) == None {
      DeletedPlaces(db, file, ks, ops, k, file);
      assert Posted(db, k, file) == None;
    }
  }

  /** The deletion leaves no empty record and no empty module behind. */
  lemma DeleteKeepsCompact(db: Db, file: Path, ks: seq<SymbolModule>, ops: seq<Op>)
    requires Compact(db) && ReferenceDeletion(db, file, ks, ops)
    ensures Compact(ApplyAll(db, ops))
  {
    var db' := ApplyAll(db, ops);
    forall s | s in db'.symRefs
      ensures PostingsOf(db', s) != map[] && forall m | m in PostingsOf(db', s) :: PostingsOf(db', s)[m] != map[]
    {
      ChangesCommit(db, file, map[], ks, ops, s);
      var last := LastChange(ks, s);
      if last.Some? {
        UpdatedStaysCompact(PostingsOf(db, s), last.value.moduleName, file, None);
      } else {
        assert Get(db'.symRefs, s) == Get(db.symRefs, s);
        assert s in db.symRefs && db.symRefs[s] == db'.symRefs[s];
      }
    }
  }

  // ---------- deleting and compiling again (RebuildFile) ----------

  /** When a compile of a file without postings brings the indexes back together. */
  ghost predicate RecompileRestores(db: Db, file: Path, new_: FileReferences) {
    var old_ := ReferencesOf(db, file);
    && (forall k | k in new_ && k in old_ :: old_[k] != new_[k])
    && OneModulePerSymbol(new_)
    && (new_ == map[] && old_ != map[] ==> exists k | k in old_ :: k.moduleName in PostingsOf(db, k.symbol))
  }

  lemma {:induction false} LastChangeIsLast(ks: seq<SymbolModule>, i: nat)
    requires i < |ks|
    requires forall j | i < j < |ks| :: ks[j].symbol != ks[i].symbol || ks[j] == ks[i]
    ensures LastChange(ks, ks[i].symbol) == Some(ks[i])
  {
    if i < |ks| - 1 && ks[|ks| - 1].symbol != ks[i].symbol {
      LastChangeIsLast(ks[..|ks| - 1], i);
    }
  }

  lemma NewKeyIsLast(new_: FileReferences, ks: seq<SymbolModule>, k: SymbolModule)
    requires VanishedFirst(ks, new_) && OneModulePerSymbol(new_) && k in ks && k in new_
    ensures LastChange(ks, k.symbol) == Some(k)
  {
    var i :| 0 <= i < |ks| && ks[i] == k;
    LastChangeIsLast(ks, i);
  }

  /** Compiling again after the file's postings were deleted: the indexes agree for it if and only
      if no symbol kept its old places, each symbol has one module, and an empty result still
      found something to write. */
  lemma RecompileAgreesExactly(db: Db, file: Path, new_: FileReferences, ks: seq<SymbolModule>, ops: seq<Op>)
    requires Unposted(db, file) && ReferenceBatch(db, file, new_, ks, ops)
    ensures AgreeFor(ApplyAll(db, ops), file) <==> RecompileRestores(db, file, new_)
  {
    hide Posted, PostingsOf, ReferencesOf, LastChange;
    WriteAgreesInGeneral(db, file, new_, ks, ops);
    var after := ForwardAfter(db, file, new_, ks);
    if RecompileRestores(db, file, new_) {
      RestoredForwardRecord(db, file, new_, ks, ops);
      forall k: SymbolModule ensures LastChange(ks, k.symbol) == Some(k) || Posted(db, k, file) == Get(after, k) {
        assert Posted(db, k, file) == None;
        if k in new_ {
          NewKeyIsLast(new_, ks, k);
        }
      }
    }
    if AgreeFor(ApplyAll(db, ops), file) {
      forall k: SymbolModule ensures LastChange(ks, k.symbol) == Some(k) || Get(after, k) == None {
        assert Posted(db, k, file) == None;
      }
      AgreementNeedsRestoring(db, file, new_, ks);
    }
  }

  lemma RestoredForwardRecord(db: Db, file: Path, new_: FileReferences, ks: seq<SymbolModule>, ops: seq<Op>)
    requires RecompileRestores(db, file, new_) && ReferenceBatch(db, file, new_, ks, ops)
    ensures ForwardAfter(db, file, new_, ks) == new_
    ensures forall k | k in new_ :: k in ks
  {
    if ks == [] {
      var old_ := ReferencesOf(db, file);
      forall k: SymbolModule ensures k !in new_ && (k in old_ ==> k.moduleName !in PostingsOf(db, k.symbol)) {
        assert k !in ks && !NeedsWrite(db, old_, new_, k);
      }
    }
  }

  lemma AgreementNeedsRestoring(db: Db, file: Path, new_: FileReferences, ks: seq<SymbolModule>)
    requires forall k: SymbolModule :: k in ks <==> NeedsWrite(db, ReferencesOf(db, file), new_, k)
    requires forall k: SymbolModule :: LastChange(ks, k.symbol) == Some(k) || Get(ForwardAfter(db, file, new_, ks), k) == None
    ensures RecompileRestores(db, file, new_)
  {
    var old_ := ReferencesOf(db, file);
    if ks == [] {
      forall k: SymbolModule ensures k !in old_ && k !in new_ {
        assert Get(old_, k) == None;
        assert k !in ks && !NeedsWrite(db, old_, new_, k);
      }
    } else {
      forall k | k in new_ ensures LastChange(ks, k.symbol) == Some(k) && k in ks {
        assert Get(ForwardAfter(db, file, new_, ks), k) == Some(new_[k]);
        var last := LastChange(ks, k.symbol);
        assert last == Some(k);
      }
      if new_ == map[] {
        assert ks[0] in ks;
        assert ks[0] in old_ && ks[0].moduleName in PostingsOf(db, ks[0].symbol);
      }
    }
  }

  lemma SomeKey(ks: seq<SymbolModule>)
    ensures ks != [] ==> exists k :: k in ks
  {
    if ks != [] {
      assert ks[0] in ks;
    }
  }

  /** An unchanged file that is rebuilt loses its postings for good: the second compile writes
      nothing, because the forward record was never deleted. */
  lemma IdenticalRebuildLosesPostings(db: Db, file: Path, ks: seq<SymbolModule>, ops: seq<Op>, ks': seq<SymbolModule>, ops': seq<Op>)
    requires AgreeFor(db, file) && OneModulePerSymbol(ReferencesOf(db, file)) && ReferenceDeletion(db, file, ks, ops)
    requires ReferenceBatch(ApplyAll(db, ops), file, ReferencesOf(db, file), ks', ops')
    ensures ops' == []
    ensures forall k | k in ReferencesOf(db, file) ::
      Posted(db, k, file).Some? && Posted(ApplyAll(ApplyAll(db, ops), ops'), k, file) == None
    ensures AgreeFor(ApplyAll(ApplyAll(db, ops), ops'), file) <==> ReferencesOf(db, file) == map[]
  {
    hide DecodePostings, DecodeFileReferences, WritesChanges;
    var refs, db' := ReferencesOf(db, file), ApplyAll(db, ops);
    DeleteRemovesExactly(db, file, ks, ops);
    assert forall k :: !NeedsWrite(db', refs, refs, k);
    SomeKey(ks');
    assert ApplyAll(db', []) == db';
    forall k | k in refs ensures Posted(db, k, file).Some? && Posted(db', k, file) == None {
      assert Posted(db, k, file) == Get(refs, k);
    }
    if AgreeFor(db', file) {
      forall k ensures k !in refs {
        assert Posted(db', k, file) == Get(refs, k);
      }
    }
  }
}
