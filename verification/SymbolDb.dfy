/** The symbol database: the records stored under each key family, and the write
    batch that a BatchWriter applies in one go when it is destroyed.  */
module SymbolDb {
  import opened Basics

  type Symbol = string
  type ModuleName = string
  type Path = string

  datatype LineCol = LineCol(line: nat, column: nat)

  datatype Location = Location(path: Path, line: nat, column: nat) {
    /** A location without a file name is the "not found" value. */
    predicate IsValid() {
      path != ""
    }
  }

  const NO_LOCATION := Location("", 0, 0)

  // The stored messages.
  datatype FileBasicInfo = FileBasicInfo(lastMtime: int, contentMd5: string)
  datatype PathLocations = PathLocations(path: Path, locations: seq<LineCol>)
  datatype ReferenceItem = ReferenceItem(moduleName: ModuleName, pathLocs: seq<PathLocations>)
  datatype ReferredSymbol = ReferredSymbol(moduleName: ModuleName, symbolName: Symbol, locations: seq<LineCol>)

  /** One map per key family; KeyTextInjective shows that the families never share a key.  The two
      single records (home directory and project information) are not read by the indexes. */
  datatype Db = Db(
    fileInfo: map<Path, FileBasicInfo>,
    fileDefs: map<Path, seq<Symbol>>,
    fileRefs: map<Path, seq<ReferredSymbol>>,
    symDefs: map<Symbol, seq<Location>>,
    symRefs: map<Symbol, seq<ReferenceItem>>)

  const EMPTY_DB := Db(map[], map[], map[], map[], map[])

  // ---------- keys ----------

  /** The five families, and the two single records of a database: the home directory, and the
      project information under the bare name of the project. */
  datatype Key =
    | FileInfoKey(path: Path)
    | FileDefsKey(path: Path)
    | FileRefsKey(path: Path)
    | SymDefsKey(symbol: Symbol)
    | SymRefsKey(symbol: Symbol)
    | HomeKey
    | ProjectKey(name: string)

  function KeyText(k: Key): string {
    match k
    case FileInfoKey(p) => "file" + ":" + "info" + ":" + p
    case FileDefsKey(p) => "file" + ":" + "symdef" + ":" + p
    case FileRefsKey(p) => "file" + ":" + "symref" + ":" + p
    case SymDefsKey(s) => "symdef" + ":" + s
    case SymRefsKey(s) => "symref" + ":" + s
    case HomeKey => "home"
    case ProjectKey(name) => name
  }

  function KeyPrefix(k: Key): string {
    match k
    case FileInfoKey(_) => "file:info:"
    case FileDefsKey(_) => "file:symdef:"
    case FileRefsKey(_) => "file:symref:"
    case SymDefsKey(_) => "symdef:"
    case SymRefsKey(_) => "symref:"
    case HomeKey => "home"
    case ProjectKey(_) => ""
  }

  function KeyName(k: Key): string {
    match k
    case FileInfoKey(p) => p
    case FileDefsKey(p) => p
    case FileRefsKey(p) => p
    case SymDefsKey(s) => s
    case SymRefsKey(s) => s
    case HomeKey => ""
    case ProjectKey(name) => name
  }

  lemma KeyTextSplits(k: Key)
    ensures KeyText(k) == KeyPrefix(k) + KeyName(k)
  {
  }

  /** Five characters tell the prefixes of the families apart, and the home key from them. */
  lemma PrefixesDiffer(k: Key, l: Key)
    requires !k.ProjectKey? && !l.ProjectKey? && KeyPrefix(k) <= KeyText(l)
    ensures KeyPrefix(k) == KeyPrefix(l)
  {
    KeyTextSplits(l);
    var p, q, text := KeyPrefix(k), KeyPrefix(l), KeyText(l);
    assert p[0] == text[0] == q[0];
    if !k.HomeKey? && !l.HomeKey? {
      assert p[3] == text[3] == q[3] && p[5] == text[5] == q[5];
      if (k.FileDefsKey? || k.FileRefsKey?) && (l.FileDefsKey? || l.FileRefsKey?) {
        assert p[8] == text[8] == q[8];
      }
    }
  }

  /** Two records are stored under the same text only when they are the same record, whatever the
      symbol and path names contain (colons included), as long as neither is the project record. */
  lemma KeyTextInjective(k: Key, l: Key)
    requires !k.ProjectKey? && !l.ProjectKey?
    ensures KeyText(k) == KeyText(l) <==> k == l
  {
    if KeyText(k) == KeyText(l) {
      KeyTextSplits(k);
      KeyTextSplits(l);
      PrefixesDiffer(k, l);
      var n := |KeyPrefix(k)|;
      assert KeyName(k) == KeyText(k)[n..] == KeyName(l);
    }
  }

  /** The project's name is the text of another record. */
  predicate NameTaken(name: string) {
    || name == "home"
    || "file:info:" <= name || "file:symdef:" <= name || "file:symref:" <= name
    || "symdef:" <= name || "symref:" <= name
  }

  /** The record that holds such a text. */
  function Holder(name: string): Key
    requires NameTaken(name)
  {
    if "file:info:" <= name then FileInfoKey(name[10..])
    else if "file:symdef:" <= name then FileDefsKey(name[12..])
    else if "file:symref:" <= name then FileRefsKey(name[12..])
    else if "symdef:" <= name then SymDefsKey(name[7..])
    else if "symref:" <= name then SymRefsKey(name[7..])
    else HomeKey
  }

  lemma HolderText(name: string)
    requires NameTaken(name)
    ensures KeyPrefix(Holder(name)) + KeyName(Holder(name)) == name
  {
  }

  /** The project record shares its key with another one exactly for such names. */
  lemma ProjectKeyCollidesExactly(name: string)
    ensures (exists k :: k != ProjectKey(name) && KeyText(k) == KeyText(ProjectKey(name))) <==> NameTaken(name)
  {
    hide KeyText;
    KeyTextSplits(ProjectKey(name));
    if NameTaken(name) {
      HolderText(name);
      KeyTextSplits(Holder(name));
      assert Holder(name) != ProjectKey(name);
    }
    if k :| k != ProjectKey(name) && KeyText(k) == KeyText(ProjectKey(name)) {
      KeyTextSplits(k);
      PrefixTaken(k, name);
    }
  }

  lemma PrefixTaken(k: Key, name: string)
    requires KeyPrefix(k) + KeyName(k) == name && k != ProjectKey(name)
    ensures NameTaken(name)
  {
    assert KeyPrefix(k) <= name;
  }

  // ---------- batches ----------

  datatype Op =
    | PutFileInfo(path: Path, info: FileBasicInfo)
    | DeleteFileInfo(path: Path)
    | PutFileDefs(path: Path, symbols: seq<Symbol>)
    | DeleteFileDefs(path: Path)
    | PutFileRefs(path: Path, refs: seq<ReferredSymbol>)
    | PutSymDefs(symbol: Symbol, locations: seq<Location>)
    | DeleteSymDefs(symbol: Symbol)
    | PutSymRefs(symbol: Symbol, items: seq<ReferenceItem>)
    | DeleteSymRefs(symbol: Symbol)

  function Apply(db: Db, op: Op): Db {
    match op
    case PutFileInfo(p, info) => db.(fileInfo := db.fileInfo[p := info])
    case DeleteFileInfo(p) => db.(fileInfo := db.fileInfo - {p})
    case PutFileDefs(p, symbols) => db.(fileDefs := db.fileDefs[p := symbols])
    case DeleteFileDefs(p) => db.(fileDefs := db.fileDefs - {p})
    case PutFileRefs(p, refs) => db.(fileRefs := db.fileRefs[p := refs])
    case PutSymDefs(s, locations) => db.(symDefs := db.symDefs[s := locations])
    case DeleteSymDefs(s) => db.(symDefs := db.symDefs - {s})
    case PutSymRefs(s, items) => db.(symRefs := db.symRefs[s := items])
    case DeleteSymRefs(s) => db.(symRefs := db.symRefs - {s})
  }

  /** Commit: the operations take effect in the order in which they were added. */
  function ApplyAll(db: Db, ops: seq<Op>): Db {
    if ops == [] then db else Apply(ApplyAll(db, ops[..|ops| - 1]), ops[|ops| - 1])
  }

  lemma {:induction false} ApplyAllConcat(db: Db, ops: seq<Op>, more: seq<Op>)
    ensures ApplyAll(db, ops + more) == ApplyAll(ApplyAll(db, ops), more)
  {
    if more == [] {
      assert ops + more == ops;
    } else {
      var n := |more| - 1;
      assert (ops + more)[..|ops + more| - 1] == ops + more[..n];
      ApplyAllConcat(db, ops, more[..n]);
    }
  }
}
