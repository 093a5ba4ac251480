/** The project object: its database, its in_parsing_files_ and abs_src_paths_ sets, and the two
    queues it posts to.  Its methods walk the maps as the original does; since they never rely
    on the order, a set stands for the keys of a map still to be visited.  */
module Project {
  import opened Basics
  import opened SymbolDb
  import opened ReferenceIndex
  import D = DefinitionIndex
  import opened CompileCommit
  import P = BuildProtocol

  // ---------- stored messages ----------

  lemma RestGrows<K, V>(m: map<K, V>, rest: set<K>, k: K)
    requires k in rest && rest <= m.Keys
    ensures m - (rest - {k}) == (m - rest)[k := m[k]]
  {
  }

  method EncodePlaces(places: Places) returns (r: seq<LineCol>)
    ensures DecodePlaces(r) == places
  {
    r := [];
    var rest := places;
    while rest != {}
      invariant rest <= places && DecodePlaces(r) == places - rest
    {
      var l :| l in rest;
      assert DecodePlaces(r + [l]) == DecodePlaces(r) + {l};
      r := r + [l];
      rest := rest - {l};
    }
  }

  method EncodePaths(m: PathPlaces) returns (r: seq<PathLocations>)
    ensures DecodePaths(map[], r) == m
  {
    r := [];
    var rest := m.Keys;
    while rest != {}
      invariant rest <= m.Keys && DecodePaths(map[], r) == m - rest
    {
      var p :| p in rest;
      var places := EncodePlaces(m[p]);
      var item := PathLocations(p, places);
      RestGrows(m, rest, p);
      assert (r + [item])[..|r|] == r;
      assert DecodePaths(map[], r + [item]) == AddPath(m - rest, item);
      assert {} + m[p] == m[p];
      r := r + [item];
      rest := rest - {p};
    }
    assert m - {} == m;
  }

  /** Writing a symbol record and reading it back loses nothing. */
  method EncodePostings(m: Postings) returns (items: seq<ReferenceItem>)
    ensures DecodePostings(items) == m
  {
    items := [];
    var rest := m.Keys;
    while rest != {}
      invariant rest <= m.Keys && DecodePostings(items) == m - rest
    {
      var name :| name in rest;
      var paths := EncodePaths(m[name]);
      var item := ReferenceItem(name, paths);
      RestGrows(m, rest, name);
      assert (items + [item])[..|items|] == items;
      items := items + [item];
      rest := rest - {name};
    }
    assert m - {} == m;
  }

  method EncodeFileReferences(m: FileReferences) returns (rs: seq<ReferredSymbol>)
    ensures DecodeFileReferences(rs) == m
  {
    rs := [];
    var rest := m.Keys;
    while rest != {}
      invariant rest <= m.Keys && DecodeFileReferences(rs) == m - rest
    {
      var k :| k in rest;
      var places := EncodePlaces(m[k]);
      var item := ReferredSymbol(k.moduleName, k.symbol, places);
      RestGrows(m, rest, k);
      assert (rs + [item])[..|rs|] == rs;
      assert DecodeFileReferences(rs + [item]) == AddReferred(m - rest, item);
      assert {} + m[k] == m[k];
      rs := rs + [item];
      rest := rest - {k};
    }
    assert m - {} == m;
  }

  method ReadPlaces(start: Places, locations: seq<LineCol>) returns (places: Places)
    ensures places == start + DecodePlaces(locations)
  {
    places := start;
    for i := 0 to |locations|
      invariant places == start + DecodePlaces(locations[..i])
    {
      places := places + {locations[i]};
    }
    assert locations[..|locations|] == locations;
  }

  method ReadPostings(items: seq<ReferenceItem>) returns (post: Postings)
    ensures post == DecodePostings(items)
  {
    post := map[];
    for i := 0 to |items|
      invariant post == DecodePostings(items[..i])
    {
      var item := items[i];
      var start := if item.moduleName in post then post[item.moduleName] else map[];
      var paths := start;
      for j := 0 to |item.pathLocs|
        invariant paths == DecodePaths(start, item.pathLocs[..j])
      {
        var p := item.pathLocs[j];
        var places := ReadPlaces(if p.path in paths then paths[p.path] else {}, p.locations);
        paths := paths[p.path := places];
        assert item.pathLocs[..j + 1][..j] == item.pathLocs[..j];
      }
      assert item.pathLocs[..|item.pathLocs|] == item.pathLocs;
      post := post[item.moduleName := paths];
      assert items[..i + 1][..i] == items[..i];
    }
    assert items[..|items|] == items;
  }

  method ReadFileReferences(rs: seq<ReferredSymbol>) returns (refs: FileReferences)
    ensures refs == DecodeFileReferences(rs)
  {
    refs := map[];
    for i := 0 to |rs|
      invariant refs == DecodeFileReferences(rs[..i])
    {
      var k := SymbolModule(rs[i].symbolName, rs[i].moduleName);
      var places := ReadPlaces(if k in refs then refs[k] else {}, rs[i].locations);
      refs := refs[k := places];
      assert rs[..i + 1][..i] == rs[..i];
    }
    assert rs[..|rs|] == rs;
  }

  method SymbolList(symbols: set<Symbol>) returns (r: seq<Symbol>)
    ensures forall s :: s in r <==> s in symbols
  {
    r := [];
    var rest := symbols;
    while rest != {}
      invariant rest <= symbols && forall s :: s in r <==> s in symbols - rest
    {
      var s :| s in rest;
      r := r + [s];
      rest := rest - {s};
    }
  }

  /** Collects operations; Project.Commit applies them in order. */
  class BatchWriter {
    var ops: seq<Op>

    constructor ()
      ensures ops == []
    {
      ops := [];
    }

    method Add(op: Op)
      modifies this
      ensures ops == old(ops) + [op]
    {
      ops := ops + [op];
    }
  }

  class Project {
    const layout: D.Layout
    const hasFlags: Path -> bool
    var db: Db
    var inParsing: set<Path>
    var sources: set<Path>
    var tasks: seq<Path>
    var queue: seq<P.Message>
    /** The project record of the database: the sources as last saved. */
    var savedSources: set<Path>

    constructor (layout: D.Layout, hasFlags: Path -> bool, db: Db)
      requires layout.Valid()
      ensures this.layout == layout && this.hasFlags == hasFlags
      ensures Shared() == P.Shared(db, {}, {}, [], []) && savedSources == {}
    {
      this.layout, this.hasFlags, this.db := layout, hasFlags, db;
      inParsing, sources, tasks, queue, savedSources := {}, {}, [], [], {};
    }

    /** The state of the build protocol that this object holds. */
    function Shared(): P.Shared
      reads this
    {
      P.Shared(db, inParsing, sources, tasks, queue)
    }

    method Commit(writer: BatchWriter)
      modifies this`db
      ensures db == ApplyAll(old(db), writer.ops)
    {
      db := ApplyAll(db, writer.ops);
    }

    // ---------- references ----------

    method LoadSymbolReferenceInfo(s: Symbol) returns (found: bool, post: Postings)
      ensures found <==> s in db.symRefs
      ensures post == PostingsOf(db, s)
    {
      if s !in db.symRefs {
        return false, map[];
      }
      post := ReadPostings(db.symRefs[s]);
      found := true;
    }

    method LoadFileReferredSymbolInfo(file: Path) returns (found: bool, refs: FileReferences)
      ensures found <==> file in db.fileRefs
      ensures refs == ReferencesOf(db, file)
    {
      if file !in db.fileRefs {
        return false, map[];
      }
      refs := ReadFileReferences(db.fileRefs[file]);
      found := true;
    }

    method PutSymbolReference(writer: BatchWriter, s: Symbol, post: Postings) returns (ghost op: Op)
      modifies writer
      ensures writer.ops == old(writer.ops) + [op]
      ensures if post == map[] then op == DeleteSymRefs(s)
              else op.PutSymRefs? && op.symbol == s && DecodePostings(op.items) == post
    {
      if post == map[] {
        op := DeleteSymRefs(s);
        writer.Add(DeleteSymRefs(s));
      } else {
        var items := EncodePostings(post);
        op := PutSymRefs(s, items);
        writer.Add(PutSymRefs(s, items));
      }
    }

    /** Merge the reported references of all files of one module. */
    method GroupReferences(referred: map<SymbolPath, Places>) returns (refs: FileReferences)
      ensures refs == Grouped(p => layout.ModuleOf(p), referred)
      ensures FiledByModule(layout, referred, refs)
    {
      ghost var moduleOf := p => layout.ModuleOf(p);
      refs := map[];
      var rest := referred.Keys;
      while rest != {}
        invariant rest <= referred.Keys
        invariant refs == Grouped(moduleOf, referred - rest)
      {
        var r :| r in rest;
        ghost var before := referred - rest;
        var k := SymbolModule(r.symbol, layout.ModuleOf(r.path));
        refs := refs[k := (if k in refs then refs[k] else {}) + referred[r]];
        rest := rest - {r};
        GroupedGrows(moduleOf, before, referred - rest, r);
      }
      assert referred - {} == referred;
      GroupedByModule(layout, referred);
    }

    /** The loop over the symbols that are no longer referred to. */
    method EraseVanished(file: Path, old_: FileReferences, new_: FileReferences, writer: BatchWriter)
      returns (changed: bool, ghost keys: seq<SymbolModule>, ghost added: seq<Op>)
      modifies writer
      ensures writer.ops == old(writer.ops) + added
      ensures changed <==> keys != []
      ensures forall k :: k in keys <==> k !in new_ && NeedsWrite(db, old_, new_, k)
      ensures WritesChanges(db, file, new_, keys, added)
    {
      changed, keys, added := false, [], [];
      var rest := old_.Keys;
      while rest != {}
        invariant rest <= old_.Keys
        invariant writer.ops == old(writer.ops) + added
        invariant changed <==> keys != []
        invariant forall k :: k in keys <==> k !in rest && k !in new_ && NeedsWrite(db, old_, new_, k)
        invariant WritesChanges(db, file, new_, keys, added)
      {
        var k :| k in rest;
        rest := rest - {k};
        if k in new_ {
          continue;
        }
        var found, post := LoadSymbolReferenceInfo(k.symbol);
        if !found || k.moduleName !in post {
          continue;
        }
        changed := true;
        var left := post[k.moduleName] - {file};
        post := if left == map[] then post - {k.moduleName} else post[k.moduleName := left];
        assert post == Updated(PostingsOf(db, k.symbol), k.moduleName, file, None);
        ghost var op := PutSymbolReference(writer, k.symbol, post);
        AppendChange(db, file, new_, keys, added, k, op);
        Associative(old(writer.ops), added, [op]);
        assert NeedsWrite(db, old_, new_, k);
        assert forall l :: l in keys + [k] <==> l in keys || l == k;
        keys, added := keys + [k], added + [op];
      }
    }

    /** The loop over the symbols that are new or referred to in other places. */
    method WriteChanged(file: Path, old_: FileReferences, new_: FileReferences, writer: BatchWriter)
      returns (changed: bool, ghost keys: seq<SymbolModule>, ghost added: seq<Op>)
      modifies writer
      ensures writer.ops == old(writer.ops) + added
      ensures changed <==> keys != []
      ensures forall k :: k in keys <==> k in new_ && NeedsWrite(db, old_, new_, k)
      ensures WritesChanges(db, file, new_, keys, added)
    {
      changed, keys, added := false, [], [];
      var rest := new_.Keys;
      while rest != {}
        invariant rest <= new_.Keys
        invariant writer.ops == old(writer.ops) + added
        invariant changed <==> keys != []
        invariant forall k :: k in keys <==> k in new_.Keys - rest && NeedsWrite(db, old_, new_, k)
        invariant WritesChanges(db, file, new_, keys, added)
      {
        var k :| k in rest;
        rest := rest - {k};
        if k !in old_ || old_[k] != new_[k] {
          var _, post := LoadSymbolReferenceInfo(k.symbol);
          post := post[k.moduleName := (if k.moduleName in post then post[k.moduleName] else map[])[file := new_[k]]];
          changed := true;
          assert post == Updated(PostingsOf(db, k.symbol), k.moduleName, file, Some(new_[k]));
          ghost var op := PutSymbolReference(writer, k.symbol, post);
          AppendChange(db, file, new_, keys, added, k, op);
          Associative(old(writer.ops), added, [op]);
          assert forall l :: l in keys + [k] <==> l in keys || l == k;
          keys, added := keys + [k], added + [op];
        }
      }
    }

    method WriteFileReferences(unit: TranslationUnit, file: Path, writer: BatchWriter)
      returns (ghost keys: seq<SymbolModule>, ghost added: seq<Op>)
      modifies writer
      ensures writer.ops == old(writer.ops) + added
      ensures ReferenceBatch(db, file, NewReferences(layout, unit), keys, added)
    {
      var new_ := GroupReferences(unit.referred);
      var _, old_ := LoadFileReferredSymbolInfo(file);
      ghost var start, d := writer.ops, db;
      ghost var gone, goneOps, more, moreOps;
      var erased, wrote;
      erased, gone, goneOps := EraseVanished(file, old_, new_, writer);
      wrote, more, moreOps := WriteChanged(file, old_, new_, writer);
      Associative(start, goneOps, moreOps);
      keys, added := gone + more, goneOps + moreOps;
      var refs: seq<ReferredSymbol> := [];
      if erased || wrote {
        refs := EncodeFileReferences(new_);
        writer.Add(PutFileRefs(file, refs));
        Associative(start, added, [PutFileRefs(file, refs)]);
        added := added + [PutFileRefs(file, refs)];
      }
      FinishReferences(d, file, new_, gone, goneOps, more, moreOps, refs, added);
    }

    method DeleteFileReferredSymbolInfo(file: Path, writer: BatchWriter)
      returns (ghost keys: seq<SymbolModule>, ghost added: seq<Op>)
      modifies writer
      ensures writer.ops == old(writer.ops) + added
      ensures ReferenceDeletion(db, file, keys, added)
    {
      var _, old_ := LoadFileReferredSymbolInfo(file);
      keys, added := [], [];
      var rest := old_.Keys;
      while rest != {}
        invariant rest <= old_.Keys
        invariant writer.ops == old(writer.ops) + added
        invariant forall k :: k in keys <==> k in old_.Keys - rest && Posted(db, k, file).Some?
        invariant WritesChanges(db, file, map[], keys, added)
      {
        var k :| k in rest;
        rest := rest - {k};
        var found, post := LoadSymbolReferenceInfo(k.symbol);
        if !found || k.moduleName !in post || file !in post[k.moduleName] {
          continue;
        }
        var left := post[k.moduleName] - {file};
        post := if left == map[] then post - {k.moduleName} else post[k.moduleName := left];
        ghost var op := PutSymbolReference(writer, k.symbol, post);
        keys, added := keys + [k], added + [op];
      }
    }

    // ---------- definitions ----------

    method GetSymbolLocation(rec: D.Record, file: Path) returns (loc: Location)
      ensures loc == D.GetSymbolLocation(layout, rec, file)
    {
      var m := layout.ModuleOf(file);
      if m == "" {
        return NO_LOCATION;
      }
      for i := 0 to |rec|
        invariant forall j | 0 <= j < i :: layout.ModuleOf(rec[j].path) != m
      {
        var other := layout.ModuleOf(rec[i].path);
        if other == "" {
          continue;
        }
        if m == other {
          D.FirstInModule(layout, rec, m, i);
          return Location(layout.Abs(rec[i].path), rec[i].line, rec[i].column);
        }
      }
      loc := NO_LOCATION;
    }

    method AddSymbolLocation(rec: D.Record, m: ModuleName, loc: Location) returns (r: D.Record)
      ensures r == D.AddLocation(layout, rec, m, loc)
    {
      for i := 0 to |rec|
        invariant forall j | 0 <= j < i :: layout.ModuleOf(rec[j].path) != m
      {
        if m == layout.ModuleOf(rec[i].path) {
          assert D.FindModule(layout, rec, m) == i;
          return rec[i := loc];
        }
      }
      r := rec + [loc];
    }

    method RemoveSymbolLocation(rec: D.Record, m: ModuleName) returns (removed: bool, r: D.Record)
      ensures r == D.RemoveLocation(layout, rec, m)
      ensures removed <==> D.InModule(layout, rec, m).Some?
    {
      for i := 0 to |rec|
        invariant forall j | 0 <= j < i :: layout.ModuleOf(rec[j].path) != m
      {
        if m == layout.ModuleOf(rec[i].path) {
          assert D.FindModule(layout, rec, m) == i;
          return true, rec[..i] + rec[i + 1..];
        }
      }
      removed, r := false, rec;
    }

    method QuerySymbolDefinition(s: Symbol, file: Path) returns (loc: Location)
      ensures loc == D.QueryDefinition(layout, db, s, file)
    {
      if s !in db.symDefs {
        assert D.GetSymbolLocation(layout, [], file) == NO_LOCATION;
        return NO_LOCATION;
      }
      loc := GetSymbolLocation(db.symDefs[s], file);
      if loc.IsValid() {
        return;
      }
      if db.symDefs[s] == [] {
        return NO_LOCATION;
      }
      loc := db.symDefs[s][0];
    }

    method LoadFileDefinedSymbolInfo(file: Path) returns (found: bool, symbols: D.Definitions)
      ensures found <==> file in db.fileDefs
      ensures symbols == D.DefinitionsOf(layout, db, file)
      ensures forall s :: s in symbols <==> file in db.fileDefs && s in db.fileDefs[file] && D.QueryDefinition(layout, db, s, file).path != ""
      ensures forall s | s in symbols :: symbols[s] == D.QueryDefinition(layout, db, s, file)
    {
      symbols := map[];
      found := file in db.fileDefs;
      if !found {
        return;
      }
      var listed := db.fileDefs[file];
      for i := 0 to |listed|
        invariant symbols == map s | s in listed[..i] && D.QueryDefinition(layout, db, s, file).IsValid() ::
                               D.QueryDefinition(layout, db, s, file)
      {
        var loc := QuerySymbolDefinition(listed[i], file);
        assert forall s :: s in listed[..i + 1] <==> s in listed[..i] || s == listed[i];
        if !loc.IsValid() {
          continue;
        }
        symbols := symbols[listed[i] := loc];
      }
      assert listed[..|listed|] == listed;
    }

    method PutSymbol(writer: BatchWriter, s: Symbol, loc: Location, m: ModuleName) returns (ghost op: Op)
      modifies writer
      ensures op == PutSymDefs(s, D.AddLocation(layout, D.RecordOf(db, s), m, loc))
      ensures writer.ops == old(writer.ops) + [op]
    {
      var rec := if s in db.symDefs then db.symDefs[s] else [];
      rec := AddSymbolLocation(rec, m, loc);
      op := PutSymDefs(s, rec);
      writer.Add(PutSymDefs(s, rec));
    }

    /** The loop over the symbols that the file already defined. */
    method UpdateDefinitions(file: Path, old_: D.Definitions, new_: D.Definitions, writer: BatchWriter)
      returns (changed: bool, ghost ss: seq<Symbol>, ghost added: seq<Op>)
      requires old_ == D.DefinitionsOf(layout, db, file)
      modifies writer
      ensures writer.ops == old(writer.ops) + added
      ensures changed <==> ss != []
      ensures forall s :: s in ss <==> s in old_ && D.DefinitionChange(layout, db, file, new_, s) != D.Keep
      ensures D.WritesRecords(s => D.DefinitionChange(layout, old(db), file, new_, s), ss, added)
    {
      var m := layout.ModuleOf(file);
      ghost var d := db;
      ghost var changes := s => D.DefinitionChange(layout, d, file, new_, s);
      changed, ss, added := false, [], [];
      var rest := old_.Keys;
      while rest != {}
        invariant rest <= old_.Keys
        invariant writer.ops == old(writer.ops) + added
        invariant changed <==> ss != []
        invariant forall s :: s in ss <==> s in old_.Keys - rest && changes(s) != D.Keep
        invariant D.WritesRecords(changes, ss, added)
      {
        var s :| s in rest;
        rest := rest - {s};
        D.ChangeOfKnown(layout, d, file, new_, s);
        assert forall t :: t in ss + [s] <==> t in ss || t == s;
        if s !in new_ {
          writer.Add(DeleteSymDefs(s));
          D.AppendRecord(changes, ss, added, s, DeleteSymDefs(s));
          Associative(old(writer.ops), added, [DeleteSymDefs(s)]);
          ss, added := ss + [s], added + [DeleteSymDefs(s)];
          changed := true;
        } else {
          var loc := QuerySymbolDefinition(s, file);
          if loc != new_[s] {
            ghost var op := PutSymbol(writer, s, new_[s], m);
            D.AppendRecord(changes, ss, added, s, op);
            Associative(old(writer.ops), added, [op]);
            ss, added := ss + [s], added + [op];
            changed := true;
          }
        }
      }
    }

    /** The loop over the symbols that the file did not define before. */
    method AddDefinitions(file: Path, old_: D.Definitions, new_: D.Definitions, writer: BatchWriter)
      returns (changed: bool, ghost ss: seq<Symbol>, ghost added: seq<Op>)
      requires old_ == D.DefinitionsOf(layout, db, file)
      modifies writer
      ensures writer.ops == old(writer.ops) + added
      ensures changed <==> ss != []
      ensures forall s :: s in ss <==> s !in old_ && D.DefinitionChange(layout, db, file, new_, s) != D.Keep
      ensures D.WritesRecords(s => D.DefinitionChange(layout, old(db), file, new_, s), ss, added)
    {
      var m := layout.ModuleOf(file);
      ghost var d := db;
      ghost var changes := s => D.DefinitionChange(layout, d, file, new_, s);
      changed, ss, added := false, [], [];
      var rest := new_.Keys;
      while rest != {}
        invariant rest <= new_.Keys
        invariant writer.ops == old(writer.ops) + added
        invariant changed <==> ss != []
        invariant forall s :: s in ss <==> s !in rest && s !in old_ && changes(s) != D.Keep
        invariant D.WritesRecords(changes, ss, added)
      {
        var s :| s in rest;
        rest := rest - {s};
        if s in old_ {
          continue;
        }
        changed := true;
        assert forall t :: t in ss + [s] <==> t in ss || t == s;
        ghost var op := PutSymbol(writer, s, Location(file, new_[s].line, new_[s].column), m);
        D.AppendRecord(changes, ss, added, s, op);
        Associative(old(writer.ops), added, [op]);
        ss, added := ss + [s], added + [op];
      }
    }

    method WriteFileDefinitions(unit: TranslationUnit, file: Path, writer: BatchWriter)
      returns (ghost ss: seq<Symbol>, ghost added: seq<Op>)
      modifies writer
      ensures writer.ops == old(writer.ops) + added
      ensures D.DefinitionBatch(layout, db, file, unit.defined, ss, added)
    {
      var new_ := unit.defined;
      var _, old_ := LoadFileDefinedSymbolInfo(file);
      ghost var start, d := writer.ops, db;
      ghost var known, knownOps, more, moreOps;
      var updated, wrote;
      updated, known, knownOps := UpdateDefinitions(file, old_, new_, writer);
      wrote, more, moreOps := AddDefinitions(file, old_, new_, writer);
      Associative(start, knownOps, moreOps);
      ss, added := known + more, knownOps + moreOps;
      var last := DeleteFileDefs(file);
      if updated || wrote {
        if new_ != map[] {
          var symbols := SymbolList(new_.Keys);
          last := PutFileDefs(file, symbols);
        }
        writer.Add(last);
        Associative(start, added, [last]);
        added := added + [last];
      }
      D.FinishDefinitions(layout, d, file, old_, new_, known, knownOps, more, moreOps, last, added);
    }

    method DeleteFileDefinedSymbolInfo(file: Path, writer: BatchWriter)
      returns (ghost ss: seq<Symbol>, ghost added: seq<Op>)
      modifies writer
      ensures writer.ops == old(writer.ops) + added
      ensures D.DefinitionDeletion(layout, db, file, ss, added)
    {
      ss, added := [], [];
      if file !in db.fileDefs {
        return;
      }
      var m := layout.ModuleOf(file);
      ghost var d := db;
      ghost var changes := s => D.DeletionChange(layout, d, file, s);
      var listed := db.fileDefs[file];
      for i := 0 to |listed|
        invariant writer.ops == old(writer.ops) + added
        invariant forall s :: s in ss <==> s in listed[..i] && s in db.symDefs
        invariant D.WritesRecords(changes, ss, added)
      {
        var s := listed[i];
        assert forall t :: t in listed[..i + 1] <==> t in listed[..i] || t == s;
        if s !in db.symDefs {
          continue;
        }
        var _, rec := RemoveSymbolLocation(db.symDefs[s], m);
        writer.Add(PutSymDefs(s, rec));
        ss, added := ss + [s], added + [PutSymDefs(s, rec)];
      }
      assert listed[..|listed|] == listed;
    }

    // ---------- handlers on the main thread ----------

    method WriteCompiledFile(unit: TranslationUnit, file: Path, info: FileBasicInfo) returns (ghost b: Batch)
      modifies this`db
      ensures CompileBatch(layout, old(db), file, unit, b)
      ensures db == Compiled(old(db), file, info, b)
    {
      hide D.DefinitionBatch, ReferenceBatch;
      var writer := new BatchWriter();
      writer.Add(PutFileInfo(file, info));
      ghost var ss, defs := WriteFileDefinitions(unit, file, writer);
      ghost var ks, refs := WriteFileReferences(unit, file, writer);
      b := Batch(ss, defs, ks, refs);
      assert writer.ops == CompileOps(file, info, b);
      Commit(writer);
    }

    method EraseFile(file: Path) returns (ghost b: Batch)
      modifies this`db
      ensures ErasureBatch(layout, old(db), file, b)
      ensures db == Erased(old(db), file, b)
    {
      hide D.DefinitionDeletion, ReferenceDeletion;
      var writer := new BatchWriter();
      writer.Add(DeleteFileInfo(file));
      ghost var ss, defs := DeleteFileDefinedSymbolInfo(file, writer);
      ghost var ks, refs := DeleteFileReferredSymbolInfo(file, writer);
      b := Batch(ss, defs, ks, refs);
      assert writer.ops == ErasureOps(file, b);
      Commit(writer);
    }

    method BuildFile(file: Path)
      modifies this`inParsing, this`tasks
      ensures Shared() == P.BuildFile(old(Shared()), file, hasFlags(file))
    {
      if file in inParsing {
        return;
      }
      if !hasFlags(file) {
        return;
      }
      inParsing := inParsing + {file};
      tasks := tasks + [file];
    }

    method RebuildFile(file: Path) returns (ghost b: Batch)
      modifies this`db, this`inParsing, this`tasks
      ensures file !in old(inParsing) ==> ErasureBatch(layout, old(db), file, b)
      ensures Shared() == P.RebuildFile(old(Shared()), file, hasFlags(file), b)
    {
      if file in inParsing {
        b := P.NO_BATCH;
        return;
      }
      b := EraseFile(file);
      BuildFile(file);
    }

    method DeleteUnexistFile(file: Path) returns (ghost b: Batch)
      modifies this`db, this`inParsing, this`sources, this`savedSources
      ensures file in old(sources) ==> ErasureBatch(layout, old(db), file, b)
      ensures savedSources == if file in old(sources) then sources else old(savedSources)
      ensures Shared() == P.DeleteUnexistFile(old(Shared()), file, b)
      ensures sources == old(sources) - {file}
    {
      if file !in sources {
        b := P.NO_BATCH;
        return;
      }
      sources := sources - {file};
      inParsing := inParsing - {file};
      b := EraseFile(file);
      savedSources := sources;
    }

    /** The main thread runs the oldest posted handler. */
    method HandleMessage() returns (ghost b: Batch)
      requires queue != []
      modifies this`db, this`inParsing, this`queue
      ensures old(queue)[0].WriteCompiled? ==> CompileBatch(layout, old(db), old(queue)[0].path, old(queue)[0].unit, b)
      ensures Shared() == P.HandleMessage(old(Shared()), b)
    {
      var m := queue[0];
      queue := queue[1..];
      match m {
        case WriteCompiled(file, info, unit) =>
          b := WriteCompiledFile(unit, file, info);
        case RemoveParsing(file) =>
          b := P.NO_BATCH;
          inParsing := inParsing - {file};
      }
    }

    /** Start a build of every source that is not excluded, and save the list of sources. */
    method Build(isExcluded: Path -> bool) returns (ghost steps: seq<P.Step>)
      modifies this
      ensures db == old(db) && sources == old(sources) && queue == old(queue)
      ensures savedSources == sources
      ensures inParsing == old(inParsing) + (set p | p in sources && !isExcluded(p) && hasFlags(p))
      ensures AddsTasks(old(tasks), tasks, inParsing - old(inParsing))
      ensures OnlyBuilds(steps, sources, hasFlags) && P.SharedLeads(layout, old(Shared()), steps, Shared())
    {
      hide P.SharedLeads, AddsTasks;
      P.SharedStays(layout, Shared());
      NoTasksAdded(tasks);
      assert inParsing - old(inParsing) == {};
      steps := [];
      var rest := sources;
      while rest != {}
        invariant rest <= sources
        invariant db == old(db) && sources == old(sources) && queue == old(queue)
        invariant inParsing == old(inParsing) + (set p | p in sources - rest && !isExcluded(p) && hasFlags(p))
        invariant AddsTasks(old(tasks), tasks, inParsing - old(inParsing))
        invariant OnlyBuilds(steps, sources, hasFlags) && P.SharedLeads(layout, old(Shared()), steps, Shared())
      {
        var p :| p in rest;
        rest := rest - {p};
        if isExcluded(p) {
          continue;
        }
        ghost var was, parsing, before := tasks, inParsing, Shared();
        BuildFile(p);
        P.SharedBuild(layout, old(Shared()), steps, before, p, hasFlags(p));
        steps := steps + [P.Build(p, hasFlags(p))];
        if p !in parsing && hasFlags(p) {
          OneMoreTask(old(tasks), was, parsing - old(inParsing), p);
          assert inParsing - old(inParsing) == parsing - old(inParsing) + {p};
        }
      }
      savedSources := sources;
    }

    /** A full synchronisation: the reload of the flag cache yields the new source set.  The files
        that left the project are passed to DeleteUnexistFile after they left the set, so nothing
        of theirs is erased: no record of the indexes changes and only builds are started.  When
        the reload throws, the sources it had found so far replace the old ones and nothing is
        built; BuildProtocol.DroppedFileStays says what that means for the files that dropped out.
        The steps are those of the protocol that it takes, whatever the workers are doing. */
    method ForceSync(rebuilt: set<Path>, isExcluded: Path -> bool, thrown: bool) returns (ghost steps: seq<P.Step>)
      modifies this
      ensures db == old(db) && sources == rebuilt && queue == old(queue)
      ensures thrown ==> Shared() == old(Shared()).(sources := rebuilt) && savedSources == old(savedSources)
      ensures !thrown ==> inParsing == old(inParsing) + (set p | p in rebuilt && !isExcluded(p) && hasFlags(p))
      ensures !thrown ==> AddsTasks(old(tasks), tasks, inParsing - old(inParsing)) && savedSources == rebuilt
      ensures P.SharedLeads(layout, old(Shared()), steps, Shared())
      ensures SyncSteps(steps, rebuilt, hasFlags, thrown)
    {
      hide P.SharedLeads, AddsTasks;
      var before := sources;
      sources := rebuilt;
      steps := [P.SetSources(rebuilt)];
      P.SharedSetSources(layout, old(Shared()), rebuilt);
      if thrown {
        return;
      }
      var rest := before;
      while rest != {}
        invariant Shared() == old(Shared()).(sources := rebuilt) && savedSources == old(savedSources)
        invariant steps != [] && steps[0] == P.SetSources(rebuilt) && DeletesNothing(steps[1..], rebuilt)
        invariant P.SharedLeads(layout, old(Shared()), steps, Shared())
      {
        var p :| p in rest;
        rest := rest - {p};
        if p !in sources {
          ghost var e := DeleteUnexistFile(p);
          P.SharedDeletesNothing(layout, old(Shared()), steps, Shared(), p, e);
          assert (steps + [P.DeleteFile(p, e)])[1..] == steps[1..] + [P.DeleteFile(p, e)];
          steps := steps + [P.DeleteFile(p, e)];
        }
      }
      ghost var sh, builds := Shared(), [];
      builds := Build(isExcluded);
      P.SharedLeadsOn(layout, old(Shared()), steps, sh, builds, Shared());
      assert (steps + builds)[1..] == steps[1..] + builds;
      steps := steps + builds;
    }
  }

  ghost predicate OnlyBuilds(steps: seq<P.Step>, sources: set<Path>, hasFlags: Path -> bool) {
    forall s | s in steps :: s.Build? && s.p in sources && s.hasFlags == hasFlags(s.p)
  }

  /** The steps delete files that are not sources. */
  ghost predicate DeletesNothing(steps: seq<P.Step>, sources: set<Path>) {
    forall s | s in steps :: s.DeleteFile? && s.p !in sources
  }

  /** The source set is replaced; unless the reload threw, deletions without effect and builds follow. */
  ghost predicate SyncSteps(steps: seq<P.Step>, rebuilt: set<Path>, hasFlags: Path -> bool, thrown: bool) {
    && steps != [] && steps[0] == P.SetSources(rebuilt)
    && if thrown then steps[1..] == []
       else exists gone, builds :: steps[1..] == gone + builds && DeletesNothing(gone, rebuilt) && OnlyBuilds(builds, rebuilt, hasFlags)
  }

  /** Each path of the set was added to the tasks once, and nothing else. */
  ghost predicate AddsTasks(before: seq<Path>, after: seq<Path>, added: set<Path>) {
    && before <= after
    && (forall p :: p in after[|before|..] <==> p in added)
    && forall i, j | |before| <= i < j < |after| :: after[i] != after[j]
  }

  lemma NoTasksAdded(tasks: seq<Path>)
    ensures AddsTasks(tasks, tasks, {})
  {
  }

  lemma OneMoreTask(before: seq<Path>, was: seq<Path>, added: set<Path>, p: Path)
    requires AddsTasks(before, was, added) && p !in added
    ensures AddsTasks(before, was + [p], added + {p})
  {
    var after := was + [p];
    assert after[|before|..] == was[|before|..] + [p];
    forall i | |before| <= i < |was| ensures after[i] != p {
      assert was[i] == was[|before|..][i - |before|];
    }
  }

  lemma AppendChange(db: Db, file: Path, new_: FileReferences, keys: seq<SymbolModule>, ops: seq<Op>, k: SymbolModule, op: Op)
    requires WritesChanges(db, file, new_, keys, ops) && WritesChange(db, file, k, Get(new_, k), op)
    ensures WritesChanges(db, file, new_, keys + [k], ops + [op])
  {
  }

  lemma ConcatChanges(db: Db, file: Path, new_: FileReferences, ks: seq<SymbolModule>, ops: seq<Op>, ls: seq<SymbolModule>, more: seq<Op>)
    requires WritesChanges(db, file, new_, ks, ops) && WritesChanges(db, file, new_, ls, more)
    ensures WritesChanges(db, file, new_, ks + ls, ops + more)
  {
    forall i | 0 <= i < |ks + ls| ensures WritesChange(db, file, (ks + ls)[i], Get(new_, (ks + ls)[i]), (ops + more)[i]) {
      if i >= |ks| {
        assert WritesChange(db, file, ls[i - |ks|], Get(new_, ls[i - |ks|]), more[i - |ks|]);
      }
    }
  }

  lemma VanishedThenNew(gone: seq<SymbolModule>, added: seq<SymbolModule>, new_: FileReferences)
    requires forall k | k in gone :: k !in new_
    requires forall k | k in added :: k in new_
    ensures VanishedFirst(gone + added, new_)
    ensures forall k :: k in gone + added <==> k in gone || k in added
  {
  }

  lemma FinishReferences(db: Db, file: Path, new_: FileReferences, gone: seq<SymbolModule>, goneOps: seq<Op>,
                         more: seq<SymbolModule>, moreOps: seq<Op>, refs: seq<ReferredSymbol>, ops: seq<Op>)
    requires forall k :: k in gone <==> k !in new_ && NeedsWrite(db, ReferencesOf(db, file), new_, k)
    requires forall k :: k in more <==> k in new_ && NeedsWrite(db, ReferencesOf(db, file), new_, k)
    requires WritesChanges(db, file, new_, gone, goneOps) && WritesChanges(db, file, new_, more, moreOps)
    requires if gone == [] && more == [] then ops == []
             else DecodeFileReferences(refs) == new_ && ops == goneOps + moreOps + [PutFileRefs(file, refs)]
    ensures ReferenceBatch(db, file, new_, gone + more, ops)
  {
    ConcatChanges(db, file, new_, gone, goneOps, more, moreOps);
    VanishedThenNew(gone, more, new_);
    if gone + more != [] {
      assert ops[..|gone + more|] == goneOps + moreOps;
    }
  }

  lemma GroupedGrows(moduleOf: Path -> ModuleName, before: map<SymbolPath, Places>, after: map<SymbolPath, Places>, r: SymbolPath)
    requires r !in before && r in after && after == before[r := after[r]]
    ensures var k := KeyOf(moduleOf, r);
      var g := Grouped(moduleOf, before);
      Grouped(moduleOf, after) == g[k := (if k in g then g[k] else {}) + after[r]]
  {
    var k := KeyOf(moduleOf, r);
    assert GroupedKeys(moduleOf, after) == GroupedKeys(moduleOf, before) + {k};
    forall x ensures PlacesFor(moduleOf, after, x) == PlacesFor(moduleOf, before, x) + if x == k then after[r] else {} {
      PlacesGrow(moduleOf, before, after, r, x);
    }
    if k !in GroupedKeys(moduleOf, before) {
      assert PlacesFor(moduleOf, before, k) == {};
    }
    var g := Grouped(moduleOf, before);
    var h := g[k := (if k in g then g[k] else {}) + after[r]];
    forall x | x in Grouped(moduleOf, after) ensures Grouped(moduleOf, after)[x] == h[x] {
    }
  }

  lemma PlacesGrow(moduleOf: Path -> ModuleName, before: map<SymbolPath, Places>, after: map<SymbolPath, Places>, r: SymbolPath, x: SymbolModule)
    requires r !in before && r in after && after == before[r := after[r]]
    ensures PlacesFor(moduleOf, after, x) == PlacesFor(moduleOf, before, x) + if x == KeyOf(moduleOf, r) then after[r] else {}
  {
    var grown := PlacesFor(moduleOf, before, x) + if x == KeyOf(moduleOf, r) then after[r] else {};
    forall l ensures l in PlacesFor(moduleOf, after, x) <==> l in grown {
      if l in PlacesFor(moduleOf, before, x) {
        var q :| q in before && l in before[q] && KeyOf(moduleOf, q) == x;
        assert q in after && l in after[q];
      }
      if l in PlacesFor(moduleOf, after, x) {
        var q :| q in after && l in after[q] && KeyOf(moduleOf, q) == x;
        if q != r {
          assert q in before && l in before[q];
        }
      }
    }
  }
}
