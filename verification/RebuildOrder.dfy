/** Rebuilding a file that refers to symbols under several modules.  Which of the writes of one
    symbol comes last decides what is left, and the maps of the original are walked in the order of
    their keys; so for that order the outcome can be read from the state before the rebuild.  */
module RebuildOrder {
  import opened Basics
  import opened SymbolDb
  import opened ReferenceIndex
  import D = DefinitionIndex
  import opened CompileCommit

  // ---------- the order of the walks ----------

  /** Texts in the order of their characters, a prefix first. */
  predicate Less(a: string, b: string) {
    if b == "" then false
    else if a == "" then true
    else if a[0] != b[0] then a[0] < b[0]
    else Less(a[1..], b[1..])
  }

  lemma {:induction false} LessAsymmetric(a: string, b: string)
    requires Less(a, b)
    ensures !Less(b, a)
  {
    if a != "" && a[0] == b[0] {
      LessAsymmetric(a[1..], b[1..]);
    }
  }

  /** The first difference is at n, and a has the smaller character. */
  predicate DiffersAt(a: string, b: string, n: int) {
    0 <= n < |a| && n < |b| && a[..n] == b[..n] && a[n] < b[n]
  }

  lemma SameFirst(a: string, b: string)
    requires a != "" && b != "" && a[0] == b[0]
    ensures a < b <==> a[1..] < b[1..]
    ensures (exists n :: DiffersAt(a, b, n)) <==> exists n :: DiffersAt(a[1..], b[1..], n)
  {
    assert a == [a[0]] + a[1..] && b == [b[0]] + b[1..];
    if n :| DiffersAt(a[1..], b[1..], n) {
      assert a[..n + 1] == [a[0]] + a[1..][..n] && b[..n + 1] == [b[0]] + b[1..][..n];
      assert DiffersAt(a, b, n + 1);
    }
    if n :| DiffersAt(a, b, n) {
      assert a[1..][..n - 1] == a[..n][1..] && b[1..][..n - 1] == b[..n][1..];
      assert DiffersAt(a[1..], b[1..], n - 1);
    }
  }

  /** A text comes before another if and only if it is a proper prefix of it, or has the smaller
      character where the two first differ. */
  lemma {:induction false} LessExactly(a: string, b: string)
    ensures Less(a, b) <==> a < b || exists n :: DiffersAt(a, b, n)
  {
    if a != "" && b != "" {
      if a[0] == b[0] {
        LessExactly(a[1..], b[1..]);
        SameFirst(a, b);
      } else {
        assert DiffersAt(a, b, 0) <==> a[0] < b[0];
        forall n | 0 < n <= |a| && n <= |b| ensures a[..n] != b[..n] {
          assert a[..n][0] != b[..n][0];
        }
      }
    }
  }

  /** Of two changes to one symbol, l comes before k: vanished keys go first, then the order of the
      module names decides. */
  predicate Before(new_: FileReferences, l: SymbolModule, k: SymbolModule) {
    if (l in new_) == (k in new_) then Less(l.moduleName, k.moduleName) else k in new_
  }

  ghost predicate InOrder(ks: seq<SymbolModule>, new_: FileReferences) {
    forall i, j | 0 <= i < j < |ks| && ks[i].symbol == ks[j].symbol && ks[i] != ks[j] :: Before(new_, ks[i], ks[j])
  }

  /** The keys of a map in the order in which the map is walked. */
  ghost predicate Sorted(ks: seq<SymbolModule>) {
    forall i, j | 0 <= i < j < |ks| ::
      Less(ks[i].symbol, ks[j].symbol) || (ks[i].symbol == ks[j].symbol && Less(ks[i].moduleName, ks[j].moduleName))
  }

  lemma LessIrreflexive(a: string)
    ensures !Less(a, a)
  {
    if Less(a, a) {
      LessAsymmetric(a, a);
    }
  }

  /** One sorted walk over the vanished keys and then one over the new ones is in order. */
  lemma SortedWalksInOrder(gone: seq<SymbolModule>, more: seq<SymbolModule>, new_: FileReferences)
    requires Sorted(gone) && Sorted(more)
    requires (forall k | k in gone :: k !in new_) && (forall k | k in more :: k in new_)
    ensures InOrder(gone + more, new_) && VanishedFirst(gone + more, new_)
  {
    hide Less;
    var ks := gone + more;
    forall i, j | 0 <= i < j < |ks| && ks[i].symbol == ks[j].symbol && ks[i] != ks[j] ensures Before(new_, ks[i], ks[j]) {
      LessIrreflexive(ks[i].symbol);
      assert i < |gone| ==> ks[i] in gone;
      assert i >= |gone| ==> ks[i] in more;
      assert j < |gone| ==> ks[j] in gone;
      assert j >= |gone| ==> ks[j] in more;
    }
  }

  lemma BeforeAsymmetric(new_: FileReferences, l: SymbolModule, k: SymbolModule)
    requires Before(new_, l, k)
    ensures !Before(new_, k, l)
  {
    if (l in new_) == (k in new_) {
      LessAsymmetric(l.moduleName, k.moduleName);
    }
  }

  lemma {:induction false} LastChangeAt(ks: seq<SymbolModule>, s: Symbol) returns (i: nat)
    requires LastChange(ks, s).Some?
    ensures i < |ks| && LastChange(ks, s) == Some(ks[i]) && forall j | i < j < |ks| :: ks[j].symbol != s
  {
    if ks[|ks| - 1].symbol == s {
      i := |ks| - 1;
    } else {
      i := LastChangeAt(ks[..|ks| - 1], s);
    }
  }

  /** In an ordered walk the last change of a symbol is the one that all others come before. */
  lemma LastIsGreatest(ks: seq<SymbolModule>, new_: FileReferences, k: SymbolModule)
    requires InOrder(ks, new_)
    ensures LastChange(ks, k.symbol) == Some(k)
       <==> k in ks && forall l | l in ks && l.symbol == k.symbol && l != k :: Before(new_, l, k)
  {
    hide LastChange, Before;
    if k in ks {
      var i := LastChangeAt(ks, k.symbol);
      forall l | l in ks && l.symbol == k.symbol && l != ks[i] ensures Before(new_, l, ks[i]) && !Before(new_, ks[i], l) {
        var j :| 0 <= j < |ks| && ks[j] == l;
        BeforeAsymmetric(new_, ks[j], ks[i]);
      }
    }
  }

  // ---------- what the erasure leaves ----------

  /** The last module of its symbol in the file's record. */
  ghost predicate IsTop(old_: FileReferences, k: SymbolModule) {
    k in old_ && forall l | l in old_ && l.symbol == k.symbol && l != k :: Less(l.moduleName, k.moduleName)
  }

  ghost function LeftOver(old_: FileReferences, k: SymbolModule): Option<Places> {
    if IsTop(old_, k) then None else Get(old_, k)
  }

  lemma ErasureInOrder(layout: D.Layout, db: Db, file: Path, e: Batch, k: SymbolModule)
    requires AgreeFor(db, file) && ErasureBatch(layout, db, file, e) && InOrder(e.keys, map[])
    ensures LastChange(e.keys, k.symbol) == Some(k) <==> IsTop(ReferencesOf(db, file), k)
    ensures LeftByErasure(e, ReferencesOf(db, file), k) == LeftOver(ReferencesOf(db, file), k)
  {
    hide LastChange, ReferencesOf, Posted, D.DefinitionDeletion;
    LastIsGreatest(e.keys, map[], k);
    forall l ensures l in e.keys <==> l in ReferencesOf(db, file) {
      assert Posted(db, l, file) == Get(ReferencesOf(db, file), l);
    }
  }

  // ---------- what the compile writes ----------

  /** Another file refers to the symbol under the same module. */
  ghost predicate PostedElsewhere(db: Db, k: SymbolModule, file: Path) {
    exists g: Path :: g != file && Posted(db, k, g).Some?
  }

  /** Whether the compile after the erasure writes k, read from the state before the erasure. */
  ghost predicate WrittenAgain(db: Db, file: Path, new_: FileReferences, k: SymbolModule) {
    var old_ := ReferencesOf(db, file);
    if k in new_ then Get(old_, k) != Get(new_, k)
    else k in old_ && (IsTop(old_, k) ==> PostedElsewhere(db, k, file))
  }

  lemma ModuleLeft(layout: D.Layout, db: Db, file: Path, e: Batch, k: SymbolModule)
    requires AgreeFor(db, file) && ErasureBatch(layout, db, file, e) && InOrder(e.keys, map[])
    requires k in ReferencesOf(db, file)
    ensures k.moduleName in PostingsOf(ApplyAll(db, e.referenceOps), k.symbol)
       <==> (IsTop(ReferencesOf(db, file), k) ==> PostedElsewhere(db, k, file))
  {
    hide LastChange, ReferencesOf, DecodePostings, D.DefinitionDeletion, IsTop, InOrder;
    ErasureInOrder(layout, db, file, e, k);
    DeletedPlaces(db, file, e.keys, e.referenceOps, k, file);
    assert Posted(db, k, file) == Get(ReferencesOf(db, file), k);
    if IsTop(ReferencesOf(db, file), k) {
      ChangesCommit(db, file, map[], e.keys, e.referenceOps, k.symbol);
      LeftInModule(PostingsOf(db, k.symbol), k.moduleName, file);
      if g: Path :| g != file && PlacesIn(PostingsOf(db, k.symbol), k.moduleName, g).Some? {
        assert Posted(db, k, g).Some?;
      }
    }
  }

  lemma LeftInModule(post: Postings, m: ModuleName, file: Path)
    ensures m in post && m in Updated(post, m, file, None) ==> exists g: Path :: g != file && PlacesIn(post, m, g).Some?
    ensures (exists g: Path :: g != file && PlacesIn(post, m, g).Some?) ==> m in Updated(post, m, file, None)
  {
    if m in post {
      var left := post[m] - {file};
      if left != map[] {
        var g :| g in left;
        assert g != file && PlacesIn(post, m, g).Some?;
      }
      if g: Path :| g != file && PlacesIn(post, m, g).Some? {
        assert g in left;
      }
    }
  }

  lemma WritesAreKnown(layout: D.Layout, db: Db, file: Path, e: Batch, unit: TranslationUnit, b: Batch, k: SymbolModule)
    requires AgreeFor(db, file) && ErasureBatch(layout, db, file, e) && InOrder(e.keys, map[])
    requires CompileBatch(layout, Erased(db, file, e), file, unit, b)
    ensures k in b.keys <==> WrittenAgain(db, file, NewReferences(layout, unit), k)
  {
    hide ReferencesOf, PostingsOf, IsTop, InOrder, AgreeFor, D.DefinitionBatch, D.DefinitionDeletion, ReferenceDeletion, NewReferences;
    var db1, refs := Erased(db, file, e), ApplyAll(db, e.referenceOps);
    ErasedFamilies(layout, db, file, e);
    ReferencesAreLocal(refs, db1, file);
    DeleteLeavesOthers(db, file, e.keys, e.referenceOps, file, k);
    SamePostings(refs, db1, k.symbol);
    if k in ReferencesOf(db, file) {
      ModuleLeft(layout, db, file, e, k);
    }
  }

  lemma SamePostings(d: Db, e: Db, s: Symbol)
    requires d.symRefs == e.symRefs
    ensures PostingsOf(d, s) == PostingsOf(e, s)
    ensures s !in d.symRefs ==> PostingsOf(d, s) == map[]
  {
  }

  // ---------- the outcome ----------

  /** The last of the writes of its symbol. */
  ghost predicate WrittenLast(db: Db, file: Path, new_: FileReferences, k: SymbolModule) {
    && WrittenAgain(db, file, new_, k)
    && forall l | WrittenAgain(db, file, new_, l) && l.symbol == k.symbol && l != k :: Before(new_, l, k)
  }

  /** Every posting is written last or is left as the new symbols have it, and a file that referred
      to something finds something to write. */
  ghost predicate RebuildRestores(db: Db, file: Path, new_: FileReferences) {
    var old_ := ReferencesOf(db, file);
    && (forall k :: WrittenLast(db, file, new_, k) || LeftOver(old_, k) == Get(new_, k))
    && (old_ == map[] || exists k :: WrittenAgain(db, file, new_, k))
  }

  /** Erasing a file and compiling it again, the maps walked in key order: the references agree again
      if and only if the state before the erasure and the new symbols meet RebuildRestores. */
  lemma RebuildInOrderExactly(layout: D.Layout, db: Db, file: Path, e: Batch, info: FileBasicInfo, unit: TranslationUnit, b: Batch)
    requires layout.Valid() && D.DefinedHere(layout, file, unit.defined)
    requires AgreeFor(db, file) && ErasureBatch(layout, db, file, e) && InOrder(e.keys, map[])
    requires CompileBatch(layout, Erased(db, file, e), file, unit, b) && InOrder(b.keys, NewReferences(layout, unit))
    ensures AgreeFor(Compiled(Erased(db, file, e), file, info, b), file) <==> RebuildRestores(db, file, NewReferences(layout, unit))
  {
    hide AgreeFor, ErasureBatch, CompileBatch, Compiled, Erased, ReferencesOf, LastChange, InOrder, IsTop, WrittenAgain, NewReferences;
    hide D.DefinitionsOf, DefinitionsSeen, OneModulePerSymbol, RecompileRestores, LeftByErasure, LeftOver, Before, D.DefinedHere;
    var old_, new_ := ReferencesOf(db, file), NewReferences(layout, unit);
    RebuildOutcome(layout, db, file, e, info, unit, b);
    forall k: SymbolModule
      ensures Recovered(e, b, old_, new_, k)
         <==> WrittenLast(db, file, new_, k) || LeftOver(old_, k) == Get(if b.keys == [] then old_ else new_, k)
      ensures k in b.keys <==> WrittenAgain(db, file, new_, k)
    {
      forall l: SymbolModule ensures l in b.keys <==> WrittenAgain(db, file, new_, l) {
        WritesAreKnown(layout, db, file, e, unit, b, l);
      }
      LastIsGreatest(b.keys, new_, k);
      ErasureInOrder(layout, db, file, e, k);
    }
    if b.keys == [] {
      NothingWritten(layout, db, file, e, new_);
    } else {
      assert b.keys[0] in b.keys;
    }
  }

  /** When nothing is written, the references agree again only if there were none. */
  lemma NothingWritten(layout: D.Layout, db: Db, file: Path, e: Batch, new_: FileReferences)
    requires AgreeFor(db, file) && ErasureBatch(layout, db, file, e) && InOrder(e.keys, map[])
    requires forall k :: !WrittenAgain(db, file, new_, k)
    ensures var old_ := ReferencesOf(db, file);
      if old_ == map[] then new_ == map[] else exists k :: LeftOver(old_, k) != Get(old_, k)
  {
    hide LastChange, ReferencesOf, Posted, D.DefinitionDeletion;
    var old_ := ReferencesOf(db, file);
    if old_ == map[] {
      forall k ensures k !in new_ {
        assert !WrittenAgain(db, file, new_, k);
      }
    } else {
      var k :| k in old_;
      assert Posted(db, k, file) == Get(old_, k);
      assert k in e.keys;
      var top := LastChange(e.keys, k.symbol).value;
      ErasureInOrder(layout, db, file, e, top);
    }
  }
}
