/**
 The import/export bookkeeping of an ECMAScript source text module, as the
 es2panda parser keeps it while it parses a module.

 The record deduplicates module requests and keeps five entry collections:
 regular imports (by local name), namespace (star) imports, local exports,
 indirect exports and star exports. Following the classification of
 ParseModule in ECMA-262 (section 16.2.1.6.1, "Source Text Module Records"),
 a local export whose local name is an imported binding is re-filed as an
 indirect export that carries the import's module request and import name,
 whichever of the import and the export is seen first.

 Entries are values here; the parser hands the record pointers into an arena,
 and the record rewrites the pointed-to entries in place.
 */
module ModuleRecord {

  /** The "no module request" index carried by local exports. */
  const NO_REQUEST: int := -1

  /** An import entry; an empty `importName` marks a namespace import. */
  datatype ImportEntry = ImportEntry(localName: string, importName: string, moduleRequestIdx: int)

  /** An export entry; the empty string plays the role of a null name. */
  datatype ExportEntry = ExportEntry(exportName: string, localName: string, importName: string, moduleRequestIdx: int)

  /**
   `regularImports` maps a local name to its import entry (an ordered map in
   the parser: inserting a name that is present keeps the first entry).
   `localExports` is a multimap keyed by local name in the parser; it is kept
   here in insertion order, which is also the order in which entries of one
   key are visited.
   */
  datatype Record = Record(
    moduleRequests: seq<string>,
    moduleRequestsMap: map<string, int>,
    regularImports: map<string, ImportEntry>,
    namespaceImports: seq<ImportEntry>,
    localExports: seq<ExportEntry>,
    indirectExports: seq<ExportEntry>,
    starExports: seq<ExportEntry>)

  /** The outcome of an operation that reports success and updates the record. */
  datatype Outcome = Outcome(ok: bool, rec: Record)

  /** The outcome of AddModuleRequest: the request's index and the updated record. */
  datatype Request = Request(index: int, rec: Record)

  function EmptyRecord(): Record {
    Record([], map[], map[], [], [], [], [])
  }

  /* ---------------------------------------------------------------------- */
  /* Well-formedness                                                         */
  /* ---------------------------------------------------------------------- */

  /** The request list and its index map describe the same distinct sources. */
  ghost predicate RequestsConsistent(m: Record) {
    && |m.moduleRequestsMap| == |m.moduleRequests|
    && (forall i :: 0 <= i < |m.moduleRequests| ==>
          m.moduleRequests[i] in m.moduleRequestsMap && m.moduleRequestsMap[m.moduleRequests[i]] == i)
    && (forall s :: s in m.moduleRequestsMap ==>
          0 <= m.moduleRequestsMap[s] < |m.moduleRequests| && m.moduleRequests[m.moduleRequestsMap[s]] == s)
  }

  predicate ImportIsWellFormed(e: ImportEntry) {
    e.importName != "" && e.localName != "" && e.moduleRequestIdx != NO_REQUEST
  }

  predicate LocalExportIsWellFormed(e: ExportEntry) {
    e.importName == "" && e.localName != "" && e.exportName != "" && e.moduleRequestIdx == NO_REQUEST
  }

  predicate IndirectExportIsWellFormed(e: ExportEntry) {
    e.importName != "" && e.exportName != "" && e.localName == "" && e.moduleRequestIdx != NO_REQUEST
  }

  function Names(es: seq<ExportEntry>): (r: seq<string>)
    ensures |r| == |es|
    ensures forall i :: 0 <= i < |es| ==> r[i] == es[i].exportName
  {
    if |es| == 0 then [] else [es[0].exportName] + Names(es[1..])
  }

  /** How often `x` occurs in `s`. */
  function Count(s: seq<string>, x: string): (n: nat)
    ensures n == 0 <==> x !in s
  {
    if |s| == 0 then 0 else (if s[0] == x then 1 else 0) + Count(s[1..], x)
  }

  /** No name occurs twice in `s`. */
  ghost predicate Unique(s: seq<string>) {
    forall x :: Count(s, x) <= 1
  }

  /** The export names of the local and the indirect exports, together. */
  function ExportNames(m: Record): seq<string> {
    Names(m.localExports) + Names(m.indirectExports)
  }

  /**
   The invariant the record keeps: consistent requests, well-formed entries,
   export names pairwise distinct across local and indirect exports, and no
   local export whose local name is an imported binding (such an export has
   been re-filed as indirect).
   */
  ghost predicate Valid(m: Record) {
    && RequestsConsistent(m)
    && (forall k | k in m.regularImports :: ImportIsWellFormed(m.regularImports[k]) && m.regularImports[k].localName == k)
    && (forall i | 0 <= i < |m.localExports| :: LocalExportIsWellFormed(m.localExports[i]))
    && (forall i | 0 <= i < |m.indirectExports| :: IndirectExportIsWellFormed(m.indirectExports[i]))
    && (forall i | 0 <= i < |m.localExports| :: m.localExports[i].localName !in m.regularImports)
    && Unique(ExportNames(m))
  }

  /* ---------------------------------------------------------------------- */
  /* Module requests                                                         */
  /* ---------------------------------------------------------------------- */

  /**
   Returns the index of `source` among the distinct requested sources,
   appending it when it is new.
   */
  function AddModuleRequest(m: Record, source: string): (r: Request)
    requires source != ""
    ensures RequestsConsistent(m) ==> RequestsConsistent(r.rec)
    ensures RequestsConsistent(m) ==> 0 <= r.index < |r.rec.moduleRequests| && r.rec.moduleRequests[r.index] == source
    ensures RequestsConsistent(m) && source in m.moduleRequests ==> r.rec == m
    ensures RequestsConsistent(m) && source !in m.moduleRequests ==>
              r.index == |m.moduleRequests| && r.rec.moduleRequests == m.moduleRequests + [source]
    ensures r.rec == m.(moduleRequests := r.rec.moduleRequests, moduleRequestsMap := r.rec.moduleRequestsMap)
  {
    var size := |m.moduleRequestsMap|;
    var requests := if source !in m.moduleRequestsMap then m.moduleRequests + [source] else m.moduleRequests;
    // `insert` leaves a present key untouched and reports the stored index
    var requestsMap := if source in m.moduleRequestsMap then m.moduleRequestsMap else m.moduleRequestsMap[source := size];
    Request(requestsMap[source], m.(moduleRequests := requests, moduleRequestsMap := requestsMap))
  }

  lemma {:induction false} AddModuleRequestIdempotent(m: Record, source: string)
    requires source != ""
    requires RequestsConsistent(m)
    ensures var r1 := AddModuleRequest(m, source);
            var r2 := AddModuleRequest(r1.rec, source);
            r2.index == r1.index && r2.rec == r1.rec
  {
    var r1 := AddModuleRequest(m, source);
    assert r1.rec.moduleRequests[r1.index] == source;
  }

  /* ---------------------------------------------------------------------- */
  /* Duplicate export names                                                  */
  /* ---------------------------------------------------------------------- */

  function ExportNameIn(es: seq<ExportEntry>, name: string): (r: bool)
    ensures r <==> exists i :: 0 <= i < |es| && es[i].exportName == name
  {
    if |es| == 0 then false
    else if es[0].exportName == name then true
    else ExportNameIn(es[1..], name)
  }

  /** True iff no local or indirect export already uses `exportName`. */
  function CheckDuplicateExports(m: Record, exportName: string): (r: bool)
    ensures r <==> exportName !in ExportNames(m)
  {
    !ExportNameIn(m.localExports, exportName) && !ExportNameIn(m.indirectExports, exportName)
  }

  /* ---------------------------------------------------------------------- */
  /* Adding entries                                                          */
  /* ---------------------------------------------------------------------- */

  /** An export re-filed against an import: it takes the import's request and name, and loses its local name. */
  function Redirect(e: ExportEntry, imp: ImportEntry): ExportEntry {
    ExportEntry(e.exportName, "", imp.importName, imp.moduleRequestIdx)
  }

  /** Appends an indirect export unless its export name is taken. */
  function AddIndirectExportEntry(m: Record, e: ExportEntry): (r: Outcome)
    requires IndirectExportIsWellFormed(e)
    ensures r.ok <==> e.exportName !in ExportNames(m)
    ensures r.ok ==> r.rec == m.(indirectExports := m.indirectExports + [e])
    ensures !r.ok ==> r.rec == m
  {
    if CheckDuplicateExports(m, e.exportName) then Outcome(true, m.(indirectExports := m.indirectExports + [e]))
    else Outcome(false, m)
  }

  /** The result of re-filing an export against an import: success, record, and the (rewritten) entry. */
  datatype Conversion = Conversion(ok: bool, rec: Record, entry: ExportEntry)

  /** The export-side conversion: an export of an imported binding becomes indirect. */
  function ConvertExportToIndirect(m: Record, e: ExportEntry): (r: Conversion)
    requires e.localName != ""
    requires e.localName in m.regularImports ==>
               e.exportName != "" && ImportIsWellFormed(m.regularImports[e.localName])
    ensures e.localName !in m.regularImports ==> r == Conversion(false, m, e)
    ensures e.localName in m.regularImports ==>
              var imp := m.regularImports[e.localName];
              && r.entry == Redirect(e, imp)
              && (r.ok <==> e.exportName !in ExportNames(m))
              && r.rec == (if r.ok then m.(indirectExports := m.indirectExports + [Redirect(e, imp)]) else m)
  {
    if e.localName in m.regularImports then
      var imp := m.regularImports[e.localName];
      var redirected := Redirect(e, imp);
      var added := AddIndirectExportEntry(m, redirected);
      Conversion(added.ok, added.rec, redirected)
    else
      Conversion(false, m, e)
  }

  /**
   Adds a local export. An export of an imported binding is filed as
   indirect; otherwise it is kept as local. Either way it is refused when its
   export name is taken.
   */
  function AddLocalExportEntry(m: Record, e: ExportEntry): (r: Outcome)
    requires LocalExportIsWellFormed(e)
    requires e.localName in m.regularImports ==> ImportIsWellFormed(m.regularImports[e.localName])
    ensures r.ok <==> e.exportName !in ExportNames(m)
    ensures !r.ok ==> r.rec == m
    ensures r.ok && e.localName in m.regularImports ==>
              r.rec == m.(indirectExports := m.indirectExports + [Redirect(e, m.regularImports[e.localName])])
    ensures r.ok && e.localName !in m.regularImports ==>
              r.rec == m.(localExports := m.localExports + [e])
  {
    var c := ConvertExportToIndirect(m, e);
    if c.ok then Outcome(true, c.rec)
    else if CheckDuplicateExports(c.rec, c.entry.exportName) then
      Outcome(true, c.rec.(localExports := c.rec.localExports + [c.entry]))
    else Outcome(false, c.rec)
  }

  /** The local exports whose local name is `name`, in order. */
  function WithLocalName(es: seq<ExportEntry>, name: string): (r: seq<ExportEntry>)
    ensures forall i :: 0 <= i < |r| ==> r[i].localName == name
  {
    if |es| == 0 then []
    else (if es[0].localName == name then [es[0]] else []) + WithLocalName(es[1..], name)
  }

  /** The local exports whose local name is not `name`, in order. */
  function WithoutLocalName(es: seq<ExportEntry>, name: string): (r: seq<ExportEntry>)
    ensures forall i :: 0 <= i < |r| ==> r[i].localName != name
  {
    if |es| == 0 then []
    else (if es[0].localName != name then [es[0]] else []) + WithoutLocalName(es[1..], name)
  }

  /** The split by local name keeps exactly the entries it promises. */
  lemma {:induction false} SplitMembership(es: seq<ExportEntry>, name: string)
    ensures forall e :: e in WithLocalName(es, name) <==> e in es && e.localName == name
    ensures forall e :: e in WithoutLocalName(es, name) <==> e in es && e.localName != name
  {
    if |es| > 0 {
      SplitMembership(es[1..], name);
      assert es == [es[0]] + es[1..];
    }
  }

  function RedirectAll(es: seq<ExportEntry>, imp: ImportEntry): (r: seq<ExportEntry>)
    ensures |r| == |es|
    ensures forall i :: 0 <= i < |es| ==> r[i] == Redirect(es[i], imp)
  {
    if |es| == 0 then [] else [Redirect(es[0], imp)] + RedirectAll(es[1..], imp)
  }

  /** The import-side conversion: every local export of the imported binding moves to the indirect exports. */
  function ConvertLocalExportsToIndirect(m: Record, imp: ImportEntry): (r: Record)
    requires imp.localName != ""
    requires (exists i :: 0 <= i < |m.localExports| && m.localExports[i].localName == imp.localName) ==>
               imp.importName != "" && imp.moduleRequestIdx != NO_REQUEST
    ensures forall i :: 0 <= i < |r.localExports| ==> r.localExports[i].localName != imp.localName
    ensures forall e :: e in r.localExports <==> e in m.localExports && e.localName != imp.localName
    ensures |r.indirectExports| >= |m.indirectExports| && r.indirectExports[..|m.indirectExports|] == m.indirectExports
    ensures forall e :: e in r.indirectExports[|m.indirectExports|..] <==>
              exists f :: f in m.localExports && f.localName == imp.localName && e == Redirect(f, imp)
    ensures |r.indirectExports| - |m.indirectExports| == |m.localExports| - |r.localExports|
    ensures r == m.(localExports := r.localExports, indirectExports := r.indirectExports)
  {
    var moved := WithLocalName(m.localExports, imp.localName);
    SplitSizes(m.localExports, imp.localName);
    SplitMembership(m.localExports, imp.localName);
    if |moved| == 0 then
      assert forall e :: e in m.localExports ==> e.localName != imp.localName;
      m
    else
      var r := m.(localExports := WithoutLocalName(m.localExports, imp.localName),
                  indirectExports := m.indirectExports + RedirectAll(moved, imp));
      assert r.indirectExports[|m.indirectExports|..] == RedirectAll(moved, imp);
      RedirectedMembers(m.localExports, imp);
      r
  }

  /** The redirected exports are exactly the redirects of the exports naming the import's binding. */
  lemma RedirectedMembers(es: seq<ExportEntry>, imp: ImportEntry)
    ensures forall x :: x in RedirectAll(WithLocalName(es, imp.localName), imp) <==>
              exists f :: f in es && f.localName == imp.localName && x == Redirect(f, imp)
  {
    var moved := WithLocalName(es, imp.localName);
    SplitMembership(es, imp.localName);
    forall x | x in RedirectAll(moved, imp)
      ensures exists f :: f in es && f.localName == imp.localName && x == Redirect(f, imp)
    {
      var i :| 0 <= i < |moved| && RedirectAll(moved, imp)[i] == x;
      assert moved[i] in moved;
    }
    forall f | f in es && f.localName == imp.localName
      ensures Redirect(f, imp) in RedirectAll(moved, imp)
    {
      var i :| 0 <= i < |moved| && moved[i] == f;
      assert RedirectAll(moved, imp)[i] == Redirect(f, imp);
    }
  }

  /** Records a regular import and re-files the local exports of its binding. */
  function AddImportEntry(m: Record, e: ImportEntry): (r: Record)
    requires ImportIsWellFormed(e)
    ensures r.regularImports == (if e.localName in m.regularImports then m.regularImports else m.regularImports[e.localName := e])
    ensures forall i :: 0 <= i < |r.localExports| ==> r.localExports[i].localName != e.localName
    ensures forall f :: f in r.localExports <==> f in m.localExports && f.localName != e.localName
    ensures |r.indirectExports| >= |m.indirectExports| && r.indirectExports[..|m.indirectExports|] == m.indirectExports
    ensures forall x :: x in r.indirectExports[|m.indirectExports|..] <==>
              exists f :: f in m.localExports && f.localName == e.localName && x == Redirect(f, e)
    ensures |r.indirectExports| - |m.indirectExports| == |m.localExports| - |r.localExports|
    ensures r == m.(regularImports := r.regularImports, localExports := r.localExports, indirectExports := r.indirectExports)
  {
    var m1 := m.(regularImports := if e.localName in m.regularImports then m.regularImports
                                   else m.regularImports[e.localName := e]);
    ConvertLocalExportsToIndirect(m1, e)
  }

  /** Records a namespace import (`import * as x from ...`). */
  function AddStarImportEntry(m: Record, e: ImportEntry): (r: Record)
    requires e.localName != "" && e.importName == "" && e.moduleRequestIdx != NO_REQUEST
    ensures |r.namespaceImports| == |m.namespaceImports| + 1 && r.namespaceImports[|m.namespaceImports|] == e
    ensures r.namespaceImports[..|m.namespaceImports|] == m.namespaceImports
    ensures r == m.(namespaceImports := r.namespaceImports)
  {
    m.(namespaceImports := m.namespaceImports + [e])
  }

  /** Records a star export (`export * from ...`). */
  function AddStarExportEntry(m: Record, e: ExportEntry): (r: Record)
    requires e.importName == "" && e.localName == "" && e.exportName == "" && e.moduleRequestIdx != NO_REQUEST
    ensures |r.starExports| == |m.starExports| + 1 && r.starExports[|m.starExports|] == e
    ensures r.starExports[..|m.starExports|] == m.starExports
    ensures r == m.(starExports := r.starExports)
  {
    m.(starExports := m.starExports + [e])
  }

  /* ---------------------------------------------------------------------- */
  /* Invariant preservation                                                  */
  /* ---------------------------------------------------------------------- */

  lemma {:induction false} NamesAppend(a: seq<ExportEntry>, b: seq<ExportEntry>)
    ensures Names(a + b) == Names(a) + Names(b)
  {
  }

  lemma {:induction false} CountAppend(a: seq<string>, b: seq<string>, x: string)
    ensures Count(a + b, x) == Count(a, x) + Count(b, x)
  {
    if |a| == 0 {
      assert a + b == b;
    } else {
      CountAppend(a[1..], b, x);
      assert (a + b)[1..] == a[1..] + b;
    }
  }

  lemma {:induction false} SplitSizes(es: seq<ExportEntry>, name: string)
    ensures |WithLocalName(es, name)| + |WithoutLocalName(es, name)| == |es|
  {
    if |es| > 0 {
      SplitSizes(es[1..], name);
    }
  }

  /** Splitting the local exports by local name loses and invents no export name. */
  lemma {:induction false} SplitByLocalName(es: seq<ExportEntry>, name: string, x: string)
    ensures Count(Names(WithLocalName(es, name)), x) + Count(Names(WithoutLocalName(es, name)), x)
            == Count(Names(es), x)
  {
    if |es| > 0 {
      SplitByLocalName(es[1..], name, x);
      var w, wo := WithLocalName(es[1..], name), WithoutLocalName(es[1..], name);
      assert Names(es)[1..] == Names(es[1..]);
      if es[0].localName == name {
        assert WithLocalName(es, name) == [es[0]] + w;
        assert WithoutLocalName(es, name) == wo;
        assert Names([es[0]] + w)[1..] == Names(w);
      } else {
        assert WithLocalName(es, name) == w;
        assert WithoutLocalName(es, name) == [es[0]] + wo;
        assert Names([es[0]] + wo)[1..] == Names(wo);
      }
    }
  }

  /** Redirecting keeps every export name. */
  lemma RedirectAllKeepsNames(es: seq<ExportEntry>, imp: ImportEntry)
    ensures Names(RedirectAll(es, imp)) == Names(es)
  {
  }

  /** Appending a name that is not present keeps a sequence of unique names unique. */
  lemma UniqueAppend(s: seq<string>, x: string)
    requires Unique(s) && x !in s
    ensures Unique(s + [x])
  {
    forall y ensures Count(s + [x], y) <= 1 {
      CountAppend(s, [x], y);
    }
  }

  lemma EmptyRecordValid()
    ensures Valid(EmptyRecord())
  {
  }

  lemma {:induction false} AddModuleRequestPreservesValid(m: Record, source: string)
    requires Valid(m) && source != ""
    ensures Valid(AddModuleRequest(m, source).rec)
  {
  }

  /** Filing a fresh export name at the end of either export collection keeps the names unique. */
  lemma {:induction false} UniqueAfterFiling(l: seq<ExportEntry>, i: seq<ExportEntry>, x: ExportEntry)
    requires Unique(Names(l) + Names(i)) && x.exportName !in Names(l) + Names(i)
    ensures Unique(Names(l + [x]) + Names(i))
    ensures Unique(Names(l) + Names(i + [x]))
  {
    NamesAppend(l, [x]);
    NamesAppend(i, [x]);
    var n := x.exportName;
    assert Names([x]) == [n];
    assert Names(l) + Names(i + [x]) == (Names(l) + Names(i)) + [n];
    UniqueAppend(Names(l) + Names(i), n);
    forall y ensures Count(Names(l + [x]) + Names(i), y) <= 1 {
      assert Names(l + [x]) + Names(i) == (Names(l) + [n]) + Names(i);
      CountAppend(Names(l) + [n], Names(i), y);
      CountAppend(Names(l), [n], y);
      CountAppend(Names(l), Names(i), y);
      CountAppend(Names(l) + Names(i), [n], y);
    }
  }

  lemma {:induction false} FileIndirectPreservesValid(m: Record, x: ExportEntry)
    requires Valid(m) && IndirectExportIsWellFormed(x) && x.exportName !in ExportNames(m)
    ensures Valid(m.(indirectExports := m.indirectExports + [x]))
  {
    UniqueAfterFiling(m.localExports, m.indirectExports, x);
  }

  lemma {:induction false} FileLocalPreservesValid(m: Record, x: ExportEntry)
    requires Valid(m) && LocalExportIsWellFormed(x) && x.exportName !in ExportNames(m)
    requires x.localName !in m.regularImports
    ensures Valid(m.(localExports := m.localExports + [x]))
  {
    UniqueAfterFiling(m.localExports, m.indirectExports, x);
  }

  lemma {:induction false} AddIndirectExportEntryPreservesValid(m: Record, e: ExportEntry)
    requires Valid(m) && IndirectExportIsWellFormed(e)
    ensures Valid(AddIndirectExportEntry(m, e).rec)
  {
    if e.exportName !in ExportNames(m) {
      FileIndirectPreservesValid(m, e);
    }
  }

  lemma {:induction false} AddLocalExportEntryPreservesValid(m: Record, e: ExportEntry)
    requires Valid(m) && LocalExportIsWellFormed(e)
    ensures Valid(AddLocalExportEntry(m, e).rec)
  {
    if e.exportName !in ExportNames(m) {
      if e.localName in m.regularImports {
        FileIndirectPreservesValid(m, Redirect(e, m.regularImports[e.localName]));
      } else {
        FileLocalPreservesValid(m, e);
      }
    }
  }

  /**
   Moving the exports of one local name from the local to the indirect
   exports cannot create a clash: every export name occurs as often before as
   after.
   */
  lemma {:induction false} UniqueAfterMove(l: seq<ExportEntry>, i: seq<ExportEntry>, name: string, imp: ImportEntry)
    requires Unique(Names(l) + Names(i))
    ensures Unique(Names(WithoutLocalName(l, name)) + Names(i + RedirectAll(WithLocalName(l, name), imp)))
  {
    var kept, moved := WithoutLocalName(l, name), WithLocalName(l, name);
    NamesAppend(i, RedirectAll(moved, imp));
    RedirectAllKeepsNames(moved, imp);
    forall y ensures Count(Names(kept) + Names(i + RedirectAll(moved, imp)), y) <= 1 {
      var k, n, v := Names(kept), Names(i), Names(moved);
      assert Names(kept) + Names(i + RedirectAll(moved, imp)) == k + (n + v);
      CountAppend(k, n + v, y);
      CountAppend(n, v, y);
      SplitByLocalName(l, name, y);
      CountAppend(Names(l), n, y);
    }
  }

  /** The entries a new import re-files keep the shapes the invariant asks of them. */
  lemma {:induction false} MovedEntriesWellFormed(m: Record, e: ImportEntry)
    requires Valid(m) && ImportIsWellFormed(e)
    ensures var r := AddImportEntry(m, e);
            && (forall j | 0 <= j < |r.indirectExports| :: IndirectExportIsWellFormed(r.indirectExports[j]))
            && (forall j | 0 <= j < |r.localExports| :: LocalExportIsWellFormed(r.localExports[j]))
            && (forall j | 0 <= j < |r.localExports| :: r.localExports[j].localName !in r.regularImports)
  {
    var r := AddImportEntry(m, e);
    forall j | 0 <= j < |r.indirectExports|
      ensures IndirectExportIsWellFormed(r.indirectExports[j])
    {
      if j >= |m.indirectExports| {
        var x := r.indirectExports[j];
        assert x in r.indirectExports[|m.indirectExports|..];
      }
    }
    forall j | 0 <= j < |r.localExports|
      ensures LocalExportIsWellFormed(r.localExports[j]) && r.localExports[j].localName !in r.regularImports
    {
      assert r.localExports[j] in m.localExports;
    }
  }

  lemma {:induction false} AddImportEntryPreservesValid(m: Record, e: ImportEntry)
    requires Valid(m) && ImportIsWellFormed(e)
    ensures Valid(AddImportEntry(m, e))
  {
    var r := AddImportEntry(m, e);
    MovedEntriesWellFormed(m, e);
    assert RequestsConsistent(r) by {
      assert r.moduleRequests == m.moduleRequests && r.moduleRequestsMap == m.moduleRequestsMap;
    }
    assert forall k | k in r.regularImports :: ImportIsWellFormed(r.regularImports[k]) && r.regularImports[k].localName == k;
    assert Unique(ExportNames(r)) by {
      if |WithLocalName(m.localExports, e.localName)| > 0 {
        UniqueAfterMove(m.localExports, m.indirectExports, e.localName, e);
      } else {
        assert r.localExports == m.localExports && r.indirectExports == m.indirectExports;
      }
    }
  }

  lemma {:induction false} AddStarImportEntryPreservesValid(m: Record, e: ImportEntry)
    requires Valid(m)
    requires e.localName != "" && e.importName == "" && e.moduleRequestIdx != NO_REQUEST
    ensures Valid(AddStarImportEntry(m, e))
  {
    var r := AddStarImportEntry(m, e);
    assert r.moduleRequests == m.moduleRequests && r.moduleRequestsMap == m.moduleRequestsMap;
    assert r.localExports == m.localExports && r.indirectExports == m.indirectExports;
  }

  lemma {:induction false} AddStarExportEntryPreservesValid(m: Record, e: ExportEntry)
    requires Valid(m)
    requires e.importName == "" && e.localName == "" && e.exportName == "" && e.moduleRequestIdx != NO_REQUEST
    ensures Valid(AddStarExportEntry(m, e))
  {
    var r := AddStarExportEntry(m, e);
    assert r.moduleRequests == m.moduleRequests && r.moduleRequestsMap == m.moduleRequestsMap;
    assert r.localExports == m.localExports && r.indirectExports == m.indirectExports;
  }

  /**
   `import {x} from 'm'; export {x as y}` and `export {x as y}; import {x} from 'm'`
   leave the same local and indirect exports behind: one indirect export `y`
   that re-exports `x` of `m`.
   */
  lemma {:induction false} ImportExportOrderIndependent(m: Record, imp: ImportEntry, exp: ExportEntry)
    requires ImportIsWellFormed(imp) && LocalExportIsWellFormed(exp)
    requires exp.localName == imp.localName && imp.localName !in m.regularImports
    requires forall i | 0 <= i < |m.localExports| :: m.localExports[i].localName != imp.localName
    requires exp.exportName !in ExportNames(m)
    ensures var a := AddLocalExportEntry(AddImportEntry(m, imp), exp);
            var b := AddImportEntry(AddLocalExportEntry(m, exp).rec, imp);
            && a.ok
            && a.rec.localExports == b.localExports == m.localExports
            && a.rec.indirectExports == b.indirectExports == m.indirectExports + [Redirect(exp, imp)]
  {
    NoneWithLocalName(m.localExports, imp.localName);
    var m2 := AddLocalExportEntry(m, exp).rec;
    assert m2.localExports == m.localExports + [exp];
    WithLocalNameAppend(m.localExports, exp, imp.localName);
  }

  lemma {:induction false} NoneWithLocalName(es: seq<ExportEntry>, name: string)
    requires forall i | 0 <= i < |es| :: es[i].localName != name
    ensures WithLocalName(es, name) == []
    ensures WithoutLocalName(es, name) == es
  {
    if |es| > 0 {
      NoneWithLocalName(es[1..], name);
      assert es == [es[0]] + es[1..];
    }
  }

  lemma {:induction false} WithLocalNameAppend(es: seq<ExportEntry>, e: ExportEntry, name: string)
    requires forall i | 0 <= i < |es| :: es[i].localName != name
    requires e.localName == name
    ensures WithLocalName(es + [e], name) == [e]
    ensures WithoutLocalName(es + [e], name) == es
  {
    if |es| == 0 {
      assert WithLocalName([e], name) == [e] + WithLocalName([], name);
      assert WithoutLocalName([e], name) == [] + WithoutLocalName([], name);
    } else {
      WithLocalNameAppend(es[1..], e, name);
      assert (es + [e])[1..] == es[1..] + [e];
      assert es == [es[0]] + es[1..];
    }
  }
}
