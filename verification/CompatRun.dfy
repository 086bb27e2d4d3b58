/** A whole run: every head report against its base snapshot, then the ledger. */
module CompatRun {
  import opened Syntax
  import opened Occurrences
  import opened Inventory
  import opened Comparison
  import opened Ledger

  datatype HeadReport = HeadReport(entrypoint: string, surface: Surface)

  datatype RunResult =
    | Verdict(findings: seq<Finding>, failed: bool)
    | NoBaseSnapshots
    | RemovedEntrypoint(entrypoint: string)
    | ZeroDeclarations(entrypoint: string)
    | BadLedger(duplicate: Entry)
    | StaleLedger(stale: seq<Entry>)

  ghost predicate IsInventoryOf(inventory: SurfaceInventory, view: View) {
    forall key :: Lookup(inventory, key) == RecordAt(view, key)
  }

  ghost predicate AreCallablesOf(keys: set<CallableKey>, surface: Surface) {
    forall key :: key in keys <==> SignaturesOf(surface, key) != []
  }

  /** `base` and `head` are the inventories the run compares: the base one ungated, the head
      one gated by the callables of the base report. */
  ghost predicate Compared(baseSurface: Surface, headSurface: Surface, base: SurfaceInventory, head: SurfaceInventory) {
    IsInventoryOf(base, View(baseSurface, None)) &&
    exists keys :: AreCallablesOf(keys, baseSurface) && IsInventoryOf(head, View(headSurface, Some(keys)))
  }

  /** A finding the run must make for one report; a report without a base makes none. */
  ghost predicate ReportFinding(bases: map<string, Surface>, report: HeadReport, f: Finding) {
    report.entrypoint in bases &&
    exists base, head :: Compared(bases[report.entrypoint], report.surface, base, head) &&
      IsFinding(report.entrypoint, base, head, f)
  }

  lemma SameInventory(a: SurfaceInventory, b: SurfaceInventory, view: View)
    requires IsInventoryOf(a, view) && IsInventoryOf(b, view)
    ensures a == b
  {
    forall key ensures Lookup(a, key) == Lookup(b, key) {
      assert Lookup(a, key) == RecordAt(view, key);
    }
    forall key ensures key in a <==> key in b {
      assert Lookup(a, key) == Lookup(b, key);
    }
    forall key | key in a ensures a[key] == b[key] {
      assert Lookup(a, key) == Lookup(b, key);
    }
  }

  lemma SameCallables(a: set<CallableKey>, b: set<CallableKey>, surface: Surface)
    requires AreCallablesOf(a, surface) && AreCallablesOf(b, surface)
    ensures a == b
  {
    forall key ensures key in a <==> key in b {
      assert key in a <==> SignaturesOf(surface, key) != [];
    }
  }

  /** The inventories compared are determined by the two reports. */
  lemma ComparedUnique(baseSurface: Surface, headSurface: Surface, b0: SurfaceInventory, h0: SurfaceInventory,
                       b1: SurfaceInventory, h1: SurfaceInventory)
    requires Compared(baseSurface, headSurface, b0, h0) && Compared(baseSurface, headSurface, b1, h1)
    ensures b0 == b1 && h0 == h1
  {
    SameInventory(b0, b1, View(baseSurface, None));
    var k0 :| AreCallablesOf(k0, baseSurface) && IsInventoryOf(h0, View(headSurface, Some(k0)));
    var k1 :| AreCallablesOf(k1, baseSurface) && IsInventoryOf(h1, View(headSurface, Some(k1)));
    SameCallables(k0, k1, baseSurface);
    SameInventory(h0, h1, View(headSurface, Some(k0)));
  }

  ghost predicate NothingToInventory(view: View) {
    forall key :: RecordAt(view, key) == None
  }

  /** The head report, gated by its base, or the base report has no record at all. */
  ghost predicate EmptySide(bases: map<string, Surface>, report: HeadReport) {
    if report.entrypoint in bases then
      NothingToInventory(View(bases[report.entrypoint], None)) ||
      exists keys :: AreCallablesOf(keys, bases[report.entrypoint]) &&
        NothingToInventory(View(report.surface, Some(keys)))
    else NothingToInventory(View(report.surface, Some({})))
  }

  lemma SomethingInventoried(inventory: SurfaceInventory, view: View)
    requires inventory != map[] && IsInventoryOf(inventory, view)
    ensures !NothingToInventory(view)
  {
    var key :| key in inventory;
    assert Lookup(inventory, key) == RecordAt(view, key);
  }

  /** The callables of the base, or none for a new entrypoint, which has no base. */
  method GateFor(bases: map<string, Surface>, entrypoint: string) returns (keys: set<CallableKey>)
    ensures if entrypoint in bases then AreCallablesOf(keys, bases[entrypoint]) else keys == {}
  {
    keys := {};
    if entrypoint in bases {
      keys := CollectExistingCallableKeys(bases[entrypoint]);
    }
  }

  lemma NotEmptySide(bases: map<string, Surface>, report: HeadReport, keys: set<CallableKey>)
    requires report.entrypoint in bases && AreCallablesOf(keys, bases[report.entrypoint])
    requires !NothingToInventory(View(bases[report.entrypoint], None)) &&
      !NothingToInventory(View(report.surface, Some(keys)))
    ensures !EmptySide(bases, report)
  {
    forall other | AreCallablesOf(other, bases[report.entrypoint])
      ensures !NothingToInventory(View(report.surface, Some(other)))
    {
      SameCallables(keys, other, bases[report.entrypoint]);
    }
  }

  /** With the compared inventories at hand, the findings to make are those between them. */
  lemma ReportFindings(bases: map<string, Surface>, report: HeadReport, keys: set<CallableKey>,
                       base: SurfaceInventory, head: SurfaceInventory)
    requires report.entrypoint in bases && AreCallablesOf(keys, bases[report.entrypoint])
    requires IsInventoryOf(base, View(bases[report.entrypoint], None)) &&
      IsInventoryOf(head, View(report.surface, Some(keys)))
    ensures forall f :: IsFinding(report.entrypoint, base, head, f) <==> ReportFinding(bases, report, f)
  {
    assert Compared(bases[report.entrypoint], report.surface, base, head);
    forall f ensures IsFinding(report.entrypoint, base, head, f) <==> ReportFinding(bases, report, f) {
      if b, h :| Compared(bases[report.entrypoint], report.surface, b, h) && IsFinding(report.entrypoint, b, h, f) {
        ComparedUnique(bases[report.entrypoint], report.surface, base, head, b, h);
      }
    }
  }

  /** One report against its base; fails exactly when a side has nothing to inventory. */
  method CompareReport(bases: map<string, Surface>, report: HeadReport) returns (findings: Option<seq<Finding>>)
    ensures findings.None? <==> EmptySide(bases, report)
    ensures findings.Some? ==>
      AtMostOnce(findings.value) && forall f :: f in findings.value <==> ReportFinding(bases, report, f)
  {
    var keys := GateFor(bases, report.entrypoint);
    var head := BuildSurfaceInventory(View(report.surface, Some(keys)));
    if head.None? {
      return None;
    }
    SomethingInventoried(head.value, View(report.surface, Some(keys)));
    if report.entrypoint !in bases {
      return Some([]);
    }
    var base := BuildSurfaceInventory(View(bases[report.entrypoint], None));
    if base.None? {
      return None;
    }
    SomethingInventoried(base.value, View(bases[report.entrypoint], None));
    NotEmptySide(bases, report, keys);
    var found := CompareSurfaceInventories(report.entrypoint, base.value, head.value);
    ReportFindings(bases, report, keys, base.value, head.value);
    findings := Some(found);
  }

  predicate DistinctEntrypoints(reports: seq<HeadReport>) {
    forall i, j :: 0 <= i < j < |reports| ==> reports[i].entrypoint != reports[j].entrypoint
  }

  ghost predicate RunFinding(bases: map<string, Surface>, reports: seq<HeadReport>, f: Finding) {
    exists r :: r in reports && ReportFinding(bases, r, f)
  }

  /** The findings of a run in the order it makes them. */
  ghost predicate AreFindings(bases: map<string, Surface>, reports: seq<HeadReport>, findings: seq<Finding>) {
    Fresh(findings) && forall f :: f in findings <==> RunFinding(bases, reports, f)
  }

  lemma AppendFresh(findings: seq<Finding>, more: seq<Finding>, entrypoint: string)
    requires Fresh(findings) && AtMostOnce(more)
    requires forall f :: f in findings ==> f.entrypoint != entrypoint
    requires forall f :: f in more ==> f.entrypoint == entrypoint && f.severity != Exempted
    ensures Fresh(findings + more)
  {
    var all := findings + more;
    forall i, j | 0 <= i < j < |all| ensures TupleOf(all[i]) != TupleOf(all[j]) {
      if i < |findings| {
        assert all[i] in findings && (j >= |findings| ==> all[j] in more);
      } else {
        var x, y := i - |findings|, j - |findings|;
        assert more[x].declaration != more[y].declaration || more[x].member != more[y].member;
      }
    }
  }

  lemma OneReportMore(bases: map<string, Surface>, reports: seq<HeadReport>, report: HeadReport,
                      findings: seq<Finding>, more: seq<Finding>)
    requires AreFindings(bases, reports, findings) && forall r :: r in reports ==> r.entrypoint != report.entrypoint
    requires AtMostOnce(more) && forall f :: f in more <==> ReportFinding(bases, report, f)
    ensures AreFindings(bases, reports + [report], findings + more)
  {
    forall f | f in findings ensures f.entrypoint != report.entrypoint {
      var r :| r in reports && ReportFinding(bases, r, f);
    }
    AppendFresh(findings, more, report.entrypoint);
    forall f ensures f in findings + more <==> RunFinding(bases, reports + [report], f) {
      if RunFinding(bases, reports, f) || ReportFinding(bases, report, f) {
        var r :| (r in reports || r == report) && ReportFinding(bases, r, f);
        assert r in reports + [report];
      }
    }
  }

  method CompareAll(bases: map<string, Surface>,
                    reports: seq<HeadReport>)
    returns (findings: seq<Finding>, empty: Option<string>)
    requires DistinctEntrypoints(reports)
    ensures empty.None? ==> AreFindings(bases, reports, findings) && forall r :: r in reports ==> !EmptySide(bases, r)
    ensures empty.Some? ==> exists r :: r in reports && r.entrypoint == empty.value && EmptySide(bases, r)
  {
    findings := [];
    for i := 0 to |reports|
      invariant AreFindings(bases, reports[..i], findings)
      invariant forall r :: r in reports[..i] ==> !EmptySide(bases, r)
    {
      var report := reports[i];
      var found := CompareReport(bases, report);
      if found.None? {
        return findings, Some(report.entrypoint);
      }
      OneReportMore(bases, reports[..i], report, findings, found.value);
      findings := findings + found.value;
      assert reports[..i + 1] == reports[..i] + [report];
    }
    assert reports[..|reports|] == reports;
    empty := None;
  }

  /** Every base report still has a head report. */
  predicate NothingRemoved(bases: map<string, Surface>, reports: seq<HeadReport>) {
    forall e | e in bases :: exists r :: r in reports && r.entrypoint == e
  }

  /** The ledger entry names a failure of this run. */
  ghost predicate InUse(bases: map<string, Surface>, reports: seq<HeadReport>, e: Entry) {
    exists f :: RunFinding(bases, reports, f) && f.severity == Fail && IsAbout(e, f)
  }

  lemma UseInFindings(bases: map<string, Surface>, reports: seq<HeadReport>, findings: seq<Finding>)
    requires AreFindings(bases, reports, findings)
    ensures forall e :: InUse(bases, reports, e) <==> exists f :: f in findings && f.severity == Fail && IsAbout(e, f)
  {
    forall e ensures InUse(bases, reports, e) <==> exists f :: f in findings && f.severity == Fail && IsAbout(e, f) {
      if f :| f in findings && f.severity == Fail && IsAbout(e, f) {
        assert RunFinding(bases, reports, f);
      }
      if f :| RunFinding(bases, reports, f) && f.severity == Fail && IsAbout(e, f) {
        assert f in findings;
      }
    }
  }

  /** The stages of a run in the source's order: each refusal names its reason, and a verdict
      means that no stage refused. */
  method RunApiSurfaceCompat(bases: map<string, Surface>, reports: seq<HeadReport>,
                             rawLedger: seq<Entry>)
    returns (result: RunResult)
    requires DistinctEntrypoints(reports)
    ensures result.NoBaseSnapshots? <==> bases == map[]
    ensures result.RemovedEntrypoint? <==> bases != map[] && !NothingRemoved(bases, reports)
    ensures result.RemovedEntrypoint? ==>
      result.entrypoint in bases && !exists r :: r in reports && r.entrypoint == result.entrypoint
    ensures result.ZeroDeclarations? ==>
      exists r :: r in reports && r.entrypoint == result.entrypoint && EmptySide(bases, r)
    ensures result.BadLedger? || result.StaleLedger? || result.Verdict? ==>
      forall r :: r in reports ==> !EmptySide(bases, r)
    ensures result.BadLedger? ==> !Distinct(rawLedger) && result.duplicate in rawLedger
    ensures result.StaleLedger? ==> result.stale != [] && Distinct(rawLedger) &&
                                    forall e :: e in result.stale <==> e in rawLedger && !InUse(bases, reports, e)
    ensures result.Verdict? ==> Distinct(rawLedger) && forall e :: e in rawLedger ==> InUse(bases, reports, e)
    ensures result.Verdict? ==> multiset(TuplesWith(result.findings, Exempted)) == multiset(rawLedger)
    ensures result.Verdict? ==> exists made ::
      AreFindings(bases, reports, made) && result.findings == Resolved(made, rawLedger)
    ensures result.Verdict? ==>
              (result.failed <==> exists f ::
                RunFinding(bases, reports, f) && f.severity == Fail && !exists e :: e in rawLedger && IsAbout(e, f))
  {
    if bases == map[] {
      return NoBaseSnapshots;
    }
    if e :| e in bases && !exists r :: r in reports && r.entrypoint == e {
      return RemovedEntrypoint(e);
    }
    var findings, empty := CompareAll(bases, reports);
    if empty.Some? {
      return ZeroDeclarations(empty.value);
    }
    var ledger := ParseExceptionsLedger(rawLedger);
    if ledger.DuplicateEntry? {
      return BadLedger(ledger.entry);
    }
    var stale := ValidateExceptionsLedger(ledger.entries, findings);
    UseInFindings(bases, reports, findings);
    if stale != [] {
      return StaleLedger(stale);
    }
    forall e | e in rawLedger ensures InUse(bases, reports, e) {
      assert e !in stale;
    }
    LedgerBijection(findings, rawLedger);
    FailedIff(findings, rawLedger);
    var resolved := Resolved(findings, ledger.entries);
    result := Verdict(resolved, Failed(resolved));
  }
}
