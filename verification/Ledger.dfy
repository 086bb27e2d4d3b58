/** The exceptions ledger, audited in both directions, and the verdict of a whole run. */
module Ledger {
  import opened MemberMaps
  import opened Inventory
  import opened Comparison

  /** What an exception names; its reason and issue play no part in the verdict. */
  datatype Entry = Entry(entrypoint: string, declaration: DeclarationKey, member: Path, kind: FindingKind)

  datatype ParsedLedger = Ledger(entries: seq<Entry>) | DuplicateEntry(entry: Entry)

  predicate Distinct(entries: seq<Entry>) {
    forall i, j :: 0 <= i < j < |entries| ==> entries[i] != entries[j]
  }

  /** The duplicate check of `parseExceptionsLedger`. */
  method ParseExceptionsLedger(raw: seq<Entry>) returns (ledger: ParsedLedger)
    ensures ledger.Ledger? <==> Distinct(raw)
    ensures ledger.Ledger? ==> ledger.entries == raw
    ensures ledger.DuplicateEntry? ==> ledger.entry in raw
  {
    var seen, entries := {}, [];
    for i := 0 to |raw|
      invariant entries == raw[..i] && Distinct(entries)
      invariant forall e :: e in seen <==> e in entries
    {
      if raw[i] in seen {
        var j :| 0 <= j < i && raw[j] == raw[i];
        return DuplicateEntry(raw[i]);
      }
      seen := seen + {raw[i]};
      entries := entries + [raw[i]];
    }
    assert raw[..|raw|] == raw;
    ledger := Ledger(entries);
  }

  function TupleOf(f: Finding): Entry {
    Entry(f.entrypoint, f.declaration, f.member, f.kind)
  }

  predicate Matches(e: Entry, f: Finding) {
    f.severity == Fail && TupleOf(f) == e
  }

  /** The entry has the four fields of the finding. */
  predicate IsAbout(e: Entry, f: Finding) {
    e.entrypoint == f.entrypoint && e.declaration == f.declaration && e.member == f.member && e.kind == f.kind
  }

  /** The entries without a failing finding. */
  function ValidateExceptionsLedger(entries: seq<Entry>, findings: seq<Finding>): (stale: seq<Entry>)
    ensures forall e :: e in stale <==>
      e in entries && !exists f :: f in findings && f.severity == Fail && IsAbout(e, f)
  {
    if entries == [] then []
    else
      var rest := ValidateExceptionsLedger(entries[1..], findings);
      (if exists f | f in findings :: Matches(entries[0], f) then [] else [entries[0]]) + rest
  }

  function Exempt(f: Finding, entries: seq<Entry>): Finding {
    if f.severity == Fail && TupleOf(f) in entries then f.(severity := Exempted) else f
  }

  /** The findings with every excepted failure downgraded, in place. */
  function Resolved(findings: seq<Finding>, entries: seq<Entry>): (r: seq<Finding>)
    ensures |r| == |findings|
    ensures forall i :: 0 <= i < |findings| ==> r[i] == Exempt(findings[i], entries)
  {
    seq(|findings|, i requires 0 <= i < |findings| => Exempt(findings[i], entries))
  }

  predicate Failed(findings: seq<Finding>) {
    exists f | f in findings :: f.severity == Fail
  }

  /** What survives a run: each tuple is found at most once, and nothing is exempted yet. */
  predicate Fresh(findings: seq<Finding>) {
    (forall i, j :: 0 <= i < j < |findings| ==> TupleOf(findings[i]) != TupleOf(findings[j])) &&
    forall f :: f in findings ==> f.severity != Exempted
  }

  /** The tuples of the findings of one severity, in order. */
  function TuplesWith(findings: seq<Finding>, severity: Severity): seq<Entry> {
    if findings == [] then [] else
    var rest, f := TuplesWith(findings[..|findings| - 1], severity), findings[|findings| - 1];
    if f.severity == severity then rest + [TupleOf(f)] else rest
  }

  // ---------- the ledger and the failures ----------

  lemma {:induction false} InTuples(findings: seq<Finding>, severity: Severity, e: Entry)
    ensures e in TuplesWith(findings, severity) <==>
      exists f :: f in findings && f.severity == severity && TupleOf(f) == e
    decreases |findings|
  {
    if findings != [] {
      var n := |findings| - 1;
      InTuples(findings[..n], severity, e);
      assert findings == findings[..n] + [findings[n]];
    }
  }

  lemma {:induction false} DistinctTuples(findings: seq<Finding>, severity: Severity)
    requires forall i, j :: 0 <= i < j < |findings| ==> TupleOf(findings[i]) != TupleOf(findings[j])
    ensures Distinct(TuplesWith(findings, severity))
    decreases |findings|
  {
    if findings != [] {
      var n := |findings| - 1;
      DistinctTuples(findings[..n], severity);
      InTuples(findings[..n], severity, TupleOf(findings[n]));
    }
  }

  lemma {:induction false} DistinctCount(entries: seq<Entry>, e: Entry)
    requires Distinct(entries)
    ensures multiset(entries)[e] == if e in entries then 1 else 0
    decreases |entries|
  {
    if entries != [] {
      var n := |entries| - 1;
      DistinctCount(entries[..n], e);
      assert entries == entries[..n] + [entries[n]];
    }
  }

  lemma DistinctWithSameElements(a: seq<Entry>, b: seq<Entry>)
    requires Distinct(a) && Distinct(b) && forall e :: e in a <==> e in b
    ensures multiset(a) == multiset(b) && |a| == |b|
  {
    forall e ensures multiset(a)[e] == multiset(b)[e] {
      DistinctCount(a, e);
      DistinctCount(b, e);
    }
    assert |multiset(a)| == |a| && |multiset(b)| == |b|;
  }

  /** Downgrading splits the failures: each is either exempted or still there. */
  lemma {:induction false} FailuresSplit(findings: seq<Finding>, entries: seq<Entry>)
    requires forall f :: f in findings ==> f.severity != Exempted
    ensures |TuplesWith(findings, Fail)| ==
      |TuplesWith(Resolved(findings, entries), Exempted)| + |TuplesWith(Resolved(findings, entries), Fail)|
    decreases |findings|
  {
    if findings != [] {
      var n := |findings| - 1;
      FailuresSplit(findings[..n], entries);
      assert Resolved(findings, entries)[..n] == Resolved(findings[..n], entries);
      assert findings[n] in findings;
    }
  }

  lemma ExemptedTupleIff(findings: seq<Finding>, entries: seq<Entry>, e: Entry)
    requires forall f :: f in findings ==> f.severity != Exempted
    ensures e in TuplesWith(Resolved(findings, entries), Exempted) <==>
      e in entries && exists f :: f in findings && Matches(e, f)
  {
    var resolved := Resolved(findings, entries);
    InTuples(resolved, Exempted, e);
    if r :| r in resolved && r.severity == Exempted && TupleOf(r) == e {
      var i :| 0 <= i < |resolved| && resolved[i] == r;
      assert findings[i] in findings && Matches(e, findings[i]);
    }
    if f :| f in findings && Matches(e, f) && e in entries {
      var i :| 0 <= i < |findings| && findings[i] == f;
      assert resolved[i] in resolved;
    }
  }

  /** With a ledger that has no duplicate and no stale entry, the exempted findings are exactly
      the ledger, one for one, and failures are conserved. */
  lemma LedgerBijection(findings: seq<Finding>, entries: seq<Entry>)
    requires Fresh(findings) && Distinct(entries) && ValidateExceptionsLedger(entries, findings) == []
    ensures var resolved := Resolved(findings, entries);
            multiset(TuplesWith(resolved, Exempted)) == multiset(entries) &&
            |TuplesWith(findings, Fail)| == |entries| + |TuplesWith(resolved, Fail)|
  {
    var resolved := Resolved(findings, entries);
    forall i, j | 0 <= i < j < |resolved| ensures TupleOf(resolved[i]) != TupleOf(resolved[j]) {
      assert TupleOf(findings[i]) != TupleOf(findings[j]);
    }
    DistinctTuples(resolved, Exempted);
    forall e ensures e in TuplesWith(resolved, Exempted) <==> e in entries {
      ExemptedTupleIff(findings, entries, e);
      assert e !in ValidateExceptionsLedger(entries, findings);
    }
    DistinctWithSameElements(TuplesWith(resolved, Exempted), entries);
    FailuresSplit(findings, entries);
  }

  /** Every finding keeps its four fields and its place. A failing one is exempted iff an entry
      has the same entrypoint, declaration, member and kind; any other keeps its severity. */
  lemma ExemptedIff(findings: seq<Finding>, entries: seq<Entry>, i: nat)
    requires i < |findings| && findings[i].severity != Exempted
    ensures |Resolved(findings, entries)| == |findings|
    ensures var f, r := findings[i], Resolved(findings, entries)[i];
            r.entrypoint == f.entrypoint && r.declaration == f.declaration && r.member == f.member &&
              r.kind == f.kind &&
            (r.severity == Exempted || r.severity == f.severity) &&
            (r.severity == Exempted <==> f.severity == Fail && exists e :: e in entries && IsAbout(e, f))
  {
    var f := findings[i];
    if e :| e in entries && IsAbout(e, f) {
      assert e == Entry(f.entrypoint, f.declaration, f.member, f.kind);
    }
  }

  /** An entry of another kind neither exempts a failure nor is in use because of it. */
  lemma OtherKindIsNoExemption(f: Finding, e: Entry)
    requires f.severity == Fail && e.kind != f.kind
    ensures Resolved([f], [e]) == [f] && Failed(Resolved([f], [e]))
    ensures e in ValidateExceptionsLedger([e], [f])
  {
    assert e in [e];
    ExemptedIff([f], [e], 0);
    var r := Resolved([f], [e]);
    assert r[0] == f && r[0] in r;
  }

  /** The run fails iff some failing finding has no entry with its four fields. */
  lemma FailedIff(findings: seq<Finding>, entries: seq<Entry>)
    requires forall f :: f in findings ==> f.severity != Exempted
    ensures Failed(Resolved(findings, entries)) <==>
      exists f :: f in findings && f.severity == Fail && !exists e :: e in entries && IsAbout(e, f)
  {
    var resolved := Resolved(findings, entries);
    forall i | 0 <= i < |findings|
      ensures resolved[i].severity == Fail <==>
        findings[i].severity == Fail && !exists e :: e in entries && IsAbout(e, findings[i])
    {
      ExemptedIff(findings, entries, i);
    }
    if r :| r in resolved && r.severity == Fail {
      var i :| 0 <= i < |resolved| && resolved[i] == r;
      assert findings[i] in findings;
    }
    if f :| f in findings && f.severity == Fail && !exists e :: e in entries && IsAbout(e, f) {
      var i :| 0 <= i < |findings| && findings[i] == f;
      assert resolved[i] in resolved;
    }
  }
}
