/** The comparison of a base inventory with a head inventory, and why it deserves to be called
    a compatibility check. */
module Comparison {
  import opened MemberMaps
  import opened Inventory

  datatype FindingKind = RequiredMemberAdded | MemberRemoved | OptionalityTightened

  datatype Severity = Fail | Report | Exempted

  datatype Finding =
    Finding(entrypoint: string, declaration: DeclarationKey, member: Path, kind: FindingKind, severity: Severity)

  /** A declaration that is absent has no members. */
  function MembersAt(inventory: SurfaceInventory, d: DeclarationKey): MemberMap {
    if d in inventory then inventory[d].members else map[]
  }

  predicate Hard(inventory: SurfaceInventory, d: DeclarationKey) {
    d in inventory && inventory[d].contravariant
  }

  // ---------- the three predicates ----------

  predicate Added(base: SurfaceInventory, head: SurfaceInventory, d: DeclarationKey, m: Path) {
    m in Required(MembersAt(head, d)) && m !in MembersAt(base, d)
  }

  predicate Removed(base: SurfaceInventory, head: SurfaceInventory, d: DeclarationKey, m: Path) {
    m in MembersAt(base, d) && m !in MembersAt(head, d)
  }

  predicate Tightened(base: SurfaceInventory, head: SurfaceInventory, d: DeclarationKey, m: Path) {
    m in Required(MembersAt(head, d)) && m in MembersAt(base, d) && m !in Required(MembersAt(base, d))
  }

  predicate Holds(kind: FindingKind, base: SurfaceInventory, head: SurfaceInventory, d: DeclarationKey, m: Path) {
    match kind
    case RequiredMemberAdded => Added(base, head, d, m)
    case MemberRemoved => Removed(base, head, d, m)
    case OptionalityTightened => Tightened(base, head, d, m)
  }

  /** Only an added member of a declaration nobody has to write is merely reported. */
  predicate IsFinding(entrypoint: string, base: SurfaceInventory, head: SurfaceInventory, f: Finding) {
    f.entrypoint == entrypoint && Holds(f.kind, base, head, f.declaration, f.member) &&
    f.severity == if f.kind == RequiredMemberAdded && !Hard(head, f.declaration) then Report else Fail
  }

  /** The three kinds of change, on the records themselves. */
  predicate IsBreak(base: SurfaceInventory, head: SurfaceInventory, f: Finding) {
    var d, m := f.declaration, f.member;
    match f.kind
    case MemberRemoved =>
      d in base && m in base[d].members && !(d in head && m in head[d].members) && f.severity == Fail
    case RequiredMemberAdded =>
      d in head && m in head[d].members && !head[d].members[m] && !(d in base && m in base[d].members) &&
      f.severity == (if head[d].contravariant then Fail else Report)
    case OptionalityTightened =>
      d in head && m in head[d].members && !head[d].members[m] &&
      d in base && m in base[d].members && base[d].members[m] && f.severity == Fail
  }

  /** What is found is such a change, labelled with its kind. */
  lemma FindingIff(entrypoint: string, base: SurfaceInventory, head: SurfaceInventory, f: Finding)
    ensures IsFinding(entrypoint, base, head, f) <==> f.entrypoint == entrypoint && IsBreak(base, head, f)
  {}

  predicate AtMostOnce(findings: seq<Finding>) {
    forall i, j :: 0 <= i < j < |findings| ==>
      findings[i].declaration != findings[j].declaration || findings[i].member != findings[j].member
  }

  // ---------- the source's loops ----------

  lemma AppendOnce(findings: seq<Finding>, more: seq<Finding>)
    requires AtMostOnce(findings) && AtMostOnce(more)
    requires forall f, g :: f in findings && g in more ==> f.declaration != g.declaration || f.member != g.member
    ensures AtMostOnce(findings + more)
  {
    var all := findings + more;
    forall i, j | 0 <= i < j < |all|
      ensures all[i].declaration != all[j].declaration || all[i].member != all[j].member
    {
      if i < |findings| && j >= |findings| {
        assert all[i] in findings && all[j] in more;
      }
    }
  }

  /** Every base member that head does not have. */
  method CollectRemoved(entrypoint: string, base: SurfaceInventory, head: SurfaceInventory,
                        d: DeclarationKey)
    returns (findings: seq<Finding>)
    ensures forall f :: f in findings <==>
      f.declaration == d && f.kind == MemberRemoved && IsFinding(entrypoint, base, head, f)
    ensures AtMostOnce(findings)
  {
    findings := [];
    var baseMembers, headMembers := MembersAt(base, d), MembersAt(head, d);
    var pending := baseMembers.Keys;
    while pending != {}
      invariant pending <= baseMembers.Keys && AtMostOnce(findings)
      invariant forall f :: f in findings <==>
        f.declaration == d && f.kind == MemberRemoved && IsFinding(entrypoint, base, head, f) && f.member !in pending
      decreases pending
    {
      var member :| member in pending;
      pending := pending - {member};
      if member !in headMembers {
        var f := Finding(entrypoint, d, member, MemberRemoved, Fail);
        AppendOnce(findings, [f]);
        findings := findings + [f];
      }
    }
  }

  /** Every required head member that base lacks or has as optional. */
  method CollectRequired(entrypoint: string, base: SurfaceInventory, head: SurfaceInventory,
                         d: DeclarationKey)
    returns (findings: seq<Finding>)
    requires d in head
    ensures forall f :: f in findings <==>
      f.declaration == d && f.kind != MemberRemoved && IsFinding(entrypoint, base, head, f)
    ensures AtMostOnce(findings)
  {
    findings := [];
    var baseMembers, headMembers := MembersAt(base, d), head[d].members;
    var pending := headMembers.Keys;
    while pending != {}
      invariant pending <= headMembers.Keys && AtMostOnce(findings)
      invariant forall f :: f in findings <==>
        f.declaration == d && f.kind != MemberRemoved && IsFinding(entrypoint, base, head, f) && f.member !in pending
      decreases pending
    {
      var member :| member in pending;
      pending := pending - {member};
      if headMembers[member] {
        continue;
      }
      if member !in baseMembers {
        var severity := if head[d].contravariant then Fail else Report;
        var f := Finding(entrypoint, d, member, RequiredMemberAdded, severity);
        AppendOnce(findings, [f]);
        findings := findings + [f];
      } else if baseMembers[member] {
        var f := Finding(entrypoint, d, member, OptionalityTightened, Fail);
        AppendOnce(findings, [f]);
        findings := findings + [f];
      }
    }
  }

  method CompareSurfaceInventories(entrypoint: string, base: SurfaceInventory,
                                   head: SurfaceInventory)
    returns (findings: seq<Finding>)
    ensures forall f :: f in findings <==> IsFinding(entrypoint, base, head, f)
    ensures forall f :: f in findings <==> f.entrypoint == entrypoint && IsBreak(base, head, f)
    ensures AtMostOnce(findings)
  {
    findings := [];
    var pending := base.Keys + head.Keys;
    while pending != {}
      invariant pending <= base.Keys + head.Keys && AtMostOnce(findings)
      invariant forall f :: f in findings <==> IsFinding(entrypoint, base, head, f) && f.declaration !in pending
      decreases pending
    {
      var d :| d in pending;
      pending := pending - {d};
      var required: seq<Finding> := [];
      if d in head {
        required := CollectRequired(entrypoint, base, head, d);
      }
      var removed := CollectRemoved(entrypoint, base, head, d);
      AppendOnce(required, removed);
      AppendOnce(findings, required + removed);
      findings := findings + (required + removed);
    }
    forall f ensures IsFinding(entrypoint, base, head, f) <==> f.entrypoint == entrypoint && IsBreak(base, head, f) {
      FindingIff(entrypoint, base, head, f);
    }
  }

  // ---------- what passing means ----------

  /** No failing finding. */
  ghost predicate Passes(base: SurfaceInventory, head: SurfaceInventory) {
    forall f: Finding :: IsFinding(f.entrypoint, base, head, f) ==> f.severity != Fail
  }

  lemma BreakFails(base: SurfaceInventory, head: SurfaceInventory, d: DeclarationKey, m: Path, kind: FindingKind)
    requires Passes(base, head) && Holds(kind, base, head, d, m)
    ensures kind == RequiredMemberAdded && !Hard(head, d)
  {
    var severity := if kind == RequiredMemberAdded && !Hard(head, d) then Report else Fail;
    assert IsFinding("", base, head, Finding("", d, m, kind, severity));
  }

  /** Nothing was lost, nothing optional became required, and where consumers write the
      declaration, nothing new is demanded. */
  predicate CompatibleAt(base: SurfaceInventory, head: SurfaceInventory, d: DeclarationKey) {
    MembersAt(base, d).Keys <= MembersAt(head, d).Keys &&
    Required(MembersAt(head, d)) * MembersAt(base, d).Keys <= Required(MembersAt(base, d)) &&
    (Hard(head, d) ==> Required(MembersAt(head, d)) <= Required(MembersAt(base, d)))
  }

  lemma PointwiseCompatible(base: SurfaceInventory, head: SurfaceInventory, d: DeclarationKey)
    requires forall m ::
      !Removed(base, head, d, m) && !Tightened(base, head, d, m) && (Added(base, head, d, m) ==> !Hard(head, d))
    ensures CompatibleAt(base, head, d)
  {
    forall m | m in MembersAt(base, d) ensures m in MembersAt(head, d) { assert !Removed(base, head, d, m); }
    forall m | m in Required(MembersAt(head, d)) ensures m in MembersAt(base, d) ==> m in Required(MembersAt(base, d)) {
      assert !Tightened(base, head, d, m);
    }
    forall m | m in Required(MembersAt(head, d)) && Hard(head, d) ensures m in MembersAt(base, d) {
      assert !Added(base, head, d, m);
    }
  }

  lemma PassesIff(base: SurfaceInventory, head: SurfaceInventory)
    ensures Passes(base, head) <==> forall d :: CompatibleAt(base, head, d)
  {
    if Passes(base, head) {
      forall d ensures CompatibleAt(base, head, d) {
        forall m ensures (Removed(base, head, d, m) || Tightened(base, head, d, m)) ==> false
                 ensures Added(base, head, d, m) ==> !Hard(head, d)
        {
          if Removed(base, head, d, m) { BreakFails(base, head, d, m, MemberRemoved); }
          if Tightened(base, head, d, m) { BreakFails(base, head, d, m, OptionalityTightened); }
          if Added(base, head, d, m) { BreakFails(base, head, d, m, RequiredMemberAdded); }
        }
        PointwiseCompatible(base, head, d);
      }
    }
    if forall d :: CompatibleAt(base, head, d) {
      forall f: Finding | IsFinding(f.entrypoint, base, head, f) ensures f.severity != Fail {
        assert CompatibleAt(base, head, f.declaration);
      }
    }
  }

  lemma PassesReflexive(inventory: SurfaceInventory)
    ensures Passes(inventory, inventory)
  {
    PassesIff(inventory, inventory);
  }

  /** A demand that slips through two passing steps: it entered where nobody had to write the
      declaration, and the declaration became hard only afterwards. */
  ghost predicate LateDemand(base: SurfaceInventory, mid: SurfaceInventory, head: SurfaceInventory, d: DeclarationKey,
                             m: Path) {
    Hard(head, d) && !Hard(mid, d) &&
    m in Required(MembersAt(mid, d)) && m in Required(MembersAt(head, d)) && m !in MembersAt(base, d)
  }

  /** Two passing steps compose exactly when there is no such demand. */
  lemma PassesComposeIff(base: SurfaceInventory, mid: SurfaceInventory, head: SurfaceInventory)
    requires Passes(base, mid) && Passes(mid, head)
    ensures Passes(base, head) <==> forall d, m :: !LateDemand(base, mid, head, d, m)
  {
    PassesIff(base, mid);
    PassesIff(mid, head);
    PassesIff(base, head);
    if Passes(base, head) {
      forall d, m ensures !LateDemand(base, mid, head, d, m) {
        assert CompatibleAt(base, head, d);
      }
    }
    if forall d, m :: !LateDemand(base, mid, head, d, m) {
      forall d ensures CompatibleAt(base, head, d) {
        assert CompatibleAt(base, mid, d) && CompatibleAt(mid, head, d);
        forall m | Hard(head, d) && m in Required(MembersAt(head, d)) ensures m in Required(MembersAt(base, d)) {
          assert !LateDemand(base, mid, head, d, m);
        }
      }
    }
  }

  /** Such demands exist: `a` is added while nobody has to write the declaration, which then
      becomes hard. */
  lemma PassesDoesNotCompose(d: DeclarationKey, a: Path, kind: DeclarationKind)
    ensures var members: MemberMap := map[a := false];
            var mid, head := map[d := Record(kind, false, members)], map[d := Record(kind, true, members)];
            Passes(map[], mid) && Passes(mid, head) && !Passes(map[], head)
  {
    var members: MemberMap := map[a := false];
    var base: SurfaceInventory := map[];
    var mid, head := map[d := Record(kind, false, members)], map[d := Record(kind, true, members)];
    PassesIff(base, mid);
    PassesIff(mid, head);
    forall e ensures CompatibleAt(base, mid, e) && CompatibleAt(mid, head, e) {}
    assert a in Required(members);
    assert LateDemand(base, mid, head, d, a);
    PassesComposeIff(base, mid, head);
  }

  /** In particular when no declaration becomes hard on the second step. */
  lemma PassesTransitive(base: SurfaceInventory, mid: SurfaceInventory, head: SurfaceInventory)
    requires Passes(base, mid) && Passes(mid, head)
    requires forall d :: Hard(head, d) ==> Hard(mid, d)
    ensures Passes(base, head)
  {
    PassesComposeIff(base, mid, head);
  }

  /** No finding at all. */
  ghost predicate Silent(base: SurfaceInventory, head: SurfaceInventory) {
    forall kind, d, m :: !Holds(kind, base, head, d, m)
  }

  lemma SameByRequired(a: MemberMap, b: MemberMap)
    requires forall m :: m in a <==> m in b
    requires forall m :: m in Required(a) <==> m in Required(b)
    ensures a == b
  {
    forall m | m in a ensures a[m] == b[m] {
      assert m in Required(a) <==> m in Required(b);
    }
  }

  /** Silence in both directions is agreement on every declaration that has members. */
  lemma SilentBothWaysIff(a: SurfaceInventory, b: SurfaceInventory)
    ensures Silent(a, b) && Silent(b, a) <==> forall d :: MembersAt(a, d) == MembersAt(b, d)
  {
    if Silent(a, b) && Silent(b, a) {
      forall d ensures MembersAt(a, d) == MembersAt(b, d) {
        forall m ensures m in MembersAt(a, d) <==> m in MembersAt(b, d)
                 ensures m in Required(MembersAt(a, d)) <==> m in Required(MembersAt(b, d))
        {
          assert !Holds(MemberRemoved, a, b, d, m) && !Holds(MemberRemoved, b, a, d, m);
          assert !Holds(OptionalityTightened, a, b, d, m) && !Holds(OptionalityTightened, b, a, d, m);
        }
        SameByRequired(MembersAt(a, d), MembersAt(b, d));
      }
    }
  }

  /** What head asks of somebody who supplies `d` and knows the base members: all it requires
      where consumers have to write `d`, otherwise only what base had already. */
  function DemandedPaths(base: SurfaceInventory, head: SurfaceInventory, d: DeclarationKey): set<Path> {
    if Hard(head, d) then Required(MembersAt(head, d)) else Required(MembersAt(head, d)) * MembersAt(base, d).Keys
  }

  /** The check passes exactly if no member is lost and every set of paths that was enough to
      supply at base still is. */
  lemma PassesIffAdequacyKept(base: SurfaceInventory, head: SurfaceInventory)
    ensures Passes(base, head) <==> forall d ::
      MembersAt(base, d).Keys <= MembersAt(head, d).Keys &&
      forall paths: set<Path> :: Required(MembersAt(base, d)) <= paths ==> DemandedPaths(base, head, d) <= paths
  {
    PassesIff(base, head);
    forall d ensures CompatibleAt(base, head, d) <==>
      MembersAt(base, d).Keys <= MembersAt(head, d).Keys &&
      forall paths: set<Path> :: Required(MembersAt(base, d)) <= paths ==> DemandedPaths(base, head, d) <= paths
    {
      var required := Required(MembersAt(base, d));
      assert required <= required;
    }
  }
}
