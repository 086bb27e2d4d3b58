/** What a run reports about a declaration, in terms of the two reports. */
module Reports {
  import opened Syntax
  import opened MemberMaps
  import opened MemberResolution
  import opened Occurrences
  import opened Inventory
  import opened Callables
  import opened Comparison
  import opened CompatRun

  /** The recorded members of a declaration; none if there is no such declaration. */
  function MembersIn(surface: Surface, name: string): MemberMap {
    if name in surface.declarations then DeclarationMembers(surface.declarations[name]) else map[]
  }

  /** The callables that a report declares. */
  ghost predicate AreDeclared(keys: set<CallableKey>, surface: Surface) {
    forall key :: key in keys <==> exists ps, r :: DeclaresCallable(surface, key, ps, r)
  }

  /** A change of the declaration from one report to the next: an added member fails only if the
      declaration is hard at the head for the callables of the base. */
  ghost predicate Changed(base: Surface, head: Surface, ofBase: set<CallableKey>, name: string, f: Finding) {
    var was, now, m := MembersIn(base, name), MembersIn(head, name), f.member;
    match f.kind
    case MemberRemoved => m in was && m !in now && f.severity == Fail
    case RequiredMemberAdded =>
      m in now && !now[m] && m !in was &&
      (f.severity == Fail <==> HardContravariant(View(head, Some(ofBase)), name)) &&
      (f.severity == Report <==> !HardContravariant(View(head, Some(ofBase)), name))
    case OptionalityTightened => m in now && !now[m] && m in was && was[m] && f.severity == Fail
  }

  lemma SameGate(keys: set<CallableKey>, ofBase: set<CallableKey>, surface: Surface)
    requires AreCallablesOf(keys, surface) && AreDeclared(ofBase, surface)
    ensures keys == ofBase
  {
    forall key ensures key in keys <==> key in ofBase {
      CallableIffDeclared(surface, key);
      assert key in keys <==> SignaturesOf(surface, key) != [];
    }
  }

  lemma MembersRecorded(inventory: SurfaceInventory, view: View, name: string)
    requires IsInventoryOf(inventory, view)
    ensures MembersAt(inventory, OfDeclaration(name)) == MembersIn(view.surface, name)
    ensures OfDeclaration(name) in inventory ==>
      (inventory[OfDeclaration(name)].contravariant <==> HardContravariant(view, name))
    ensures OfDeclaration(name) in inventory <==> name in view.surface.declarations
  {
    assert Lookup(inventory, OfDeclaration(name)) == RecordAt(view, OfDeclaration(name));
    RecordOfDeclaration(view, name);
  }

  /** A run reports the changes of each declaration, the head one gated by the callables that the
      base report declares. */
  lemma ReportFindingIff(bases: map<string, Surface>, report: HeadReport, ofBase: set<CallableKey>,
                         base: SurfaceInventory, head: SurfaceInventory, name: string, f: Finding)
    requires report.entrypoint in bases && Compared(bases[report.entrypoint], report.surface, base, head)
    requires AreDeclared(ofBase, bases[report.entrypoint]) && f.declaration == OfDeclaration(name)
    ensures ReportFinding(bases, report, f) <==>
      f.entrypoint == report.entrypoint && Changed(bases[report.entrypoint], report.surface, ofBase, name, f)
  {
    var baseSurface := bases[report.entrypoint];
    var keys :| AreCallablesOf(keys, baseSurface) && IsInventoryOf(head, View(report.surface, Some(keys)));
    SameGate(keys, ofBase, baseSurface);
    MembersRecorded(base, View(baseSurface, None), name);
    MembersRecorded(head, View(report.surface, Some(ofBase)), name);
    ReportFindings(bases, report, keys, base, head);
    FindingIff(report.entrypoint, base, head, f);
  }
}
