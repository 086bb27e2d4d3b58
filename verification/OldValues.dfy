/** What a passing comparison means for values that consumers wrote for the base version of a
    declaration they have to write. */
module OldValues {
  import opened Syntax
  import opened MemberMaps
  import opened MemberResolution
  import opened ValueSemantics
  import opened AlwaysPresent
  import opened Exactness
  import opened Occurrences
  import opened Inventory
  import opened Comparison
  import opened CompatRun
  import opened SmallReports

  // ---------- two types ----------

  /** What a passing comparison says about the two versions of a hard declaration. */
  predicate NothingNewMarked(oldType: TypeNode, newType: TypeNode) {
    Required(Resolve(newType)) <= Required(Resolve(oldType))
  }

  /** Each value of the old version has each path that all values of the new version have. */
  ghost predicate OldHaveAll(leaf: LeafSemantics, oldType: TypeNode, newType: TypeNode) {
    forall p :: EveryValueHas(leaf, newType, p) ==> EveryValueHas(leaf, oldType, p)
  }

  /** A path that the new version holds all along without marking it, and the old one does not. */
  ghost predicate HiddenDemand(oldType: TypeNode, newType: TypeNode, p: Path) {
    HoldsAllAlong(newType, AsWritten, p) && !MarkedRequired(newType, p) && !HoldsAllAlong(oldType, AsWritten, p)
  }

  lemma HasIffHeld(leaf: LeafSemantics, t: TypeNode, p: Path)
    requires Inhabitable(t) && Unhindered(leaf, t)
    ensures EveryValueHas(leaf, t, p) <==> p != [] && HoldsAllAlong(t, AsWritten, p)
  {
    EveryValueHasIff(leaf, t, p);
    AlwaysIffHeldAllAlong(t, AsWritten, p);
  }

  /** Under sound old marks old values have all that new ones have exactly if no demand is hidden. */
  lemma OldHaveAllIff(leaf: LeafSemantics, oldType: TypeNode, newType: TypeNode)
    requires NothingNewMarked(oldType, newType) && SoundlyMarked(oldType)
    requires Inhabitable(oldType) && Unhindered(leaf, oldType)
    requires Inhabitable(newType) && Unhindered(leaf, newType)
    ensures OldHaveAll(leaf, oldType, newType) <==> forall p :: !HiddenDemand(oldType, newType, p)
  {
    if OldHaveAll(leaf, oldType, newType) {
      forall p ensures !HiddenDemand(oldType, newType, p) {
        HasIffHeld(leaf, newType, p);
        HasIffHeld(leaf, oldType, p);
      }
    }
    if forall p :: !HiddenDemand(oldType, newType, p) {
      forall p | EveryValueHas(leaf, newType, p) ensures EveryValueHas(leaf, oldType, p) {
        HasIffHeld(leaf, newType, p);
        HasIffHeld(leaf, oldType, p);
        assert !HiddenDemand(oldType, newType, p);
        assert MarkedRequired(newType, p) ==> MarkedRequired(oldType, p);
      }
    }
  }

  lemma MarkIsPresent(leaf: LeafSemantics, v: Value, oldType: TypeNode, newType: TypeNode, p: Path)
    requires NothingNewMarked(oldType, newType) && SoundlyMarked(oldType)
    requires Inhabits(leaf, v, oldType, AsWritten) && MarkedRequired(newType, p)
    ensures Present(v, p)
  {
    assert MarkedRequired(oldType, p);
    AlwaysIffHeldAllAlong(oldType, AsWritten, p);
    AlwaysIsPresent(leaf, v, oldType, AsWritten, p);
  }

  // ---------- two reports ----------

  /** The reports of two views compared without a failing finding, a declaration both have and
      consumers have to write, and no static member in its way. */
  ghost predicate PassesAt(baseView: View, headView: View, base: SurfaceInventory, head: SurfaceInventory,
                           name: string) {
    IsInventoryOf(base, baseView) && IsInventoryOf(head, headView) && Passes(base, head) &&
    name in baseView.surface.declarations && name in headView.surface.declarations && Hard(head, OfDeclaration(name)) &&
    StaticsAddNothing(baseView.surface.declarations[name]) && StaticsAddNothing(headView.surface.declarations[name])
  }

  lemma PassingMarksNothingNew(baseView: View, headView: View, base: SurfaceInventory, head: SurfaceInventory,
                               name: string)
    requires PassesAt(baseView, headView, base, head, name)
    ensures NothingNewMarked(TypeOf(baseView.surface.declarations[name]), TypeOf(headView.surface.declarations[name]))
  {
    var d := OfDeclaration(name);
    assert Lookup(base, d) == RecordAt(baseView, d) && Lookup(head, d) == RecordAt(headView, d);
    RecordedAsDeclared(baseView.surface.declarations[name]);
    RecordedAsDeclared(headView.surface.declarations[name]);
    PassesIff(base, head);
    assert CompatibleAt(base, head, d);
  }

  /** When the check passes and the base marks are sound, a value written for the base version of
      a hard declaration has every path the head version marks required. */
  lemma OldValuesStillFit(baseView: View, headView: View, base: SurfaceInventory, head: SurfaceInventory, name: string,
                          leaf: LeafSemantics, v: Value, p: Path)
    requires PassesAt(baseView, headView, base, head, name)
    requires var oldType := TypeOf(baseView.surface.declarations[name]);
             SoundlyMarked(oldType) && Inhabits(leaf, v, oldType, AsWritten)
    requires MarkedRequired(TypeOf(headView.surface.declarations[name]), p)
    ensures Present(v, p)
  {
    PassingMarksNothingNew(baseView, headView, base, head, name);
    MarkIsPresent(leaf, v, TypeOf(baseView.surface.declarations[name]), TypeOf(headView.surface.declarations[name]), p);
  }

  /** And it has every path that all values of the head version have, exactly if no demand is
      hidden from the marks. */
  lemma OldValuesFitIff(baseView: View, headView: View, base: SurfaceInventory, head: SurfaceInventory, name: string,
                        leaf: LeafSemantics)
    requires PassesAt(baseView, headView, base, head, name)
    requires var oldType := TypeOf(baseView.surface.declarations[name]);
             SoundlyMarked(oldType) && Inhabitable(oldType) && Unhindered(leaf, oldType)
    requires var newType := TypeOf(headView.surface.declarations[name]);
             Inhabitable(newType) && Unhindered(leaf, newType)
    ensures var oldType := TypeOf(baseView.surface.declarations[name]);
            var newType := TypeOf(headView.surface.declarations[name]);
            OldHaveAll(leaf, oldType, newType) <==> forall p :: !HiddenDemand(oldType, newType, p)
  {
    PassingMarksNothingNew(baseView, headView, base, head, name);
    OldHaveAllIff(leaf, TypeOf(baseView.surface.declarations[name]), TypeOf(headView.surface.declarations[name]));
  }

  /** A run without failing findings keeps the values of every hard declaration with sound base
      marks: what fits the base version has every path the head version marks required. */
  lemma CleanRunKeepsValues(bases: map<string, Surface>, reports: seq<HeadReport>, r: HeadReport,
                            base: SurfaceInventory, head: SurfaceInventory,
                            name: string, leaf: LeafSemantics, v: Value, p: Path)
    requires forall f :: RunFinding(bases, reports, f) ==> f.severity != Fail
    requires r in reports && r.entrypoint in bases && Compared(bases[r.entrypoint], r.surface, base, head)
    requires name in bases[r.entrypoint].declarations && name in r.surface.declarations
    requires Hard(head, OfDeclaration(name))
    requires StaticsAddNothing(bases[r.entrypoint].declarations[name]) &&
      StaticsAddNothing(r.surface.declarations[name])
    requires var oldType := TypeOf(bases[r.entrypoint].declarations[name]);
             SoundlyMarked(oldType) && Inhabits(leaf, v, oldType, AsWritten)
    requires MarkedRequired(TypeOf(r.surface.declarations[name]), p)
    ensures Present(v, p)
  {
    var keys :| AreCallablesOf(keys, bases[r.entrypoint]) && IsInventoryOf(head, View(r.surface, Some(keys)));
    forall f: Finding | IsFinding(f.entrypoint, base, head, f) ensures f.severity != Fail {
      var g := f.(entrypoint := r.entrypoint);
      assert IsFinding(r.entrypoint, base, head, g);
      assert ReportFinding(bases, r, g);
      assert RunFinding(bases, reports, g);
    }
    OldValuesStillFit(View(bases[r.entrypoint], None), View(r.surface, Some(keys)), base, head, name, leaf, v, p);
  }

  // ---------- a hidden demand ----------

  /** `{a: {}}` */
  function Shallow(a: string): TypeNode {
    OneMember(a, false, Literal([]))
  }

  /** `{a: {}} & {a?: {c: y}}` */
  function Deepened(a: string, c: string, y: TypeNode): TypeNode {
    Intersection([Shallow(a), OneMember(a, true, OneMember(c, false, y))])
  }

  lemma EmptyResolves(elements: seq<TypeElement>)
    requires elements == []
    ensures Resolve(Literal(elements)) == map[]
  {}

  lemma ShallowMarks(a: string)
    ensures Resolve(Shallow(a)) == map[[a] := false]
  {
    EmptyResolves([]);
    OneMemberMap(a, false, Literal([]), AsWritten);
  }

  lemma OptionalMarksNothing(a: string, t: TypeNode, p: Path)
    ensures !MarkedRequired(OneMember(a, true, t), p)
  {
    OneMemberMap(a, true, t, AsWritten);
  }

  lemma TwoSides(left: TypeNode, right: TypeNode, p: Path)
    ensures MarkedRequired(Intersection([left, right]), p) <==> MarkedRequired(left, p) || MarkedRequired(right, p)
  {
    var sides := [left, right];
    assert sides[0] in sides && sides[1] in sides;
    IntersectionRequired(sides, p);
  }

  /** The marks of the two types are the same. */
  lemma SameMarks(a: string, c: string, y: TypeNode, p: Path)
    ensures MarkedRequired(Deepened(a, c, y), p) <==> MarkedRequired(Shallow(a), p)
    ensures p in Resolve(Shallow(a)) ==> p in Resolve(Deepened(a, c, y))
  {
    TwoSides(Shallow(a), OneMember(a, true, OneMember(c, false, y)), p);
    OptionalMarksNothing(a, OneMember(c, false, y), p);
    ShallowMarks(a);
    assert p in Resolve(Shallow(a)) ==> MarkedRequired(Shallow(a), p);
  }

  lemma DeepenedHas(leaf: LeafSemantics, v: Value, a: string, c: string, y: TypeNode)
    requires Inhabits(leaf, v, Deepened(a, c, y), AsWritten)
    ensures Present(v, [a, c])
  {
    var sides := Deepened(a, c, y).types;
    assert sides[0] in sides && sides[1] in sides;
    FieldOf(leaf, v, a, false, Literal([]));
    FieldOf(leaf, v, a, true, OneMember(c, false, y));
    FieldOf(leaf, v.fields[a], c, false, y);
    assert [a, c][1..] == [c] && [c][1..] == [];
  }

  /** From `{a: {}}` to `{a: {}} & {a?: {c: y}}` no mark changes, so every comparison passes them,
      yet all new values have `a.c` and an old one lacks it. */
  lemma DemandHidden(leaf: LeafSemantics, a: string, c: string, y: TypeNode)
    ensures NothingNewMarked(Shallow(a), Deepened(a, c, y)) && NothingNewMarked(Deepened(a, c, y), Shallow(a))
    ensures EveryValueHas(leaf, Deepened(a, c, y), [a, c])
    ensures var v := Object(map[a := Object(map[])]); Inhabits(leaf, v, Shallow(a), AsWritten) && !Present(v, [a, c])
  {
    forall p { SameMarks(a, c, y, p); }
    forall v | Inhabits(leaf, v, Deepened(a, c, y), AsWritten) ensures Present(v, [a, c]) {
      DeepenedHas(leaf, v, a, c, y);
    }
    OneFieldFits(leaf, a, Literal([]), Object(map[]));
    assert [a, c][1..] == [c];
  }

  /** The same in two reports of `function f(x: N): void` with either type as `N`. */
  lemma DemandHiddenInReports(base: SurfaceInventory, head: SurfaceInventory, f: string, name: string, a: string,
                              c: string, y: TypeNode)
    requires IsInventoryOf(base, View(Surface(map[name := Alias(Shallow(a))], [Takes(f, name)]), None))
    requires IsInventoryOf(head, View(Surface(map[name := Alias(Deepened(a, c, y))], [Takes(f, name)]),
      Some({TopLevel(f)})))
    ensures Passes(base, head) && Hard(head, OfDeclaration(name))
  {
    var baseView := View(Surface(map[name := Alias(Shallow(a))], [Takes(f, name)]), None);
    var headView := View(Surface(map[name := Alias(Deepened(a, c, y))], [Takes(f, name)]), Some({TopLevel(f)}));
    TakenIsHard(headView, Takes(f, name), name);
    SmallRecord(head, headView, OfDeclaration(name));
    PassesIff(base, head);
    forall d ensures CompatibleAt(base, head, d) {
      SmallRecord(base, baseView, d);
      SmallRecord(head, headView, d);
      forall p { SameMarks(a, c, y, p); }
      ShallowMarks(a);
    }
  }
}
