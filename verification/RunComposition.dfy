/** Runs over three releases, each gated by the callables of its own base. */
module RunComposition {
  import opened Syntax
  import opened MemberMaps
  import opened MemberResolution
  import opened Occurrences
  import opened VarianceLaws
  import opened Inventory
  import opened InlineAgreement
  import opened Comparison
  import opened CompatRun
  import opened SmallReports

  lemma GateKeepsEntry(view: View, other: View, callable: CallableKey, k: string)
    requires view.surface == other.surface
    ensures var a, b := EntryAt(view, OfParameter(callable, k)), EntryAt(other, OfParameter(callable, k));
            (a.Some? <==> b.Some?) && (a.Some? ==> a.value.members == b.value.members)
  {
    InlineEntryIff(view, callable, k);
    InlineEntryIff(other, callable, k);
    var a, b := EntryAt(view, OfParameter(callable, k)), EntryAt(other, OfParameter(callable, k));
    if a.Some? && b.Some? {
      forall p ensures p in a.value.members <==> p in b.value.members
               ensures p in Required(a.value.members) <==> p in Required(b.value.members)
      {
        InlineEntryRequiredIff(view, callable, k, p);
        InlineEntryRequiredIff(other, callable, k, p);
      }
      SameByRequired(a.value.members, b.value.members);
    }
  }

  /** The gate decides what is hard, and nothing else. */
  lemma GateKeepsMembers(surface: Surface, gate: Option<set<CallableKey>>, other: Option<set<CallableKey>>,
                         key: DeclarationKey)
    ensures var a, b := RecordAt(View(surface, gate), key), RecordAt(View(surface, other), key);
            (a.Some? <==> b.Some?) && (a.Some? ==> a.value.members == b.value.members)
  {
    match key
    case OfDeclaration(_) =>
    case OfParameter(callable, k) => GateKeepsEntry(View(surface, gate), View(surface, other), callable, k);
    case OfResult(_) =>
  }

  lemma SameMembersAt(surface: Surface, gate: Option<set<CallableKey>>, other: Option<set<CallableKey>>,
                      a: SurfaceInventory, b: SurfaceInventory, d: DeclarationKey)
    requires IsInventoryOf(a, View(surface, gate)) && IsInventoryOf(b, View(surface, other))
    ensures MembersAt(a, d) == MembersAt(b, d)
  {
    assert Lookup(a, d) == RecordAt(View(surface, gate), d) && Lookup(b, d) == RecordAt(View(surface, other), d);
    GateKeepsMembers(surface, gate, other, d);
  }

  lemma HardAsRecorded(inventory: SurfaceInventory, view: View, d: DeclarationKey)
    requires IsInventoryOf(inventory, view)
    ensures Hard(inventory, d) <==> RecordAt(view, d).Some? && RecordAt(view, d).value.contravariant
  {
    assert Lookup(inventory, d) == RecordAt(view, d);
  }

  /** A wider gate keeps every record hard that was. */
  lemma HardUnderWiderGate(surface: Surface, fewer: set<CallableKey>, more: set<CallableKey>, a: SurfaceInventory,
                           b: SurfaceInventory, d: DeclarationKey)
    requires IsInventoryOf(a, View(surface, Some(fewer))) && IsInventoryOf(b, View(surface, Some(more)))
    requires fewer <= more && Hard(a, d)
    ensures Hard(b, d)
  {
    HardAsRecorded(a, View(surface, Some(fewer)), d);
    HardAsRecorded(b, View(surface, Some(more)), d);
    match d
    case OfDeclaration(name) => HardMonotoneInGate(surface, Some(fewer), Some(more), name);
    case OfParameter(callable, k) =>
      InlineEntryIff(View(surface, Some(fewer)), callable, k);
      InlineEntryIff(View(surface, Some(more)), callable, k);
    case OfResult(_) =>
  }

  /** The five inventories of two runs in a row and of the one run that skips the release between:
      `mid` and `head` gated by the callables of `base`, `mid` as a base, `head` gated by `mid`. */
  datatype Runs = Runs(
    base: SurfaceInventory,
    mid: SurfaceInventory,
    midAsBase: SurfaceInventory,
    head: SurfaceInventory,
    headFromBase: SurfaceInventory)

  ghost predicate AreRuns(runs: Runs, base: Surface, mid: Surface, head: Surface, ofBase: set<CallableKey>,
                          ofMid: set<CallableKey>) {
    AreCallablesOf(ofBase, base) && AreCallablesOf(ofMid, mid) &&
    IsInventoryOf(runs.base, View(base, None)) && IsInventoryOf(runs.mid, View(mid, Some(ofBase))) &&
    IsInventoryOf(runs.midAsBase, View(mid, None)) && IsInventoryOf(runs.head, View(head, Some(ofMid))) &&
    IsInventoryOf(runs.headFromBase, View(head, Some(ofBase)))
  }

  /** A demand of the head that the base did not know, on a declaration that is hard for callers
      of the base. It slipped through because it came with `mid` while the declaration was not
      hard, or came later on a declaration whose callables `mid` did not have. */
  ghost predicate LateDemandOfRuns(runs: Runs, d: DeclarationKey, p: Path) {
    Hard(runs.headFromBase, d) && p in Required(MembersAt(runs.headFromBase, d)) && p !in MembersAt(runs.base, d) &&
    if p in MembersAt(runs.mid, d) then !Hard(runs.mid, d) else !Hard(runs.head, d)
  }

  ghost predicate NothingLate(runs: Runs, d: DeclarationKey) {
    forall p :: !LateDemandOfRuns(runs, d, p)
  }

  lemma RunStep(runs: Runs, d: DeclarationKey)
    requires Passes(runs.base, runs.mid) && Passes(runs.midAsBase, runs.head)
    requires MembersAt(runs.mid, d) == MembersAt(runs.midAsBase, d) &&
      MembersAt(runs.head, d) == MembersAt(runs.headFromBase, d)
    ensures CompatibleAt(runs.base, runs.headFromBase, d) <==> NothingLate(runs, d)
  {
    PassesIff(runs.base, runs.mid);
    PassesIff(runs.midAsBase, runs.head);
    assert CompatibleAt(runs.base, runs.mid, d) && CompatibleAt(runs.midAsBase, runs.head, d);
    if NothingLate(runs, d) {
      forall p | Hard(runs.headFromBase, d) && p in Required(MembersAt(runs.headFromBase, d))
        ensures p in Required(MembersAt(runs.base, d))
      {
        assert !LateDemandOfRuns(runs, d, p);
      }
    }
  }

  /** Two passing runs amount to a passing run over both steps exactly when there is no such demand. */
  lemma RunsComposeIff(runs: Runs, base: Surface, mid: Surface, head: Surface, ofBase: set<CallableKey>,
                       ofMid: set<CallableKey>)
    requires AreRuns(runs, base, mid, head, ofBase, ofMid)
    requires Passes(runs.base, runs.mid) && Passes(runs.midAsBase, runs.head)
    ensures Passes(runs.base, runs.headFromBase) <==> forall d :: NothingLate(runs, d)
  {
    PassesIff(runs.base, runs.headFromBase);
    forall d ensures CompatibleAt(runs.base, runs.headFromBase, d) <==> NothingLate(runs, d) {
      SameMembersAt(mid, Some(ofBase), None, runs.mid, runs.midAsBase, d);
      SameMembersAt(head, Some(ofMid), Some(ofBase), runs.head, runs.headFromBase, d);
      RunStep(runs, d);
    }
  }

  /** In particular when `mid` still has all callables of `base` and no declaration becomes hard
      for callers of the base on the second step. */
  lemma RunsCompose(runs: Runs, base: Surface, mid: Surface, head: Surface, ofBase: set<CallableKey>,
                    ofMid: set<CallableKey>)
    requires AreRuns(runs, base, mid, head, ofBase, ofMid)
    requires Passes(runs.base, runs.mid) && Passes(runs.midAsBase, runs.head)
    requires ofBase <= ofMid && forall d :: Hard(runs.headFromBase, d) ==> Hard(runs.mid, d)
    ensures Passes(runs.base, runs.headFromBase)
  {
    RunsComposeIff(runs, base, mid, head, ofBase, ofMid);
    forall d, p ensures !LateDemandOfRuns(runs, d, p) {
      if Hard(runs.headFromBase, d) {
        HardUnderWiderGate(head, ofBase, ofMid, runs.headFromBase, runs.head, d);
      }
    }
  }

  // ---------- runs that do not compose ----------

  /** `interface T` with the given members, `interface U {}`, and functions. */
  function TwoInterfaces(t: string, u: string, members: seq<TypeElement>,
                         functions: seq<FunctionDeclaration>): Surface {
    Surface(map[u := Interface([]), t := Interface(members)], functions)
  }

  ghost predicate IsTwoInterfaces(surface: Surface, t: string, u: string, members: seq<TypeElement>) {
    surface == TwoInterfaces(t, u, members, surface.functions) && Small(surface) && MentionNothing(surface)
  }

  /** `T` has the members and is hard as given; nothing else has members. */
  ghost predicate OnlyMembersOf(inventory: SurfaceInventory, t: string, members: seq<TypeElement>, hard: bool) {
    (forall d :: d != OfDeclaration(t) ==> MembersAt(inventory, d) == map[]) &&
    MembersAt(inventory, OfDeclaration(t)) == LiteralMembers(members, AsWritten) &&
      (Hard(inventory, OfDeclaration(t)) <==> hard)
  }

  lemma RecordsOfTwo(inventory: SurfaceInventory, view: View, t: string, u: string, members: seq<TypeElement>)
    requires IsInventoryOf(inventory, view) && IsTwoInterfaces(view.surface, t, u, members)
    ensures OnlyMembersOf(inventory, t, members, Taken(view, t))
  {
    forall d
      ensures MembersAt(inventory, d) == if d == OfDeclaration(t) then LiteralMembers(members, AsWritten) else map[]
    {
      SmallRecord(inventory, view, d);
    }
    SmallRecord(inventory, view, OfDeclaration(t));
    HardIffTaken(view, t);
  }

  /** The element `a`, of no declared type. */
  function Bare(a: string): TypeElement {
    Property(Plain(a), false, None)
  }

  lemma MembersOfBare(a: string)
    ensures LiteralMembers([], AsWritten) == map[] && LiteralMembers([Bare(a)], AsWritten) == map[[a] := false]
  {
    assert [Bare(a)][..0] == [];
    assert LiteralMembers([Bare(a)], AsWritten) ==
      LiteralMembers([Bare(a)][..0], AsWritten) + ElementMembers(Bare(a), AsWritten);
  }

  /** Without a change of members every comparison passes. */
  lemma SameMembersPass(base: SurfaceInventory, head: SurfaceInventory, t: string, members: seq<TypeElement>,
                        inBase: bool, inHead: bool)
    requires OnlyMembersOf(base, t, members, inBase) && OnlyMembersOf(head, t, members, inHead)
    ensures Passes(base, head)
  {
    PassesIff(base, head);
    forall d ensures CompatibleAt(base, head, d) {
      assert MembersAt(base, d) == MembersAt(head, d);
    }
  }

  /** Adding `a` to an empty `T` passes exactly if `T` is not hard. */
  lemma AddedPassesIff(base: SurfaceInventory, head: SurfaceInventory, t: string, a: string, inBase: bool, inHead: bool)
    requires OnlyMembersOf(base, t, [], inBase) && OnlyMembersOf(head, t, [Bare(a)], inHead)
    ensures Passes(base, head) <==> !inHead
  {
    MembersOfBare(a);
    PassesIff(base, head);
    assert [a] in Required(MembersAt(head, OfDeclaration(t)));
    if inHead {
      assert [a] !in Required(MembersAt(base, OfDeclaration(t)));
      assert !CompatibleAt(base, head, OfDeclaration(t));
    } else {
      forall d ensures CompatibleAt(base, head, d) {
        assert d != OfDeclaration(t) ==> MembersAt(head, d) == map[];
      }
    }
  }

  lemma TakesOnly(view: View, f: string, n: string, t: string)
    requires view.surface.functions == [Takes(f, n)]
    ensures Taken(view, t) <==> t == n && KeyExisted(view.existing, TopLevel(f))
  {
    assert Takes(f, n) in view.surface.functions;
  }

  /** The two interfaces with one function that takes `n`. */
  function OneTaker(t: string, u: string, members: seq<TypeElement>, f: string, n: string): Surface {
    TwoInterfaces(t, u, members, [Takes(f, n)])
  }

  lemma AreTwoInterfaces(t: string, u: string, a: string, f: string, n: string)
    requires t != u
    ensures IsTwoInterfaces(OneTaker(t, u, [], f, n), t, u, []) &&
      IsTwoInterfaces(OneTaker(t, u, [Bare(a)], f, n), t, u, [Bare(a)])
    ensures IsTwoInterfaces(TwoInterfaces(t, u, [], []), t, u, [])
  {
    assert forall g | g in [Takes(f, n)] :: g == Takes(g.name, n);
  }

  /** `T.a` comes with the middle release, while `f` takes `U`; at the head `f` takes `T`. */
  lemma LateWithMid(runs: Runs, f: string, t: string, u: string, a: string, ofBase: set<CallableKey>,
                    ofMid: set<CallableKey>)
    requires t != u
    requires AreRuns(runs, OneTaker(t, u, [], f, u), OneTaker(t, u, [Bare(a)], f, u),
                     OneTaker(t, u, [Bare(a)], f, t), ofBase, ofMid)
    ensures Passes(runs.base, runs.mid) && Passes(runs.midAsBase, runs.head) && !Passes(runs.base, runs.headFromBase)
  {
    var base, mid, head := OneTaker(t, u, [], f, u), OneTaker(t, u, [Bare(a)], f, u), OneTaker(t, u, [Bare(a)], f, t);
    AreTwoInterfaces(t, u, a, f, u);
    AreTwoInterfaces(t, u, a, f, t);
    SmallCallables(base, ofBase, TopLevel(f));
    assert Takes(f, u) in base.functions;
    RecordsOfTwo(runs.base, View(base, None), t, u, []);
    RecordsOfTwo(runs.mid, View(mid, Some(ofBase)), t, u, [Bare(a)]);
    RecordsOfTwo(runs.midAsBase, View(mid, None), t, u, [Bare(a)]);
    RecordsOfTwo(runs.head, View(head, Some(ofMid)), t, u, [Bare(a)]);
    RecordsOfTwo(runs.headFromBase, View(head, Some(ofBase)), t, u, [Bare(a)]);
    TakesOnly(View(mid, Some(ofBase)), f, u, t);
    TakesOnly(View(head, Some(ofBase)), f, t, t);
    AddedPassesIff(runs.base, runs.mid, t, a, Taken(View(base, None), t), false);
    SameMembersPass(runs.midAsBase, runs.head, t, [Bare(a)], Taken(View(mid, None), t),
      Taken(View(head, Some(ofMid)), t));
    AddedPassesIff(runs.base, runs.headFromBase, t, a, Taken(View(base, None), t), true);
  }

  /** The middle release drops `f`; the head brings it back, with `T.a`. */
  lemma LateWithReturn(runs: Runs, f: string, t: string, u: string, a: string, ofBase: set<CallableKey>,
                       ofMid: set<CallableKey>)
    requires t != u
    requires AreRuns(runs, OneTaker(t, u, [], f, t), TwoInterfaces(t, u, [], []),
                     OneTaker(t, u, [Bare(a)], f, t), ofBase, ofMid)
    ensures Passes(runs.base, runs.mid) && Passes(runs.midAsBase, runs.head) && !Passes(runs.base, runs.headFromBase)
  {
    var base, mid, head := OneTaker(t, u, [], f, t), TwoInterfaces(t, u, [], []), OneTaker(t, u, [Bare(a)], f, t);
    AreTwoInterfaces(t, u, a, f, t);
    SmallCallables(base, ofBase, TopLevel(f));
    SmallCallables(mid, ofMid, TopLevel(f));
    assert Takes(f, t) in base.functions;
    RecordsOfTwo(runs.base, View(base, None), t, u, []);
    RecordsOfTwo(runs.mid, View(mid, Some(ofBase)), t, u, []);
    RecordsOfTwo(runs.midAsBase, View(mid, None), t, u, []);
    RecordsOfTwo(runs.head, View(head, Some(ofMid)), t, u, [Bare(a)]);
    RecordsOfTwo(runs.headFromBase, View(head, Some(ofBase)), t, u, [Bare(a)]);
    TakesOnly(View(head, Some(ofMid)), f, t, t);
    TakesOnly(View(head, Some(ofBase)), f, t, t);
    SameMembersPass(runs.base, runs.mid, t, [], Taken(View(base, None), t), Taken(View(mid, Some(ofBase)), t));
    AddedPassesIff(runs.midAsBase, runs.head, t, a, Taken(View(mid, None), t), false);
    AddedPassesIff(runs.base, runs.headFromBase, t, a, Taken(View(base, None), t), true);
  }
}
