/** What a passing comparison means for the callers of inline parameter literals. */
module Arguments {
  import opened Syntax
  import opened MemberMaps
  import opened MemberResolution
  import opened ValueSemantics
  import opened AlwaysPresent
  import opened Exactness
  import opened OldValues
  import opened Occurrences
  import opened Inventory
  import opened InlineAgreement
  import opened Comparison
  import opened CompatRun

  function LiteralsOf(view: View, callable: CallableKey, k: string): set<Param> {
    LiteralParams(SignaturesOf(view.surface, callable), k)
  }

  /** Two reports compared without a failing finding, and callers have to pass the literal. */
  ghost predicate PassesFor(baseView: View, headView: View, base: SurfaceInventory, head: SurfaceInventory,
                            callable: CallableKey, k: string) {
    IsInventoryOf(base, baseView) && IsInventoryOf(head, headView) && Passes(base, head) &&
      Hard(head, OfParameter(callable, k))
  }

  /** Some overload takes the path as optional. */
  predicate Relaxed(literals: set<Param>, p: Path) {
    exists q | q in literals :: p in LiteralMembersOf(q) && LiteralMembersOf(q)[p]
  }

  /** What no overload of the head relaxes, no overload of the base did. */
  lemma DemandWasThere(baseView: View, headView: View, base: SurfaceInventory, head: SurfaceInventory,
                       callable: CallableKey, k: string, h: Param, p: Path)
    requires PassesFor(baseView, headView, base, head, callable, k)
    requires h in LiteralsOf(headView, callable, k) && p in Required(LiteralMembersOf(h)) &&
      !Relaxed(LiteralsOf(headView, callable, k), p)
    ensures forall o :: o in LiteralsOf(baseView, callable, k) && p in LiteralMembersOf(o) ==>
      p in Required(LiteralMembersOf(o))
    ensures exists o :: o in LiteralsOf(baseView, callable, k) && p in LiteralMembersOf(o)
  {
    var key := OfParameter(callable, k);
    assert Lookup(head, key) == RecordAt(headView, key) && Lookup(base, key) == RecordAt(baseView, key);
    InlineEntryRequiredIff(headView, callable, k, p);
    PassesIff(base, head);
    assert CompatibleAt(base, head, key);
    assert p in Required(MembersAt(base, key));
    InlineEntryRequiredIff(baseView, callable, k, p);
  }

  /** Every value of the type has every path that the literal is marked to require. */
  ghost predicate ArgumentsFit(leaf: LeafSemantics, t: TypeNode, h: Param) {
    forall p :: p in Required(LiteralMembersOf(h)) ==> EveryValueHas(leaf, t, p)
  }

  /** The comparison does not answer for the path: some head overload relaxes it, or the base
      literal does not declare it. */
  predicate Unanswered(headView: View, callable: CallableKey, k: string, oldType: TypeNode, p: Path) {
    Relaxed(LiteralsOf(headView, callable, k), p) || p !in Resolve(oldType)
  }

  /** All arguments that were written for one base literal have what one head literal requires
      exactly if the base literal holds the paths for which the comparison does not answer. */
  lemma OverloadFitsIff(baseView: View, headView: View, base: SurfaceInventory, head: SurfaceInventory,
                        callable: CallableKey, k: string, o: Param, h: Param, oldType: TypeNode, leaf: LeafSemantics)
    requires PassesFor(baseView, headView, base, head, callable, k)
    requires o in LiteralsOf(baseView, callable, k) && o.annotation == Some(oldType)
    requires h in LiteralsOf(headView, callable, k)
    requires SoundlyMarked(oldType) && Inhabitable(oldType) && Unhindered(leaf, oldType)
    ensures ArgumentsFit(leaf, oldType, h) <==>
      forall p :: p in Required(LiteralMembersOf(h)) && Unanswered(headView, callable, k, oldType, p) ==>
        HoldsAllAlong(oldType, AsWritten, p)
  {
    forall p | p in Required(LiteralMembersOf(h))
      ensures EveryValueHas(leaf, oldType, p) <==> HoldsAllAlong(oldType, AsWritten, p)
      ensures !Unanswered(headView, callable, k, oldType, p) ==> HoldsAllAlong(oldType, AsWritten, p)
    {
      HasIffHeld(leaf, oldType, p);
      if !Unanswered(headView, callable, k, oldType, p) {
        DemandWasThere(baseView, headView, base, head, callable, k, h, p);
        assert LiteralMembersOf(o) == Resolve(oldType) && MarkedRequired(oldType, p);
      }
    }
  }

  /** All literals of the set are the same type. */
  predicate AllOf(literals: set<Param>, t: TypeNode) {
    forall q | q in literals :: q.annotation == Some(t)
  }

  lemma NotRelaxed(literals: set<Param>, t: TypeNode, p: Path)
    requires AllOf(literals, t) && p in Required(Resolve(t))
    ensures !Relaxed(literals, p)
  {
    forall q | q in literals ensures LiteralMembersOf(q) == Resolve(t) {}
  }

  lemma OldTypeRequires(baseView: View, headView: View, base: SurfaceInventory, head: SurfaceInventory,
                        callable: CallableKey, k: string,
                        oldType: TypeNode, newType: TypeNode, h: Param, p: Path)
    requires PassesFor(baseView, headView, base, head, callable, k)
    requires AllOf(LiteralsOf(baseView, callable, k), oldType) && AllOf(LiteralsOf(headView, callable, k), newType)
    requires h in LiteralsOf(headView, callable, k) && p in Required(Resolve(newType))
    ensures p in Required(Resolve(oldType))
  {
    NotRelaxed(LiteralsOf(headView, callable, k), newType, p);
    assert LiteralMembersOf(h) == Resolve(newType);
    DemandWasThere(baseView, headView, base, head, callable, k, h, p);
    var o :| o in LiteralsOf(baseView, callable, k) && p in LiteralMembersOf(o);
    assert LiteralMembersOf(o) == Resolve(oldType);
  }

  lemma EntryRecorded(view: View, inventory: SurfaceInventory, callable: CallableKey, k: string)
    requires IsInventoryOf(inventory, view)
    ensures Lookup(inventory, OfParameter(callable, k)) == EntryAt(view, OfParameter(callable, k))
  {
    assert Lookup(inventory, OfParameter(callable, k)) == RecordAt(view, OfParameter(callable, k));
  }

  lemma SomeLiteral(view: View, callable: CallableKey, k: string, inventory: SurfaceInventory)
    requires IsInventoryOf(inventory, view) && Hard(inventory, OfParameter(callable, k))
    ensures LiteralsOf(view, callable, k) != {}
  {
    EntryRecorded(view, inventory, callable, k);
    InlineEntryIff(view, callable, k);
  }

  /** With one literal type on either side every old argument stays usable. */
  lemma OldArgumentsStillFit(baseView: View, headView: View, base: SurfaceInventory, head: SurfaceInventory,
                             callable: CallableKey, k: string,
                             oldType: TypeNode, newType: TypeNode, leaf: LeafSemantics, v: Value, p: Path)
    requires PassesFor(baseView, headView, base, head, callable, k)
    requires AllOf(LiteralsOf(baseView, callable, k), oldType) && AllOf(LiteralsOf(headView, callable, k), newType)
    requires SoundlyMarked(oldType) && Inhabits(leaf, v, oldType, AsWritten) && MarkedRequired(newType, p)
    ensures Present(v, p)
  {
    SomeLiteral(headView, callable, k, head);
    var literals := LiteralsOf(headView, callable, k);
    var h :| h in literals;
    OldTypeRequires(baseView, headView, base, head, callable, k, oldType, newType, h, p);
    assert MarkedRequired(oldType, p);
    AlwaysIffHeldAllAlong(oldType, AsWritten, p);
    AlwaysIsPresent(leaf, v, oldType, AsWritten, p);
  }

  // ---------- several overloads ----------

  /** `{a}`, `{b}` and `{a, b}`, of no declared types. */
  function Only(a: string): TypeNode {
    Literal([Property(Plain(a), false, None)])
  }

  function Both(a: string, b: string): TypeNode {
    Literal([Property(Plain(a), false, None), Property(Plain(b), false, None)])
  }

  /** `function f(x: T): void` */
  function TakesLiteral(f: string, t: TypeNode): FunctionDeclaration {
    FunctionDeclaration(f, [Param(Some("x"), false, Some(t))], None)
  }

  function TwoOverloads(f: string, s: TypeNode, t: TypeNode): Surface {
    Surface(map[], [TakesLiteral(f, s), TakesLiteral(f, t)])
  }

  lemma OnlyMembers(a: string)
    ensures Resolve(Only(a)) == map[[a] := false] && Resolve(Only(a)) != map[]
  {
    var e := Property(Plain(a), false, None);
    OneElementMap(e, AsWritten);
    assert [a] in Resolve(Only(a));
  }

  lemma BothMembers(a: string, b: string)
    ensures Resolve(Both(a, b)) == map[[a] := false, [b] := false] && Resolve(Both(a, b)) != map[]
  {
    var first, second := Property(Plain(a), false, None), Property(Plain(b), false, None);
    var elements := [first, second];
    assert elements[..1] == [first];
    OneElementMap(first, AsWritten);
    assert LiteralMembers(elements, AsWritten) ==
      LiteralMembers(elements[..1], AsWritten) + ElementMembers(second, AsWritten);
    assert [a] in Resolve(Both(a, b));
  }

  /** The parameter `x` of that function. */
  function Taking(t: TypeNode): Param {
    Param(Some("x"), false, Some(t))
  }

  lemma SignatureOfTwo(f: string, s: TypeNode, t: TypeNode, callable: CallableKey, x: Signature)
    ensures x in SignaturesOf(TwoOverloads(f, s, t), callable) <==>
      callable == TopLevel(f) && (x == Signature([Taking(s)], None) || x == Signature([Taking(t)], None))
  {
    var functions := TwoOverloads(f, s, t).functions;
    assert functions[0] in functions && functions[1] in functions;
    if callable.TopLevel? {
      FunctionSignature(functions, callable.name, x);
    }
  }

  lemma NoResultOfTwo(view: View, f: string, s: TypeNode, t: TypeNode, callable: CallableKey)
    requires view.surface == TwoOverloads(f, s, t)
    ensures EntryAt(view, OfResult(callable)) == None
  {
    forall x { SignatureOfTwo(f, s, t, callable, x); }
    assert ReturnedLiterals(SignaturesOf(view.surface, callable)) == {};
    ResultEntryIff(view, callable);
  }

  lemma LiteralOfTwo(view: View, f: string, s: TypeNode, t: TypeNode, callable: CallableKey, k: string, p: Param)
    requires view.surface == TwoOverloads(f, s, t) && Resolve(s) != map[] && Resolve(t) != map[]
    ensures p in LiteralsOf(view, callable, k) <==>
      callable == TopLevel(f) && k == "x" && (p == Taking(s) || p == Taking(t))
  {
    var overloads := SignaturesOf(view.surface, callable);
    if p in LiteralsOf(view, callable, k) {
      var x, j :| x in overloads && 0 <= j < |x.params| && LiteralAt(x.params, j, k) && p == x.params[j];
      SignatureOfTwo(f, s, t, callable, x);
    }
    if callable == TopLevel(f) && k == "x" && (p == Taking(s) || p == Taking(t)) {
      var x := Signature([p], None);
      SignatureOfTwo(f, s, t, callable, x);
      assert HasLiteral(p) && LiteralAt(x.params, 0, k);
      assert x in overloads && x.params[0] in LiteralsOf(view, callable, k);
    }
  }

  lemma HardEntryOfTwo(view: View, f: string, s: TypeNode, t: TypeNode)
    requires view.surface == TwoOverloads(f, s, t) && Resolve(s) != map[] && Resolve(t) != map[]
    requires KeyExisted(view.existing, TopLevel(f))
    ensures var entry := EntryAt(view, OfParameter(TopLevel(f), "x")); entry.Some? && entry.value.contravariant
  {
    LiteralOfTwo(view, f, s, t, TopLevel(f), "x", Taking(s));
    InlineEntryIff(view, TopLevel(f), "x");
  }

  /** The entry of two literals: the paths of either, required unless one relaxes it. */
  lemma EntryOfPair(view: View, callable: CallableKey, k: string, x: Param, y: Param, path: Path)
    requires LiteralsOf(view, callable, k) == {x, y}
    ensures EntryAt(view, OfParameter(callable, k)).Some?
    ensures var members := EntryAt(view, OfParameter(callable, k)).value.members;
            (path in members <==> path in LiteralMembersOf(x) || path in LiteralMembersOf(y)) &&
            (path in Required(members) <==>
              (path in LiteralMembersOf(x) || path in LiteralMembersOf(y)) &&
              (path in LiteralMembersOf(x) ==> path in Required(LiteralMembersOf(x))) &&
              (path in LiteralMembersOf(y) ==> path in Required(LiteralMembersOf(y))))
  {
    assert x in LiteralsOf(view, callable, k) && y in LiteralsOf(view, callable, k);
    InlineEntryIff(view, callable, k);
    InlineEntryRequiredIff(view, callable, k, path);
  }

  lemma LiteralsOfTwo(view: View, f: string, s: TypeNode, t: TypeNode, callable: CallableKey, k: string)
    requires view.surface == TwoOverloads(f, s, t) && Resolve(s) != map[] && Resolve(t) != map[]
    ensures LiteralsOf(view, callable, k) == if callable == TopLevel(f) && k == "x" then {Taking(s), Taking(t)} else {}
  {
    forall p ensures p in LiteralsOf(view, callable, k) <==>
      p in if callable == TopLevel(f) && k == "x" then {Taking(s), Taking(t)} else {}
    {
      LiteralOfTwo(view, f, s, t, callable, k, p);
    }
  }

  lemma EntryOfTwo(view: View, f: string, s: TypeNode, t: TypeNode, path: Path)
    requires view.surface == TwoOverloads(f, s, t) && Resolve(s) != map[] && Resolve(t) != map[]
    ensures EntryAt(view, OfParameter(TopLevel(f), "x")).Some?
    ensures var members := EntryAt(view, OfParameter(TopLevel(f), "x")).value.members;
            (path in members <==> path in Resolve(s) || path in Resolve(t)) &&
            (path in Required(members) <==>
              (path in Resolve(s) || path in Resolve(t)) &&
              (path in Resolve(s) ==> path in Required(Resolve(s))) &&
                (path in Resolve(t) ==> path in Required(Resolve(t))))
  {
    LiteralsOfTwo(view, f, s, t, TopLevel(f), "x");
    EntryOfPair(view, TopLevel(f), "x", Taking(s), Taking(t), path);
    assert LiteralMembersOf(Taking(s)) == Resolve(s) && LiteralMembersOf(Taking(t)) == Resolve(t);
  }

  lemma NoLiteralNoEntry(view: View, callable: CallableKey, k: string)
    requires LiteralsOf(view, callable, k) == {}
    ensures EntryAt(view, OfParameter(callable, k)) == None
  {
    InlineEntryIff(view, callable, k);
  }

  lemma NoOtherEntry(view: View, f: string, s: TypeNode, t: TypeNode, key: DeclarationKey)
    requires view.surface == TwoOverloads(f, s, t) && Resolve(s) != map[] && Resolve(t) != map[]
    requires key != OfParameter(TopLevel(f), "x")
    ensures RecordAt(view, key) == None
  {
    match key
    case OfDeclaration(_) =>
    case OfParameter(callable, k) =>
      LiteralsOfTwo(view, f, s, t, callable, k);
      NoLiteralNoEntry(view, callable, k);
    case OfResult(callable) => NoResultOfTwo(view, f, s, t, callable);
  }

  lemma SameMergedPaths(a: string, b: string, p: Path)
    requires a != b
    ensures p in Resolve(Only(a)) || p in Resolve(Only(b)) <==> p in Resolve(Both(a, b)) || p in Resolve(Only(b))
    ensures p in Resolve(Only(a)) ==> p in Required(Resolve(Only(a)))
    ensures p in Resolve(Only(b)) ==> p in Required(Resolve(Only(b)))
    ensures p in Resolve(Both(a, b)) ==> p in Required(Resolve(Both(a, b)))
  {
    OnlyMembers(a);
    OnlyMembers(b);
    BothMembers(a, b);
  }

  lemma RecordedAlike(base: SurfaceInventory, head: SurfaceInventory, f: string, a: string, b: string,
                      d: DeclarationKey)
    requires a != b
    requires IsInventoryOf(base, View(TwoOverloads(f, Only(a), Only(b)), None))
    requires IsInventoryOf(head, View(TwoOverloads(f, Both(a, b), Only(b)), Some({TopLevel(f)})))
    ensures MembersAt(base, d) == MembersAt(head, d)
  {
    var baseView := View(TwoOverloads(f, Only(a), Only(b)), None);
    var headView := View(TwoOverloads(f, Both(a, b), Only(b)), Some({TopLevel(f)}));
    OnlyMembers(a);
    OnlyMembers(b);
    BothMembers(a, b);
    assert Lookup(base, d) == RecordAt(baseView, d) && Lookup(head, d) == RecordAt(headView, d);
    if d == OfParameter(TopLevel(f), "x") {
      HardEntryOfTwo(baseView, f, Only(a), Only(b));
      HardEntryOfTwo(headView, f, Both(a, b), Only(b));
      forall p ensures p in MembersAt(base, d) <==> p in MembersAt(head, d)
               ensures p in Required(MembersAt(base, d)) <==> p in Required(MembersAt(head, d))
      {
        SameMergedPaths(a, b, p);
        EntryOfTwo(baseView, f, Only(a), Only(b), p);
        EntryOfTwo(headView, f, Both(a, b), Only(b), p);
      }
      SameByRequired(MembersAt(base, d), MembersAt(head, d));
    } else {
      NoOtherEntry(baseView, f, Only(a), Only(b), d);
      NoOtherEntry(headView, f, Both(a, b), Only(b), d);
    }
  }

  lemma HardHead(view: View, head: SurfaceInventory, f: string, s: TypeNode, t: TypeNode)
    requires view.surface == TwoOverloads(f, s, t) && Resolve(s) != map[] && Resolve(t) != map[]
    requires IsInventoryOf(head, view) && KeyExisted(view.existing, TopLevel(f))
    ensures Hard(head, OfParameter(TopLevel(f), "x"))
  {
    HardEntryOfTwo(view, f, s, t);
    EntryRecorded(view, head, TopLevel(f), "x");
  }

  lemma AlikePasses(base: SurfaceInventory, head: SurfaceInventory)
    requires forall d :: MembersAt(base, d) == MembersAt(head, d)
    ensures Silent(base, head) && Passes(base, head)
  {
    PassesIff(base, head);
  }

  lemma OnlyAHas(leaf: LeafSemantics, a: string)
    ensures Inhabits(leaf, Object(map[a := Atom]), Only(a), AsWritten)
  {
    var e := Property(Plain(a), false, None);
    assert Satisfies(leaf, map[a := Atom], e, [e], AsWritten);
  }

  /** `f(x: {a})`, `f(x: {b})` against `f(x: {a, b})`, `f(x: {b})`: the reports are recorded alike,
      so the comparison passes, but the argument that has only `a` lacks what each overload of the
      head requires. */
  lemma OverloadsHideDemand(base: SurfaceInventory, head: SurfaceInventory, f: string, a: string, b: string,
                            leaf: LeafSemantics)
    requires a != b
    requires IsInventoryOf(base, View(TwoOverloads(f, Only(a), Only(b)), None))
    requires IsInventoryOf(head, View(TwoOverloads(f, Both(a, b), Only(b)), Some({TopLevel(f)})))
    ensures Silent(base, head) && Passes(base, head) && Hard(head, OfParameter(TopLevel(f), "x"))
    ensures Inhabits(leaf, Object(map[a := Atom]), Only(a), AsWritten) && !Present(Object(map[a := Atom]), [b])
    ensures MarkedRequired(Both(a, b), [b]) && MarkedRequired(Only(b), [b])
  {
    forall d ensures MembersAt(base, d) == MembersAt(head, d) {
      RecordedAlike(base, head, f, a, b, d);
    }
    AlikePasses(base, head);
    OnlyMembers(b);
    BothMembers(a, b);
    HardHead(View(TwoOverloads(f, Both(a, b), Only(b)), Some({TopLevel(f)})), head, f, Both(a, b), Only(b));
    OnlyAHas(leaf, a);
  }
}
