/** Reports that are small enough to be read off: functions of one named parameter, and
    declarations without callable members. */
module SmallReports {
  import opened Syntax
  import opened MemberResolution
  import opened Occurrences
  import opened VarianceLaws
  import opened Inventory
  import opened InlineAgreement
  import opened Comparison
  import opened CompatRun

  /** `function f(x: N): void` */
  function Takes(f: string, n: string): FunctionDeclaration {
    FunctionDeclaration(f, [Param(Some("x"), false, Some(Ref(n, [])))], None)
  }

  predicate WithoutCallables(d: Declaration) {
    d.Alias? || (d.Interface? && forall e | e in d.elements :: e.Property?)
  }

  ghost predicate Small(surface: Surface) {
    (forall n | n in surface.declarations :: WithoutCallables(surface.declarations[n])) &&
    forall f | f in surface.functions :: exists n :: f == Takes(f.name, n)
  }

  // ---------- records ----------

  lemma SmallSignature(surface: Surface, callable: CallableKey, s: Signature)
    requires Small(surface) && s in SignaturesOf(surface, callable)
    ensures callable.TopLevel? && exists f :: f in surface.functions && f.name == callable.name
    ensures s.result.None? && forall p :: p in s.params ==> !HasLiteral(p)
  {
    match callable
    case TopLevel(name) =>
      FunctionSignature(surface.functions, name, s);
      var f :| f in surface.functions && f.name == name && s == Signature(f.params, f.result);
      var n :| f == Takes(f.name, n);
      assert Resolve(Ref(n, [])) == map[];
    case Member(owner, member) =>
      var d := surface.declarations[owner];
      assert WithoutCallables(d);
      InterfaceSignature(d.elements, member, s);
      assert false;
  }

  lemma NoEntry(view: View, key: DeclarationKey)
    requires Small(view.surface)
    ensures EntryAt(view, key) == None
  {
    match key
    case OfDeclaration(_) =>
    case OfParameter(callable, k) =>
      forall p | p in LiteralParams(SignaturesOf(view.surface, callable), k) ensures false {
        var s, j :| s in SignaturesOf(view.surface, callable) && 0 <= j < |s.params| &&
                    LiteralAt(s.params, j, k) && p == s.params[j];
        SmallSignature(view.surface, callable, s);
      }
      InlineEntryIff(view, callable, k);
    case OfResult(callable) =>
      forall m | m in ReturnedLiterals(SignaturesOf(view.surface, callable)) ensures false {
        var s :| s in SignaturesOf(view.surface, callable) && s.result.Some? && m == Resolve(s.result.value);
        SmallSignature(view.surface, callable, s);
      }
      ResultEntryIff(view, callable);
  }

  /** The inventory of a small report has the declarations and nothing else. */
  lemma SmallRecord(inventory: SurfaceInventory, view: View, d: DeclarationKey)
    requires Small(view.surface) && IsInventoryOf(inventory, view)
    ensures d in inventory <==> d.OfDeclaration? && d.name in view.surface.declarations
    ensures d in inventory ==> MembersAt(inventory, d) == DeclarationMembers(view.surface.declarations[d.name])
    ensures Hard(inventory, d) <==> d in inventory && HardContravariant(view, d.name)
  {
    assert Lookup(inventory, d) == RecordAt(view, d);
    NoEntry(view, d);
  }

  /** The callables of a small report are its functions. */
  lemma SmallCallables(surface: Surface, keys: set<CallableKey>, key: CallableKey)
    requires Small(surface) && AreCallablesOf(keys, surface)
    ensures key in keys <==> key.TopLevel? && exists f :: f in surface.functions && f.name == key.name
  {
    assert key in keys <==> SignaturesOf(surface, key) != [];
    if key in keys {
      SmallSignature(surface, key, SignaturesOf(surface, key)[0]);
    }
    if key.TopLevel? {
      if f :| f in surface.functions && f.name == key.name {
        FunctionSignature(surface.functions, key.name, Signature(f.params, f.result));
      }
    }
  }

  // ---------- hardness ----------

  lemma TakenOccurrence(view: View, f: FunctionDeclaration, n: string)
    requires f == Takes(f.name, n)
    ensures InKids(FunctionKids(f, view.existing)) == {Occurrence(n, true, KeyExisted(view.existing, TopLevel(f.name)))}
  {
    var p := Param(Some("x"), false, Some(Ref(n, [])));
    var kid := Kid(true, KeyExisted(view.existing, TopLevel(f.name)), Ref(n, []));
    assert p in f.params;
    assert FunctionKids(f, view.existing) == {kid};
    BareReference(n);
    assert Through(kid, Occurrence(n, false, true)) == Occurrence(n, true, kid.strict);
  }

  lemma TakenIsHard(view: View, f: FunctionDeclaration, n: string)
    requires f in view.surface.functions && f == Takes(f.name, n) && KeyExisted(view.existing, TopLevel(f.name))
    ensures HardContravariant(view, n)
  {
    TakenOccurrence(view, f, n);
    assert Occurrence(n, true, true) in FunctionOccurrences(view);
    FunctionReached(view, Occurrence(n, true, true));
    HardIffOddChain(view, n);
  }

  /** Interfaces whose members mention no type. */
  predicate MentionNothing(surface: Surface) {
    forall n | n in surface.declarations ::
      surface.declarations[n].Interface? &&
        forall e | e in surface.declarations[n].elements :: e.Property? && e.annotation.None?
  }

  /** Some function of the surface that the gate lets through takes the name. */
  predicate Taken(view: View, n: string) {
    exists f | f in view.surface.functions :: f == Takes(f.name, n) && KeyExisted(view.existing, TopLevel(f.name))
  }

  lemma OnlyTakenOccurs(view: View, n: string)
    requires Small(view.surface) && Occurrence(n, true, true) in FunctionOccurrences(view)
    ensures Taken(view, n)
  {
    var f :| f in view.surface.functions && Occurrence(n, true, true) in InKids(FunctionKids(f, view.existing));
    var m :| f == Takes(f.name, m);
    TakenOccurrence(view, f, m);
  }

  lemma NothingMentioned(view: View, n: string)
    requires MentionNothing(view.surface)
    ensures DeclarationOccurrences(view, n) == {}
  {}

  lemma OnlyTakenIsReached(view: View, n: string, start: Option<string>, links: seq<Occurrence>)
    requires Small(view.surface) && MentionNothing(view.surface)
    requires Chain(view, start, links) && Strict(links) && End(start, links) == n && Odd(links)
    ensures Taken(view, n)
  {
    var last := links[|links| - 1];
    assert last in LinksFrom(view, start, links, |links| - 1);
    forall m { NothingMentioned(view, m); }
    assert |links| == 1 && start == None;
    assert links == [last] && last in links && links[..0] == [];
    assert last == Occurrence(n, true, true);
    OnlyTakenOccurs(view, n);
  }

  /** Hard is what an existing function takes. */
  lemma HardIffTaken(view: View, n: string)
    requires Small(view.surface) && MentionNothing(view.surface)
    ensures HardContravariant(view, n) <==> Taken(view, n)
  {
    HardIffOddChain(view, n);
    if StrictlyReaches(view, n, true) {
      var start, links :| Chain(view, start, links) && Strict(links) && End(start, links) == n && Odd(links);
      OnlyTakenIsReached(view, n, start, links);
    }
    if Taken(view, n) {
      var f :| f in view.surface.functions && f == Takes(f.name, n) && KeyExisted(view.existing, TopLevel(f.name));
      TakenIsHard(view, f, n);
    }
  }
}
