/** Laws of the variance analysis. They are proved on chains of occurrences, an equivalent of
    the derivations that the walk searches. */
module VarianceLaws {
  import opened Syntax
  import opened Occurrences

  /** The occurrences that may stand at position `i`. */
  ghost function LinksFrom(view: View, start: Option<string>, links: seq<Occurrence>, i: nat): set<Occurrence>
    requires i <= |links|
  {
    if i > 0 then DeclarationOccurrences(view, links[i - 1].name)
    else if start.Some? then DeclarationOccurrences(view, start.value)
    else FunctionOccurrences(view)
  }

  /** Links that lead from a declaration (or, for `None`, from some function) to a name. */
  ghost predicate Chain(view: View, start: Option<string>, links: seq<Occurrence>) {
    (start.Some? ==> start.value in view.surface.declarations) &&
    (start.None? ==> links != []) &&
    forall i :: 0 <= i < |links| ==> links[i] in LinksFrom(view, start, links, i)
  }

  function End(start: Option<string>, links: seq<Occurrence>): string {
    if links != [] then links[|links| - 1].name else if start.Some? then start.value else ""
  }

  /** Whether an odd number of links flips. */
  function Odd(links: seq<Occurrence>): bool {
    links != [] && Odd(links[..|links| - 1]) != links[|links| - 1].flips
  }

  predicate Strict(links: seq<Occurrence>) {
    forall o | o in links :: o.strict
  }

  /** A chain on which nothing may be left out, ending at `name` with the given parity. */
  ghost predicate StrictlyReaches(view: View, name: string, odd: bool) {
    exists start, links :: Chain(view, start, links) && Strict(links) && End(start, links) == name && Odd(links) == odd
  }

  lemma ChainExtends(view: View, start: Option<string>, links: seq<Occurrence>, o: Occurrence)
    requires Chain(view, start, links) && o in DeclarationOccurrences(view, End(start, links))
    ensures Chain(view, start, links + [o]) && End(start, links + [o]) == o.name
    ensures Odd(links + [o]) == (Odd(links) != o.flips)
    ensures Strict(links) && o.strict ==> Strict(links + [o])
  {
    var longer := links + [o];
    assert longer[..|links|] == links;
    forall i | 0 <= i < |longer| ensures longer[i] in LinksFrom(view, start, longer, i) {
      if i < |links| {
        assert LinksFrom(view, start, longer, i) == LinksFrom(view, start, links, i);
      }
    }
  }

  lemma ChainShortens(view: View, start: Option<string>, links: seq<Occurrence>)
    requires Chain(view, start, links) && links != [] && (start.Some? || |links| > 1)
    ensures var rest := links[..|links| - 1];
            Chain(view, start, rest) && links[|rest|] in DeclarationOccurrences(view, End(start, rest))
    ensures Strict(links) ==> Strict(links[..|links| - 1]) && links[|links| - 1].strict
  {
    var rest := links[..|links| - 1];
    forall i | 0 <= i < |rest| ensures rest[i] in LinksFrom(view, start, rest, i) {
      assert LinksFrom(view, start, links, i) == LinksFrom(view, start, rest, i);
    }
  }

  lemma FirstLink(view: View, o: Occurrence)
    requires o in FunctionOccurrences(view)
    ensures Chain(view, None, [o]) && End(None, [o]) == o.name && Odd([o]) == o.flips
  {
    assert [o][..0] == [];
  }

  // ---------- chains and derivations ----------

  lemma SeedReached(view: View, name: string)
    requires name in view.surface.declarations
    ensures StrictlyReaches(view, name, false)
  {
    assert Chain(view, Some(name), []) && End(Some(name), []) == name;
  }

  lemma ReachedThrough(view: View, name: string, odd: bool, o: Occurrence)
    requires StrictlyReaches(view, name, odd) && o in DeclarationOccurrences(view, name) && o.strict
    ensures StrictlyReaches(view, o.name, odd != o.flips)
  {
    var start, links :| Chain(view, start, links) && Strict(links) && End(start, links) == name && Odd(links) == odd;
    ChainExtends(view, start, links, o);
  }

  lemma FunctionReached(view: View, o: Occurrence)
    requires o in FunctionOccurrences(view) && o.strict
    ensures StrictlyReaches(view, o.name, o.flips)
  {
    FirstLink(view, o);
  }

  lemma StepOccurrence(view: View, s: State, t: State) returns (o: Occurrence)
    requires t in Next(view, s)
    ensures o in DeclarationOccurrences(view, s.name) && t == At(s.polarity, s.mandatory, o)
  {
    o :| o in DeclarationOccurrences(view, s.name) && t == At(s.polarity, s.mandatory, o);
  }

  lemma SeedStateReached(view: View, s: State)
    requires s in Seeds(view) && s.mandatory
    ensures StrictlyReaches(view, s.name, s.polarity == Minus)
  {
    if o :| o in FunctionOccurrences(view) && s == At(Plus, true, o) {
      FunctionReached(view, o);
    } else {
      SeedReached(view, s.name);
    }
  }

  lemma StepOfDerivation(view: View, d: seq<State>, i: nat)
    requires Derivation(view, d) && i + 1 < |d|
    ensures d[i + 1] in Next(view, d[i])
  {}

  lemma NeededBefore(view: View, s: State, t: State)
    requires t in Next(view, s) && t.mandatory
    ensures s.mandatory
  {
    var _ := StepOccurrence(view, s, t);
  }

  lemma StepKeepsReach(view: View, s: State, t: State)
    requires t in Next(view, s) && t.mandatory && StrictlyReaches(view, s.name, s.polarity == Minus)
    ensures StrictlyReaches(view, t.name, t.polarity == Minus)
  {
    var o := StepOccurrence(view, s, t);
    ReachedThrough(view, s.name, s.polarity == Minus, o);
  }

  lemma {:induction false} DerivationGivesChain(view: View, d: seq<State>, i: nat)
    requires Derivation(view, d) && i < |d| && d[i].mandatory
    ensures StrictlyReaches(view, d[i].name, d[i].polarity == Minus)
  {
    if i > 0 {
      StepOfDerivation(view, d, i - 1);
      NeededBefore(view, d[i - 1], d[i]);
      DerivationGivesChain(view, d, i - 1);
      StepKeepsReach(view, d[i - 1], d[i]);
    } else {
      SeedStateReached(view, d[0]);
    }
  }

  function EndState(start: Option<string>, links: seq<Occurrence>): State {
    State(End(start, links), if Odd(links) then Minus else Plus, true)
  }

  lemma {:induction false} ChainGivesDerivation(view: View, start: Option<string>, links: seq<Occurrence>)
    requires Chain(view, start, links) && Strict(links)
    ensures Derivable(view, EndState(start, links))
    decreases |links|
  {
    if links == [] {
      assert State(start.value, Plus, true) in Seeds(view);
      DerivableSeed(view, EndState(start, links));
    } else if start.None? && |links| == 1 {
      assert links == [links[0]];
      FirstLink(view, links[0]);
      assert At(Plus, true, links[0]) in Seeds(view);
      DerivableSeed(view, EndState(start, links));
    } else {
      ChainShortens(view, start, links);
      var rest, o := links[..|links| - 1], links[|links| - 1];
      ChainGivesDerivation(view, start, rest);
      assert At(EndState(start, rest).polarity, true, o) in Next(view, EndState(start, rest));
      DerivableNext(view, EndState(start, rest), EndState(start, links));
    }
  }

  /** A name is hard contravariant exactly when some chain of mandatory occurrences passes an
      odd number of parameter positions on its way to it. */
  lemma HardIffOddChain(view: View, name: string)
    ensures HardContravariant(view, name) <==> StrictlyReaches(view, name, true)
  {
    if HardContravariant(view, name) {
      var d: seq<State> :| Derivation(view, d) && d[|d| - 1] == State(name, Minus, true);
      DerivationGivesChain(view, d, |d| - 1);
    }
    if StrictlyReaches(view, name, true) {
      var start, links :| Chain(view, start, links) && Strict(links) && End(start, links) == name && Odd(links);
      ChainGivesDerivation(view, start, links);
    }
  }

  // ---------- pruning ----------

  /** A flag that is lost stays lost. */
  lemma {:induction false} MandatoryNeverRegained(view: View, d: seq<State>, i: nat, j: nat)
    requires Derivation(view, d) && i <= j < |d| && d[j].mandatory
    ensures d[i].mandatory
    decreases j
  {
    if i < j {
      StepOfDerivation(view, d, j - 1);
      NeededBefore(view, d[j - 1], d[j]);
      MandatoryNeverRegained(view, d, i, j - 1);
    }
  }

  lemma MandatoryThroughout(view: View, d: seq<State>)
    requires Derivation(view, d) && d[|d| - 1].mandatory
    ensures forall i :: 0 <= i < |d| ==> d[i].mandatory
  {
    forall i | 0 <= i < |d| ensures d[i].mandatory {
      MandatoryNeverRegained(view, d, i, |d| - 1);
    }
  }

  /** So a walk that never enters a non-mandatory state finds the same names. */
  lemma PrunedWalkSuffices(view: View, name: string)
    ensures HardContravariant(view, name) <==>
      exists d: seq<State> :: Derivation(view, d) && d[|d| - 1] == State(name, Minus, true) &&
        forall i :: 0 <= i < |d| ==> d[i].mandatory
  {
    if HardContravariant(view, name) {
      var d: seq<State> :| Derivation(view, d) && d[|d| - 1] == State(name, Minus, true);
      MandatoryThroughout(view, d);
    }
  }

  // ---------- the gate on existing callables ----------

  /** `more` lets at least the callables of `fewer` through. */
  predicate GateOpens(fewer: Option<set<CallableKey>>, more: Option<set<CallableKey>>) {
    more.None? || (fewer.Some? && fewer.value <= more.value)
  }

  lemma StrictKidsKept(name: string, d: Declaration, fewer: Option<set<CallableKey>>, more: Option<set<CallableKey>>,
                       k: Kid)
    requires GateOpens(fewer, more) && k.strict && k in DeclarationKids(name, d, fewer)
    ensures k in DeclarationKids(name, d, more)
  {
    match d
    case Alias(_) =>
    case Interface(elements) =>
      var e :| e in elements && k in ElementKids(e, AsWritten, Some(name), fewer);
      assert k in ElementKids(e, AsWritten, Some(name), more);
    case Class(members) =>
      var m :| m in members && k in ClassElementKids(m, name, fewer);
      assert k in ClassElementKids(m, name, more);
  }

  lemma StrictOccurrencesKept(surface: Surface, fewer: Option<set<CallableKey>>, more: Option<set<CallableKey>>,
                              o: Occurrence)
    requires GateOpens(fewer, more) && o.strict
    ensures forall n :: o in DeclarationOccurrences(View(surface, fewer), n) ==>
      o in DeclarationOccurrences(View(surface, more), n)
    ensures o in FunctionOccurrences(View(surface, fewer)) ==> o in FunctionOccurrences(View(surface, more))
  {
    forall n | o in DeclarationOccurrences(View(surface, fewer), n)
      ensures o in DeclarationOccurrences(View(surface, more), n)
    {
      var d := surface.declarations[n];
      var k, i :| k in DeclarationKids(n, d, fewer) && i in In(k.node) && o == Through(k, i);
      StrictKidsKept(n, d, fewer, more, k);
    }
    if o in FunctionOccurrences(View(surface, fewer)) {
      var f :| f in surface.functions && o in InKids(FunctionKids(f, fewer));
      var k, i :| k in FunctionKids(f, fewer) && i in In(k.node) && o == Through(k, i);
      assert k in FunctionKids(f, more);
      assert o in InKids(FunctionKids(f, more));
    }
  }

  /** The hard set grows with the set of existing callables and is largest without the gate. */
  lemma HardMonotoneInGate(surface: Surface, fewer: Option<set<CallableKey>>, more: Option<set<CallableKey>>,
                           name: string)
    requires GateOpens(fewer, more)
    requires HardContravariant(View(surface, fewer), name)
    ensures HardContravariant(View(surface, more), name)
  {
    HardIffOddChain(View(surface, fewer), name);
    HardIffOddChain(View(surface, more), name);
    var start, links :| Chain(View(surface, fewer), start, links) && Strict(links) && End(start, links) == name &&
      Odd(links);
    forall i | 0 <= i < |links|
      ensures links[i] in LinksFrom(View(surface, more), start, links, i)
    {
      assert links[i] in LinksFrom(View(surface, fewer), start, links, i);
      StrictOccurrencesKept(surface, fewer, more, links[i]);
    }
    assert Chain(View(surface, more), start, links);
  }

  // ---------- order ----------

  predicate SameMembers(a: Declaration, b: Declaration) {
    match a
    case Alias(_) => a == b
    case Interface(elements) => b.Interface? && multiset(elements) == multiset(b.elements)
    case Class(members) => b.Class? && multiset(members) == multiset(b.members)
  }

  predicate SameUpToOrder(a: Surface, b: Surface) {
    a.declarations.Keys == b.declarations.Keys &&
    (forall n | n in a.declarations :: SameMembers(a.declarations[n], b.declarations[n])) &&
    multiset(a.functions) == multiset(b.functions)
  }

  lemma SameElements<T>(a: seq<T>, b: seq<T>, x: T)
    requires multiset(a) == multiset(b)
    ensures x in a <==> x in b
  {
    assert x in a <==> x in multiset(a);
    assert x in b <==> x in multiset(b);
  }

  lemma SameKids(name: string, a: Declaration, b: Declaration, existing: Option<set<CallableKey>>)
    requires SameMembers(a, b)
    ensures DeclarationKids(name, a, existing) == DeclarationKids(name, b, existing)
  {
    match a
    case Alias(_) =>
    case Interface(elements) =>
      forall e ensures e in elements <==> e in b.elements { SameElements(elements, b.elements, e); }
    case Class(members) =>
      forall m ensures m in members <==> m in b.members { SameElements(members, b.members, m); }
  }

  /** The result does not depend on the order of declarations, members or functions. */
  lemma OrderIrrelevant(a: Surface, b: Surface, existing: Option<set<CallableKey>>, name: string)
    requires SameUpToOrder(a, b)
    ensures HardContravariant(View(a, existing), name) <==> HardContravariant(View(b, existing), name)
  {
    var va, vb := View(a, existing), View(b, existing);
    forall n ensures DeclarationOccurrences(va, n) == DeclarationOccurrences(vb, n) {
      if n in a.declarations {
        SameKids(n, a.declarations[n], b.declarations[n], existing);
      }
    }
    forall f ensures f in a.functions <==> f in b.functions { SameElements(a.functions, b.functions, f); }
    assert FunctionOccurrences(va) == FunctionOccurrences(vb);
    HardIffOddChain(va, name);
    HardIffOddChain(vb, name);
    forall start, links ensures Chain(va, start, links) <==> Chain(vb, start, links) {
      forall i | 0 <= i <= |links| ensures LinksFrom(va, start, links, i) == LinksFrom(vb, start, links, i) {}
    }
  }

  // ---------- conservative extension ----------

  /** An interface or class may gain members; an alias stays as it is. */
  predicate Gains(before: Declaration, after: Declaration) {
    match before
    case Alias(_) => after == before
    case Interface(elements) => after.Interface? && forall e | e in elements :: e in after.elements
    case Class(members) => after.Class? && forall m | m in members :: m in after.members
  }

  /** `after` has everything that `before` has; declarations may be new or have gained members. */
  predicate Extends(before: Surface, after: Surface) {
    (forall n | n in before.declarations ::
      n in after.declarations && Gains(before.declarations[n], after.declarations[n])) &&
    forall f | f in before.functions :: f in after.functions
  }

  lemma GainsKids(name: string, before: Declaration, after: Declaration, existing: Option<set<CallableKey>>)
    requires Gains(before, after)
    ensures DeclarationKids(name, before, existing) <= DeclarationKids(name, after, existing)
  {
    match before
    case Alias(_) =>
    case Interface(elements) =>
      forall e, k | e in elements && k in ElementKids(e, AsWritten, Some(name), existing)
        ensures k in DeclarationKids(name, after, existing) {}
    case Class(members) =>
      forall m, k | m in members && k in ClassElementKids(m, name, existing)
        ensures k in DeclarationKids(name, after, existing) {}
  }

  lemma OldOccurrences(before: Surface, after: Surface, existing: Option<set<CallableKey>>)
    requires Extends(before, after)
    ensures forall n ::
      DeclarationOccurrences(View(before, existing), n) <= DeclarationOccurrences(View(after, existing), n)
    ensures FunctionOccurrences(View(before, existing)) <= FunctionOccurrences(View(after, existing))
  {
    forall n | n in before.declarations
      ensures DeclarationOccurrences(View(before, existing), n) <= DeclarationOccurrences(View(after, existing), n)
    {
      GainsKids(n, before.declarations[n], after.declarations[n], existing);
    }
  }

  /** An occurrence that a declaration has gained. */
  ghost predicate GainedAt(before: Surface, after: Surface, existing: Option<set<CallableKey>>, n: string,
                           o: Occurrence) {
    o in DeclarationOccurrences(View(after, existing), n) && o !in DeclarationOccurrences(View(before, existing), n)
  }

  ghost predicate GainedByFunctions(before: Surface, after: Surface, existing: Option<set<CallableKey>>,
                                    o: Occurrence) {
    o in FunctionOccurrences(View(after, existing)) && o !in FunctionOccurrences(View(before, existing))
  }

  /** Mandatory occurrences that were gained below a parameter position, or below anything in a
      declaration that was hard already, are of names that were hard already. */
  ghost predicate AddsNoDemand(before: Surface, after: Surface, existing: Option<set<CallableKey>>) {
    var view := View(before, existing);
    (forall n, o ::
      GainedAt(before, after, existing, n, o) && o.strict && (o.flips || HardContravariant(view, n)) ==>
        HardContravariant(view, o.name)) &&
    (forall o ::
      GainedByFunctions(before, after, existing, o) && o.strict && o.flips ==> HardContravariant(view, o.name))
  }

  lemma ChainKept(before: Surface, after: Surface, existing: Option<set<CallableKey>>, start: Option<string>,
                  links: seq<Occurrence>)
    requires Extends(before, after) && Chain(View(before, existing), start, links)
    ensures Chain(View(after, existing), start, links)
  {
    OldOccurrences(before, after, existing);
    forall i | 0 <= i < |links| ensures links[i] in LinksFrom(View(after, existing), start, links, i) {
      assert links[i] in LinksFrom(View(before, existing), start, links, i);
    }
  }

  lemma HardKept(before: Surface, after: Surface, existing: Option<set<CallableKey>>, name: string)
    requires Extends(before, after) && HardContravariant(View(before, existing), name)
    ensures HardContravariant(View(after, existing), name)
  {
    var vb, va := View(before, existing), View(after, existing);
    HardIffOddChain(vb, name);
    HardIffOddChain(va, name);
    var start, links :| Chain(vb, start, links) && Strict(links) && End(start, links) == name && Odd(links);
    ChainKept(before, after, existing, start, links);
  }

  lemma FunctionLinkStaysHard(before: Surface, after: Surface, existing: Option<set<CallableKey>>, o: Occurrence)
    requires AddsNoDemand(before, after, existing)
    requires o in FunctionOccurrences(View(after, existing)) && o.strict && o.flips
    ensures HardContravariant(View(before, existing), o.name)
  {
    if o in FunctionOccurrences(View(before, existing)) {
      FunctionReached(View(before, existing), o);
      HardIffOddChain(View(before, existing), o.name);
    } else {
      assert GainedByFunctions(before, after, existing, o);
    }
  }

  lemma LinkStaysHard(before: Surface, after: Surface, existing: Option<set<CallableKey>>, name: string, odd: bool,
                      o: Occurrence)
    requires AddsNoDemand(before, after, existing)
    requires o in DeclarationOccurrences(View(after, existing), name) && o.strict && odd != o.flips
    requires odd ==> HardContravariant(View(before, existing), name)
    ensures HardContravariant(View(before, existing), o.name)
  {
    var vb := View(before, existing);
    if o in DeclarationOccurrences(vb, name) {
      HardIffOddChain(vb, name);
      HardIffOddChain(vb, o.name);
      SeedReached(vb, name);
      ReachedThrough(vb, name, odd, o);
    } else {
      assert GainedAt(before, after, existing, name, o);
    }
  }

  lemma {:induction false} OddChainsStayHard(before: Surface, after: Surface, existing: Option<set<CallableKey>>,
                                             start: Option<string>, links: seq<Occurrence>)
    requires Extends(before, after) && AddsNoDemand(before, after, existing)
    requires Chain(View(after, existing), start, links) && Strict(links) && Odd(links)
    ensures HardContravariant(View(before, existing), End(start, links))
    decreases |links|
  {
    var va := View(after, existing);
    var rest, o := links[..|links| - 1], links[|links| - 1];
    if rest == [] && start.None? {
      FunctionLinkStaysHard(before, after, existing, o);
    } else {
      ChainShortens(va, start, links);
      if Odd(rest) {
        OddChainsStayHard(before, after, existing, start, rest);
      }
      LinkStaysHard(before, after, existing, End(start, rest), Odd(rest), o);
    }
  }

  lemma GainedDemandIsHard(before: Surface, after: Surface, existing: Option<set<CallableKey>>, n: string,
                           o: Occurrence)
    requires Extends(before, after) && GainedAt(before, after, existing, n, o) && o.strict
    requires o.flips || HardContravariant(View(before, existing), n)
    ensures HardContravariant(View(after, existing), o.name)
  {
    var va := View(after, existing);
    HardIffOddChain(va, o.name);
    if o.flips {
      SeedReached(va, n);
      ReachedThrough(va, n, false, o);
    } else {
      HardKept(before, after, existing, n);
      HardIffOddChain(va, n);
      ReachedThrough(va, n, true, o);
    }
  }

  /** Exactly when an extension leaves the hard status of every name as it was. */
  lemma ExtensionConservativeIff(before: Surface, after: Surface, existing: Option<set<CallableKey>>)
    requires Extends(before, after)
    ensures (forall n :: HardContravariant(View(after, existing), n) <==> HardContravariant(View(before, existing), n))
       <==> AddsNoDemand(before, after, existing)
  {
    var vb, va := View(before, existing), View(after, existing);
    if AddsNoDemand(before, after, existing) {
      forall n ensures HardContravariant(va, n) <==> HardContravariant(vb, n) {
        if HardContravariant(vb, n) {
          HardKept(before, after, existing, n);
        } else if HardContravariant(va, n) {
          HardIffOddChain(va, n);
          var start, links :| Chain(va, start, links) && Strict(links) && End(start, links) == n && Odd(links);
          OddChainsStayHard(before, after, existing, start, links);
        }
      }
    }
    if forall n :: HardContravariant(va, n) <==> HardContravariant(vb, n) {
      forall n, o | GainedAt(before, after, existing, n, o) && o.strict && (o.flips || HardContravariant(vb, n))
        ensures HardContravariant(vb, o.name)
      {
        GainedDemandIsHard(before, after, existing, n, o);
      }
      forall o | GainedByFunctions(before, after, existing, o) && o.strict && o.flips
        ensures HardContravariant(vb, o.name)
      {
        FunctionReached(va, o);
        HardIffOddChain(va, o.name);
      }
    }
  }

  // ---------- quiet additions ----------

  /** No parameter position anywhere below `t`. */
  predicate PlainType(t: TypeNode)
    decreases t
  {
    forall k | k in NodeKids(t) :: !k.flips && PlainType(k.node)
  }

  lemma {:induction false} PlainNeverFlips(t: TypeNode, o: Occurrence)
    requires PlainType(t) && o in In(t)
    ensures !o.flips
    decreases t
  {
    if o !in OwnReference(t) {
      var k, i :| k in NodeKids(t) && i in In(k.node) && o == Through(k, i);
      PlainNeverFlips(k.node, i);
    }
  }

  /** The callables among the constituents are new, and outside their parameters there is no
      parameter position. */
  predicate QuietKids(kids: set<Kid>) {
    forall k | k in kids :: k.strict ==> !k.flips && PlainType(k.node)
  }

  lemma QuietNeverFlips(kids: set<Kid>, o: Occurrence)
    requires QuietKids(kids) && o in InKids(kids) && o.strict
    ensures !o.flips
  {
    var k, i :| k in kids && i in In(k.node) && o == Through(k, i);
    PlainNeverFlips(k.node, i);
  }

  /** What a declaration has gained. */
  function GainedKids(before: Surface, after: Surface, existing: set<CallableKey>, n: string): set<Kid>
    requires n in after.declarations
  {
    DeclarationKids(n, after.declarations[n], Some(existing)) -
    (if n in before.declarations then DeclarationKids(n, before.declarations[n], Some(existing)) else {})
  }

  /** An element of an interface that is quiet: a method with a new key and a plain result, or
      anything else of a plain type. */
  predicate QuietElement(owner: string, e: TypeElement, existing: set<CallableKey>) {
    match e
    case IndexSignature(value) => PlainType(value)
    case Property(_, _, annotation) => annotation.Some? ==> PlainType(annotation.value)
    case Method(key, _, _, result) =>
      MemberName(key).Some? && Member(owner, MemberName(key).value) !in existing &&
        (result.Some? ==> PlainType(result.value))
    case OtherElement => true
  }

  predicate QuietClassElement(owner: string, m: ClassElement, existing: set<CallableKey>) {
    Hidden(m) ||
    match m
    case Constructor(_, _) => Member(owner, "constructor") !in existing
    case Field(_, _, _, _, annotation) => annotation.Some? ==> PlainType(annotation.value)
    case Accessor(_, _, _, annotation) => annotation.Some? ==> PlainType(annotation.value)
    case ClassMethod(key, _, _, _, _, result) =>
      MemberName(key).Some? && Member(owner, MemberName(key).value) !in existing &&
        (result.Some? ==> PlainType(result.value))
    case OtherClassElement => true
  }

  /** The members that a declaration has gained are quiet; so are all members of a new one. */
  predicate QuietGain(before: Surface, after: Surface, existing: set<CallableKey>, n: string)
    requires n in after.declarations
  {
    match after.declarations[n]
    case Alias(body) => n in before.declarations || PlainType(body)
    case Interface(elements) =>
      forall e | e in elements ::
        QuietElement(n, e, existing) ||
        (n in before.declarations && before.declarations[n].Interface? && e in before.declarations[n].elements)
    case Class(members) =>
      forall m | m in members ::
        QuietClassElement(n, m, existing) ||
        (n in before.declarations && before.declarations[n].Class? && m in before.declarations[n].members)
  }

  lemma QuietGainIsQuiet(before: Surface, after: Surface, existing: set<CallableKey>, n: string)
    requires Extends(before, after) && n in after.declarations && QuietGain(before, after, existing, n)
    ensures QuietKids(GainedKids(before, after, existing, n))
  {
    forall k | k in GainedKids(before, after, existing, n) && k.strict ensures !k.flips && PlainType(k.node) {
      match after.declarations[n]
      case Alias(_) =>
      case Interface(elements) =>
        var e :| e in elements && k in ElementKids(e, AsWritten, Some(n), Some(existing));
        assert QuietElement(n, e, existing);
      case Class(members) =>
        var m :| m in members && k in ClassElementKids(m, n, Some(existing));
        assert QuietClassElement(n, m, existing);
    }
  }

  lemma GainedFromKids(before: Surface, after: Surface, existing: set<CallableKey>, n: string, o: Occurrence)
    requires GainedAt(before, after, Some(existing), n, o)
    ensures n in after.declarations && o in InKids(GainedKids(before, after, existing, n))
  {
    var k, i :| k in DeclarationKids(n, after.declarations[n], Some(existing)) && i in In(k.node) && o == Through(k, i);
    assert k in GainedKids(before, after, existing, n);
  }

  /** Adding new functions, quiet declarations, and quiet members of existing declarations changes
      no hard status, provided that what a hard declaration gains mentions hard names only. */
  lemma ConservativeExtension(before: Surface, after: Surface, existing: set<CallableKey>, name: string)
    requires Extends(before, after)
    requires forall n | n in after.declarations :: QuietGain(before, after, existing, n)
    requires var view := View(before, Some(existing));
             forall n, o ::
               HardContravariant(view, n) && GainedAt(before, after, Some(existing), n, o) && o.strict ==>
                 HardContravariant(view, o.name)
    requires forall f | f in after.functions && f !in before.functions ::
      TopLevel(f.name) !in existing && (f.result.Some? ==> PlainType(f.result.value))
    ensures HardContravariant(View(after, Some(existing)), name) <==>
      HardContravariant(View(before, Some(existing)), name)
  {
    forall n, o | GainedAt(before, after, Some(existing), n, o) && o.strict ensures !o.flips {
      GainedFromKids(before, after, existing, n, o);
      QuietGainIsQuiet(before, after, existing, n);
      QuietNeverFlips(GainedKids(before, after, existing, n), o);
    }
    forall o | GainedByFunctions(before, after, Some(existing), o) && o.strict ensures !o.flips {
      var f :| f in after.functions && o in InKids(FunctionKids(f, Some(existing)));
      assert f !in before.functions;
      assert QuietKids(FunctionKids(f, Some(existing)));
      QuietNeverFlips(FunctionKids(f, Some(existing)), o);
    }
    ExtensionConservativeIff(before, after, Some(existing));
  }

  /** The parameters of a new method are behind the gate. */
  lemma NewMethodIsGated(owner: string, key: PropertyName, optional: bool, params: seq<Param>,
                         existing: set<CallableKey>, k: Kid)
    requires MemberName(key).Some? && Member(owner, MemberName(key).value) !in existing
    requires k in ElementKids(Method(key, optional, params, None), AsWritten, Some(owner), Some(existing))
    ensures !k.strict
  {}

  lemma KidOfLast(elements: seq<TypeElement>, last: TypeElement, owner: string, existing: set<CallableKey>, k: Kid)
    requires k in ElementsKids(elements + [last], AsWritten, Some(owner), Some(existing))
    requires k !in ElementsKids(elements, AsWritten, Some(owner), Some(existing))
    ensures k in ElementKids(last, AsWritten, Some(owner), Some(existing))
  {
    var e :| e in elements + [last] && k in ElementKids(e, AsWritten, Some(owner), Some(existing));
    assert e in elements || e == last;
  }

  /** A surface in which an interface has gained one method. */
  function WithMethod(before: Surface, owner: string, added: TypeElement): Surface
    requires owner in before.declarations && before.declarations[owner].Interface?
  {
    before.(declarations := before.declarations[owner := Interface(before.declarations[owner].elements + [added])])
  }

  lemma NothingMandatoryGained(before: Surface, owner: string, key: PropertyName, optional: bool, params: seq<Param>,
                               existing: set<CallableKey>,
                               n: string, o: Occurrence)
    requires owner in before.declarations && before.declarations[owner].Interface?
    requires MemberName(key).Some? && Member(owner, MemberName(key).value) !in existing
    requires GainedAt(before, WithMethod(before, owner, Method(key, optional, params, None)), Some(existing), n, o)
    ensures !o.strict
  {
    var added := Method(key, optional, params, None);
    var after := WithMethod(before, owner, added);
    GainedFromKids(before, after, existing, n, o);
    var k, i :| k in GainedKids(before, after, existing, n) && i in In(k.node) && o == Through(k, i);
    assert n == owner;
    KidOfLast(before.declarations[owner].elements, added, owner, existing, k);
    NewMethodIsGated(owner, key, optional, params, existing, k);
  }

  /** A new method without a declared result on an existing interface, whatever its parameters:
      types that only it mentions are not made hard. */
  lemma NewMethodIsConservative(before: Surface, owner: string, key: PropertyName, optional: bool, params: seq<Param>,
                                existing: set<CallableKey>, name: string)
    requires owner in before.declarations && before.declarations[owner].Interface?
    requires MemberName(key).Some? && Member(owner, MemberName(key).value) !in existing
    ensures HardContravariant(View(WithMethod(before, owner, Method(key, optional, params, None)), Some(existing)),
      name) <==>
            HardContravariant(View(before, Some(existing)), name)
  {
    var after := WithMethod(before, owner, Method(key, optional, params, None));
    assert Extends(before, after);
    forall n, o | GainedAt(before, after, Some(existing), n, o) ensures !o.strict {
      NothingMandatoryGained(before, owner, key, optional, params, existing, n, o);
    }
    assert after.functions == before.functions;
    assert FunctionOccurrences(View(after, Some(existing))) == FunctionOccurrences(View(before, Some(existing)));
    assert AddsNoDemand(before, after, Some(existing));
    ExtensionConservativeIff(before, after, Some(existing));
  }

  lemma PropertyHardens(view: View, owner: string, key: PropertyName, t: TypeNode, used: string)
    requires owner in view.surface.declarations &&
      view.surface.declarations[owner] == Interface([Property(key, false, Some(t))])
    requires Occurrence(used, true, true) in In(t)
    ensures HardContravariant(view, used)
  {
    var e, o := Property(key, false, Some(t)), Occurrence(used, true, true);
    var kid := Kid(false, true, t);
    assert e in [e] && kid in ElementKids(e, AsWritten, Some(owner), view.existing);
    assert kid in DeclarationKids(owner, Interface([e]), view.existing) && Through(kid, o) == o;
    assert o in DeclarationOccurrences(view, owner);
    SeedReached(view, owner);
    ReachedThrough(view, owner, false, o);
    HardIffOddChain(view, used);
  }

  lemma CallbackOccurrence(x: Param, used: string, result: TypeNode)
    requires x.annotation == Some(Ref(used, [])) && !x.optional
    ensures Occurrence(used, true, true) in In(Func([x], result))
  {
    var callback := Func([x], result);
    var reference := Occurrence(used, false, true);
    assert reference in In(Ref(used, []));
    var inner := Kid(true, true, Ref(used, []));
    assert x in [x] && inner in ParamKids([x], true);
    assert inner in NodeKids(callback) && Through(inner, reference) == Occurrence(used, true, true);
  }

  lemma LoneAliasIsSoft(used: string, existing: Option<set<CallableKey>>)
    ensures !HardContravariant(View(Surface(map[used := Alias(Leaf)], []), existing), used)
  {
    var view := View(Surface(map[used := Alias(Leaf)], []), existing);
    assert In(Leaf) == {};
    assert forall n :: DeclarationOccurrences(view, n) == {};
    assert FunctionOccurrences(view) == {};
    HardIffOddChain(view, used);
    forall start, links | Odd(links) ensures !Chain(view, start, links) {
      assert links[0] !in LinksFrom(view, start, links, 0);
    }
  }

  /** The quietness matters: `interface Fresh { cb: (x: Used) => R }` makes the old `Used` hard
      although no existing callable mentions it. */
  lemma NewCallbackPropertyHardens(added: string, member: string, used: string, result: TypeNode)
    requires added != used
    ensures var before := Surface(map[used := Alias(Leaf)], []);
            var callback := Func([Param(Some("x"), false, Some(Ref(used, [])))], result);
            var after := Surface(before.declarations[added := Interface([Property(Plain(member), false,
              Some(callback))])], []);
            Extends(before, after) && !HardContravariant(View(before, Some({})), used) &&
              HardContravariant(View(after, Some({})), used)
  {
    var before := Surface(map[used := Alias(Leaf)], []);
    var x := Param(Some("x"), false, Some(Ref(used, [])));
    var callback := Func([x], result);
    var after := Surface(before.declarations[added := Interface([Property(Plain(member), false, Some(callback))])], []);
    LoneAliasIsSoft(used, Some({}));
    CallbackOccurrence(x, used, result);
    PropertyHardens(View(after, Some({})), added, Plain(member), callback, used);
  }
}
