/** Type arguments and the polarity they inherit.

    The checker lets the arguments of a type reference inherit the polarity of the reference. This
    module compares that with instantiating the generic type, for arguments that are references.
 */
module TypeArguments {
  import opened Syntax
  import opened Occurrences
  import opened VarianceLaws
  import opened InlineAgreement

  /** Everything in its place, with references to the type parameter `from` turned to `to`. */
  function Instantiate(t: TypeNode, from: string, to: string): TypeNode
    decreases t, 0
  {
    match t
    case Paren(inner) => Paren(Instantiate(inner, from, to))
    case Ref(name, args) => Ref(if name == from then to else name, InstantiateAll(args, from, to))
    case Literal(elements) => Literal(InstantiateElements(elements, from, to))
    case Func(params, result) => Func(InstantiateParams(params, from, to), Instantiate(result, from, to))
    case Union(types) => Union(InstantiateAll(types, from, to))
    case Intersection(types) => Intersection(InstantiateAll(types, from, to))
    case Array(element) => Array(Instantiate(element, from, to))
    case Tuple(slots) => Tuple(InstantiateAll(slots, from, to))
    case Mapped(template) => Mapped(InstantiateOption(template, from, to))
    case Leaf => Leaf
  }

  function InstantiateAll(types: seq<TypeNode>, from: string, to: string): (r: seq<TypeNode>)
    ensures |r| == |types| && forall i :: 0 <= i < |types| ==> r[i] == Instantiate(types[i], from, to)
    decreases types, 0
  {
    if types == [] then [] else [Instantiate(types[0], from, to)] + InstantiateAll(types[1..], from, to)
  }

  function InstantiateOption(t: Option<TypeNode>, from: string, to: string): Option<TypeNode>
    decreases t, 0
  {
    match t
    case None => None
    case Some(value) => Some(Instantiate(value, from, to))
  }

  function InstantiateParam(p: Param, from: string, to: string): Param
    decreases p, 0
  {
    Param(p.name, p.optional, InstantiateOption(p.annotation, from, to))
  }

  function InstantiateParams(params: seq<Param>, from: string, to: string): (r: seq<Param>)
    ensures |r| == |params| && forall i :: 0 <= i < |params| ==> r[i] == InstantiateParam(params[i], from, to)
    decreases params, 0
  {
    if params == [] then [] else [InstantiateParam(params[0], from, to)] + InstantiateParams(params[1..], from, to)
  }

  function InstantiateElement(e: TypeElement, from: string, to: string): TypeElement
    decreases e, 0
  {
    match e
    case IndexSignature(value) => IndexSignature(Instantiate(value, from, to))
    case Property(key, optional, annotation) => Property(key, optional, InstantiateOption(annotation, from, to))
    case Method(key, optional, params, result) =>
      Method(key, optional, InstantiateParams(params, from, to), InstantiateOption(result, from, to))
    case OtherElement => OtherElement
  }

  function InstantiateElements(elements: seq<TypeElement>, from: string, to: string): (r: seq<TypeElement>)
    ensures |r| == |elements| && forall i :: 0 <= i < |elements| ==> r[i] == InstantiateElement(elements[i], from, to)
    decreases elements, 0
  {
    if elements == [] then []
    else [InstantiateElement(elements[0], from, to)] + InstantiateElements(elements[1..], from, to)
  }

  // ---------- occurrences under instantiation ----------

  function Renamed(o: Occurrence, from: string, to: string): Occurrence {
    if o.name == from then o.(name := to) else o
  }

  function KidInstance(k: Kid, from: string, to: string): Kid {
    k.(node := Instantiate(k.node, from, to))
  }

  function KidInstances(kids: set<Kid>, from: string, to: string): set<Kid> {
    set k | k in kids :: KidInstance(k, from, to)
  }

  /** A name that means what it says, rather than being one of the wrappers. */
  predicate Proper(name: string) {
    WrapperEffect(name, AsWritten).None?
  }

  lemma {:induction false} PeelInstance(t: TypeNode, mode: ForcedMode, from: string, to: string)
    requires Proper(from) && Proper(to)
    ensures Peel(Instantiate(t, from, to), mode) ==
      Peeled(Instantiate(Peel(t, mode).node, from, to), Peel(t, mode).mode)
    decreases t
  {
    match t
    case Paren(inner) => PeelInstance(inner, mode, from, to);
    case Ref(name, args) =>
      if args != [] && WrapperEffect(name, mode).Some? {
        assert name != from;
        PeelInstance(args[0], WrapperEffect(name, mode).value, from, to);
      }
    case _ =>
  }

  lemma EachKidInstance(types: seq<TypeNode>, from: string, to: string)
    ensures EachKid(InstantiateAll(types, from, to)) == KidInstances(EachKid(types), from, to)
  {
    var r := InstantiateAll(types, from, to);
    forall t | t in types ensures Instantiate(t, from, to) in r {
      var i :| 0 <= i < |types| && types[i] == t;
      assert r[i] in r;
    }
    forall u | u in r ensures exists t :: t in types && u == Instantiate(t, from, to) {
      var i :| 0 <= i < |r| && r[i] == u;
      assert types[i] in types;
    }
    forall k ensures k in EachKid(r) <==> k in KidInstances(EachKid(types), from, to) {
      if k in EachKid(r) {
        var t :| t in types && k.node == Instantiate(t, from, to);
        assert Kid(false, true, t) in EachKid(types) && k == KidInstance(Kid(false, true, t), from, to);
      }
    }
  }

  lemma OptionInstance(t: Option<TypeNode>, from: string, to: string)
    ensures InstantiateOption(t, from, to).Some? <==> t.Some?
    ensures t.Some? ==> InstantiateOption(t, from, to).value == Instantiate(t.value, from, to)
  {}

  lemma ParamKidThere(params: seq<Param>, strict: bool, from: string, to: string, k: Kid)
    requires k in ParamKids(params, strict)
    ensures KidInstance(k, from, to) in ParamKids(InstantiateParams(params, from, to), strict)
  {
    var r := InstantiateParams(params, from, to);
    var p :| p in params && p.annotation.Some? && k == Kid(true, strict && !p.optional, p.annotation.value);
    var i :| 0 <= i < |params| && params[i] == p;
    OptionInstance(p.annotation, from, to);
    assert r[i] in r;
  }

  lemma ParamKidBack(params: seq<Param>, strict: bool, from: string, to: string, k: Kid) returns (origin: Kid)
    requires k in ParamKids(InstantiateParams(params, from, to), strict)
    ensures origin in ParamKids(params, strict) && k == KidInstance(origin, from, to)
  {
    var r := InstantiateParams(params, from, to);
    var q :| q in r && q.annotation.Some? && k == Kid(true, strict && !q.optional, q.annotation.value);
    var i :| 0 <= i < |r| && r[i] == q;
    var p := params[i];
    assert p in params && q == InstantiateParam(p, from, to);
    OptionInstance(p.annotation, from, to);
    origin := Kid(true, strict && !p.optional, p.annotation.value);
  }

  lemma ParamKidsInstance(params: seq<Param>, strict: bool, from: string, to: string)
    ensures ParamKids(InstantiateParams(params, from, to), strict) == KidInstances(ParamKids(params, strict), from, to)
  {
    forall k | k in ParamKids(params, strict)
      ensures KidInstance(k, from, to) in ParamKids(InstantiateParams(params, from, to), strict)
    {
      ParamKidThere(params, strict, from, to, k);
    }
    forall k | k in ParamKids(InstantiateParams(params, from, to), strict)
      ensures k in KidInstances(ParamKids(params, strict), from, to)
    {
      var origin := ParamKidBack(params, strict, from, to, k);
    }
  }

  lemma ElementKidsInstance(e: TypeElement, mode: ForcedMode, from: string, to: string)
    ensures ElementKids(InstantiateElement(e, from, to), mode, None, None) ==
      KidInstances(ElementKids(e, mode, None, None), from, to)
  {
    match e
    case Method(key, optional, params, result) =>
      ParamKidsInstance(params, !IsOptional(mode, optional) && CalleeExisted(None, None, MemberName(key)), from, to);
    case _ =>
  }

  lemma ElementsKidThere(elements: seq<TypeElement>, mode: ForcedMode, from: string, to: string, k: Kid)
    requires k in ElementsKids(elements, mode, None, None)
    ensures KidInstance(k, from, to) in ElementsKids(InstantiateElements(elements, from, to), mode, None, None)
  {
    var r := InstantiateElements(elements, from, to);
    var e :| e in elements && k in ElementKids(e, mode, None, None);
    var i :| 0 <= i < |elements| && elements[i] == e;
    assert r[i] in r && r[i] == InstantiateElement(e, from, to);
    ElementKidsInstance(e, mode, from, to);
    assert KidInstance(k, from, to) in ElementKids(r[i], mode, None, None);
  }

  lemma ElementsKidBack(elements: seq<TypeElement>, mode: ForcedMode, from: string, to: string,
                        k: Kid)
    returns (origin: Kid)
    requires k in ElementsKids(InstantiateElements(elements, from, to), mode, None, None)
    ensures origin in ElementsKids(elements, mode, None, None) && k == KidInstance(origin, from, to)
  {
    var r := InstantiateElements(elements, from, to);
    var d :| d in r && k in ElementKids(d, mode, None, None);
    var i :| 0 <= i < |r| && r[i] == d;
    var e := elements[i];
    assert e in elements && d == InstantiateElement(e, from, to);
    ElementKidsInstance(e, mode, from, to);
    origin :| origin in ElementKids(e, mode, None, None) && k == KidInstance(origin, from, to);
  }

  lemma ElementsKidsInstance(elements: seq<TypeElement>, mode: ForcedMode, from: string, to: string)
    ensures ElementsKids(InstantiateElements(elements, from, to), mode, None, None) ==
      KidInstances(ElementsKids(elements, mode, None, None), from, to)
  {
    forall k | k in ElementsKids(elements, mode, None, None)
      ensures KidInstance(k, from, to) in ElementsKids(InstantiateElements(elements, from, to), mode, None, None)
    {
      ElementsKidThere(elements, mode, from, to, k);
    }
    forall k | k in ElementsKids(InstantiateElements(elements, from, to), mode, None, None)
      ensures k in KidInstances(ElementsKids(elements, mode, None, None), from, to)
    {
      var origin := ElementsKidBack(elements, mode, from, to, k);
    }
  }

  lemma PeeledKidsInstance(peeled: Peeled, from: string, to: string)
    ensures PeeledKids(Peeled(Instantiate(peeled.node, from, to), peeled.mode)) ==
      KidInstances(PeeledKids(peeled), from, to)
  {
    match peeled.node
    case Ref(_, args) => EachKidInstance(args, from, to);
    case Literal(elements) => ElementsKidsInstance(elements, peeled.mode, from, to);
    case Func(params, result) => ParamKidsInstance(params, true, from, to);
    case Union(types) => EachKidInstance(types, from, to);
    case Intersection(types) => EachKidInstance(types, from, to);
    case Tuple(slots) => EachKidInstance(slots, from, to);
    case _ =>
  }

  lemma NodeKidsInstance(t: TypeNode, from: string, to: string)
    requires Proper(from) && Proper(to)
    ensures NodeKids(Instantiate(t, from, to)) == KidInstances(NodeKids(t), from, to)
    ensures forall o :: o in OwnReference(Instantiate(t, from, to)) <==>
      exists i :: i in OwnReference(t) && o == Renamed(i, from, to)
  {
    PeelInstance(t, AsWritten, from, to);
    PeeledKidsInstance(Peel(t, AsWritten), from, to);
    var node := Peel(t, AsWritten).node;
    if node.Ref? {
      assert Occurrence(node.name, false, true) in OwnReference(t);
    }
  }

  lemma ThroughRenamed(k: Kid, o: Occurrence, from: string, to: string)
    ensures Renamed(Through(k, o), from, to) == Through(KidInstance(k, from, to), Renamed(o, from, to))
  {}

  /** Instantiation renames the occurrences of the parameter and changes nothing else. */
  lemma {:induction false} RenamedOccurs(t: TypeNode, from: string, to: string, i: Occurrence)
    requires Proper(from) && Proper(to) && i in In(t)
    ensures Renamed(i, from, to) in In(Instantiate(t, from, to))
    decreases t
  {
    NodeKidsInstance(t, from, to);
    if i in OwnReference(t) {
      assert Renamed(i, from, to) in OwnReference(Instantiate(t, from, to));
    } else {
      var k, below :| k in NodeKids(t) && below in In(k.node) && i == Through(k, below);
      RenamedOccurs(k.node, from, to, below);
      ThroughRenamed(k, below, from, to);
      assert KidInstance(k, from, to) in NodeKids(Instantiate(t, from, to));
    }
  }

  lemma {:induction false} OccurrenceOrigin(t: TypeNode, from: string, to: string,
                                            o: Occurrence)
    returns (i: Occurrence)
    requires Proper(from) && Proper(to) && o in In(Instantiate(t, from, to))
    ensures i in In(t) && o == Renamed(i, from, to)
    decreases t
  {
    NodeKidsInstance(t, from, to);
    if o in OwnReference(Instantiate(t, from, to)) {
      i :| i in OwnReference(t) && o == Renamed(i, from, to);
    } else {
      var k, below :| k in NodeKids(Instantiate(t, from, to)) && below in In(k.node) && o == Through(k, below);
      var origin :| origin in NodeKids(t) && k == KidInstance(origin, from, to);
      var inner := OccurrenceOrigin(origin.node, from, to, below);
      ThroughRenamed(origin, inner, from, to);
      i := Through(origin, inner);
    }
  }

  // ---------- what is inherited ----------

  /** What the reference `alias<n>` says about `n` on its own. */
  lemma Inherited(alias: string, n: string)
    requires Proper(alias)
    ensures In(Ref(alias, [Ref(n, [])])) == {Occurrence(alias, false, true), Occurrence(n, false, true)}
  {
    var t := Ref(alias, [Ref(n, [])]);
    var kid := Kid(false, true, Ref(n, []));
    assert Ref(n, []) in t.args && NodeKids(t) == {kid};
    BareReference(n);
    assert Through(kid, Occurrence(n, false, true)) == Occurrence(n, false, true);
  }

  /** No parameter position that nothing makes optional lies above the type parameter. */
  ghost predicate NotConsumed(body: TypeNode, parameter: string) {
    forall o :: o in In(body) && o.name == parameter && o.strict ==> !o.flips
  }

  /** The inherited polarity covers the argument: every mandatory occurrence in the instance is one
      that the reference has as well. */
  ghost predicate Covers(alias: string, body: TypeNode, parameter: string, n: string) {
    forall o :: o in In(Instantiate(body, parameter, n)) && o.name == n && o.strict ==>
      o in In(Ref(alias, [Ref(n, [])]))
  }

  lemma CoveredIsNotConsumed(alias: string, body: TypeNode, parameter: string, n: string, o: Occurrence)
    requires Proper(alias) && Proper(parameter) && Proper(n) && n != alias
    requires Covers(alias, body, parameter, n) && o in In(body) && o.name == parameter && o.strict
    ensures !o.flips
  {
    Inherited(alias, n);
    RenamedOccurs(body, parameter, n, o);
    assert Renamed(o, parameter, n) == o.(name := n);
  }

  lemma NotConsumedIsCovered(alias: string, body: TypeNode, parameter: string, n: string, o: Occurrence)
    requires Proper(alias) && Proper(parameter) && Proper(n) && forall i :: i in In(body) ==> i.name != n
    requires NotConsumed(body, parameter) && o in In(Instantiate(body, parameter, n)) && o.name == n && o.strict
    ensures o in In(Ref(alias, [Ref(n, [])]))
  {
    Inherited(alias, n);
    var i := OccurrenceOrigin(body, parameter, n, o);
    assert i.name == parameter && i.strict;
  }

  /** The inherited polarity errs in the safe direction exactly if the generic type does not
      consume its parameter. */
  lemma InheritedCoversIff(alias: string, body: TypeNode, parameter: string, n: string)
    requires Proper(alias) && Proper(parameter) && Proper(n)
    requires n != alias && forall o :: o in In(body) ==> o.name != n
    ensures Covers(alias, body, parameter, n) <==> NotConsumed(body, parameter)
  {
    if Covers(alias, body, parameter, n) {
      forall o | o in In(body) && o.name == parameter && o.strict ensures !o.flips {
        CoveredIsNotConsumed(alias, body, parameter, n, o);
      }
    }
    if NotConsumed(body, parameter) {
      forall o | o in In(Instantiate(body, parameter, n)) && o.name == n && o.strict
        ensures o in In(Ref(alias, [Ref(n, [])]))
      {
        NotConsumedIsCovered(alias, body, parameter, n, o);
      }
    }
  }

  /** `type Handler<T> = (x: T) => void` */
  function Handler(parameter: string): TypeNode {
    Func([Param(Some("x"), false, Some(Ref(parameter, [])))], Leaf)
  }

  /** `Options` and `Handler`, and `function on()` with the given result. */
  function WithHandler(handler: string, parameter: string, options: string, result: TypeNode): Surface {
    Surface(map[options := Alias(Leaf), handler := Alias(Handler(parameter))],
      [FunctionDeclaration("on", [], Some(result))])
  }

  lemma InOneKid(kid: Kid)
    ensures InKids({kid}) == set i | i in In(kid.node) :: Through(kid, i)
  {}

  lemma NothingInLeaf(t: TypeNode)
    requires t.Leaf?
    ensures In(t) == {}
  {}

  lemma CallbackKids(t: TypeNode, p: Param, k: Kid)
    requires t.Func? && t.params == [p] && p.annotation.Some? && !p.optional && k in NodeKids(t)
    ensures k == Kid(true, true, p.annotation.value) || k == Kid(false, true, t.result)
  {}

  lemma HandlerOccurrences(t: TypeNode, p: Param, o: Occurrence)
    requires t.Func? && t.params == [p] && t.result.Leaf? && !p.optional
    requires p.annotation.Some? && p.annotation.value.Ref? && p.annotation.value.args == [] && o in In(t)
    ensures o == Occurrence(p.annotation.value.name, true, true)
  {
    var k, i :| k in NodeKids(t) && i in In(k.node) && o == Through(k, i);
    CallbackKids(t, p, k);
    NothingInLeaf(t.result);
    BareReference(p.annotation.value.name);
  }

  lemma ResultOccurrence(view: View, f: FunctionDeclaration, result: TypeNode, o: Occurrence)
    requires view.surface.functions == [f] && f.params == [] && f.result == Some(result)
    ensures o in FunctionOccurrences(view) <==> o in In(result)
  {
    var kid := Kid(false, true, result);
    assert f in view.surface.functions && FunctionKids(f, view.existing) == {kid};
    InOneKid(kid);
    forall i ensures Through(kid, i) == i {}
    assert InKids({kid}) == In(result);
  }

  lemma AliasOccurrence(view: View, n: string, body: TypeNode, o: Occurrence)
    requires n in view.surface.declarations && view.surface.declarations[n] == Alias(body)
    ensures o in DeclarationOccurrences(view, n) <==> o in In(body)
  {
    var kid := Kid(false, true, body);
    InOneKid(kid);
    forall i ensures Through(kid, i) == i {}
    assert InKids({kid}) == In(body);
  }

  lemma DeclaredOccurrence(view: View, n: string, o: Occurrence, handler: string, parameter: string, options: string)
    requires handler != options
    requires view.surface.declarations == WithHandler(handler, parameter, options, Leaf).declarations
    requires o in DeclarationOccurrences(view, n)
    ensures o.name == parameter
  {
    if n == handler {
      AliasOccurrence(view, n, Handler(parameter), o);
      HandlerOccurrences(Handler(parameter), Handler(parameter).params[0], o);
    } else {
      AliasOccurrence(view, n, Leaf, o);
      NothingInLeaf(Leaf);
    }
  }

  lemma ReferenceStaysSoft(handler: string, parameter: string, options: string, existing: Option<set<CallableKey>>)
    requires Proper(handler) && handler != options && parameter != options
    ensures !HardContravariant(View(WithHandler(handler, parameter, options, Ref(handler, [Ref(options, [])])),
      existing), options)
  {
    var result := Ref(handler, [Ref(options, [])]);
    var view := View(WithHandler(handler, parameter, options, result), existing);
    HardIffOddChain(view, options);
    forall start: Option<string>, links: seq<Occurrence> |
      Chain(view, start, links) && End(start, links) == options && links != [] ensures !Odd(links) {
      var last := links[|links| - 1];
      assert last in LinksFrom(view, start, links, |links| - 1);
      if |links| > 1 {
        DeclaredOccurrence(view, links[|links| - 2].name, last, handler, parameter, options);
      } else if start.Some? {
        DeclaredOccurrence(view, start.value, last, handler, parameter, options);
      } else {
        ResultOccurrence(view, view.surface.functions[0], result, last);
        Inherited(handler, options);
        assert links[..0] == [];
      }
    }
  }

  lemma InstantiateBare(t: TypeNode, parameter: string, options: string)
    requires t == Ref(parameter, [])
    ensures Instantiate(t, parameter, options) == Ref(options, [])
  {}

  lemma InstanceOfHandler(parameter: string, options: string)
    ensures Instantiate(Handler(parameter), parameter, options) ==
      Func([Param(Some("x"), false, Some(Ref(options, [])))], Leaf)
  {
    var p := Param(Some("x"), false, Some(Ref(parameter, [])));
    InstantiateBare(Ref(parameter, []), parameter, options);
    assert InstantiateParam(p, parameter, options) == Param(Some("x"), false, Some(Ref(options, [])));
    assert InstantiateParams([p], parameter, options) == [InstantiateParam(p, parameter, options)];
  }

  lemma InstanceHardens(handler: string, parameter: string, options: string, existing: Option<set<CallableKey>>)
    ensures HardContravariant(View(WithHandler(handler, parameter, options,
      Instantiate(Handler(parameter), parameter, options)), existing), options)
  {
    var p := Param(Some("x"), false, Some(Ref(options, [])));
    var instance := Instantiate(Handler(parameter), parameter, options);
    InstanceOfHandler(parameter, options);
    var view := View(WithHandler(handler, parameter, options, instance), existing);
    CallbackOccurrence(p, options, Leaf);
    ResultOccurrence(view, view.surface.functions[0], instance, Occurrence(options, true, true));
    FunctionReached(view, Occurrence(options, true, true));
    HardIffOddChain(view, options);
  }

  /** With `function on(): Handler<Options>` callers write `Options`, as they do with its instance
      `function on(): (x: Options) => void`; only the latter makes `Options` hard. */
  lemma HandlerHidesArgument(handler: string, parameter: string, options: string, existing: Option<set<CallableKey>>)
    requires Proper(handler) && Proper(parameter) && Proper(options)
    requires handler != options && parameter != options
    ensures !HardContravariant(View(WithHandler(handler, parameter, options, Ref(handler, [Ref(options, [])])),
      existing), options)
    ensures HardContravariant(View(WithHandler(handler, parameter, options,
      Instantiate(Handler(parameter), parameter, options)), existing), options)
  {
    ReferenceStaysSoft(handler, parameter, options, existing);
    InstanceHardens(handler, parameter, options, existing);
  }
}
