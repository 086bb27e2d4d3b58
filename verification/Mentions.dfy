/** What the occurrences of a type, a declaration and a function are, by recursion on the syntax
    and position by position: a reference for the constituents that the walk visits. */
module Mentions {
  import opened Syntax
  import opened Occurrences
  import opened VarianceLaws

  /** The name is mentioned below an odd number of parameter positions (`flips`) and with nothing
      optional above it (`strict`), when the wrappers passed so far have left `mode`. */
  ghost predicate Mentions(t: TypeNode, mode: ForcedMode, name: string, flips: bool, strict: bool)
    decreases t, 1
  {
    match t
    case Paren(inner) => Mentions(inner, mode, name, flips, strict)
    case Ref(reference, args) =>
      if args != [] && reference == "Readonly" then Mentions(args[0], mode, name, flips, strict)
      else if args != [] && reference == "Partial" then Mentions(args[0], AllOptional, name, flips, strict)
      else if args != [] && reference == "Required" then Mentions(args[0], AllRequired, name, flips, strict)
      else (name == reference && !flips && strict) || SomeMentions(args, name, flips, strict)
    case Literal(elements) => exists e | e in elements :: ElementMentions(e, mode, name, flips, strict)
    case Func(params, result) =>
      SomeParamMentions(params, true, name, flips, strict) || Mentions(result, AsWritten, name, flips, strict)
    case Union(types) => SomeMentions(types, name, flips, strict)
    case Intersection(types) => SomeMentions(types, name, flips, strict)
    case Array(element) => Mentions(element, AsWritten, name, flips, strict)
    case Tuple(slots) => SomeMentions(slots, name, flips, strict)
    case Mapped(template) => template.Some? && Mentions(template.value, AsWritten, name, flips, strict)
    case Leaf => false
  }

  ghost predicate SomeMentions(types: seq<TypeNode>, name: string, flips: bool, strict: bool)
    decreases types, 0
  {
    exists t | t in types :: Mentions(t, AsWritten, name, flips, strict)
  }

  /** In a position that may be left out no mention is strict. */
  ghost predicate MentionsIf(given: bool, t: TypeNode, name: string, flips: bool, strict: bool)
    decreases t, 2
  {
    if given then Mentions(t, AsWritten, name, flips, strict)
    else !strict && (Mentions(t, AsWritten, name, flips, true) || Mentions(t, AsWritten, name, flips, false))
  }

  /** A parameter counts as one position that flips; `gate` is what its callable says. */
  ghost predicate ParamMentions(p: Param, gate: bool, name: string, flips: bool, strict: bool)
    decreases p, 0
  {
    p.annotation.Some? && MentionsIf(gate && !p.optional, p.annotation.value, name, !flips, strict)
  }

  ghost predicate SomeParamMentions(params: seq<Param>, gate: bool, name: string, flips: bool, strict: bool)
    decreases params, 0
  {
    exists p | p in params :: ParamMentions(p, gate, name, flips, strict)
  }

  /** A member with this question mark cannot be left out. */
  predicate MustBeThere(mode: ForcedMode, questionMark: bool) {
    mode == AllRequired || (mode == AsWritten && !questionMark)
  }

  /** An element of an anonymous literal: its methods are not gated. */
  ghost predicate ElementMentions(e: TypeElement, mode: ForcedMode, name: string, flips: bool, strict: bool)
    decreases e, 0
  {
    match e
    case IndexSignature(value) => Mentions(value, AsWritten, name, flips, strict)
    case Property(_, optional, annotation) =>
      annotation.Some? && MentionsIf(MustBeThere(mode, optional), annotation.value, name, flips, strict)
    case Method(_, optional, params, result) =>
      SomeParamMentions(params, MustBeThere(mode, optional), name, flips, strict) ||
      (result.Some? && MentionsIf(MustBeThere(mode, optional), result.value, name, flips, strict))
    case OtherElement => false
  }

  // ---------- occurrences are mentions ----------

  lemma InOfKids(kids: set<Kid>, o: Occurrence)
    ensures o in InKids(kids) <==> exists k :: k in kids && o in InKids({k})
  {
    if o in InKids(kids) {
      var k, i :| k in kids && i in In(k.node) && o == Through(k, i);
      assert o in InKids({k});
    }
  }

  /** The occurrences below one constituent. */
  lemma InOneKid(k: Kid, o: Occurrence)
    ensures o in InKids({k}) <==>
      if k.strict then Occurrence(o.name, k.flips != o.flips, o.strict) in In(k.node)
      else !o.strict && (Occurrence(o.name, k.flips != o.flips, true) in In(k.node) ||
                         Occurrence(o.name, k.flips != o.flips, false) in In(k.node))
  {
    forall i ensures Through(k, i) == o <==>
      i.name == o.name && i.flips == (k.flips != o.flips) && (k.strict && i.strict) == o.strict
    {}
    if k.strict {
      assert Through(k, Occurrence(o.name, k.flips != o.flips, o.strict)) == o;
    } else if !o.strict {
      assert Through(k, Occurrence(o.name, k.flips != o.flips, true)) == o;
      assert Through(k, Occurrence(o.name, k.flips != o.flips, false)) == o;
    }
  }

  /** Mentioning an occurrence. */
  ghost predicate Mentioned(t: TypeNode, mode: ForcedMode, o: Occurrence) {
    Mentions(t, mode, o.name, o.flips, o.strict)
  }

  lemma {:induction false} KidMentions(k: Kid, o: Occurrence)
    ensures o in InKids({k}) <==> MentionsIf(k.strict, k.node, o.name, k.flips != o.flips, o.strict)
    decreases k.node, 2
  {
    InOneKid(k, o);
    InIffMentioned(k.node, Occurrence(o.name, k.flips != o.flips, o.strict));
    InIffMentioned(k.node, Occurrence(o.name, k.flips != o.flips, true));
    InIffMentioned(k.node, Occurrence(o.name, k.flips != o.flips, false));
  }

  lemma {:induction false} EachKidMentions(types: seq<TypeNode>, o: Occurrence)
    ensures o in InKids(EachKid(types)) <==> SomeMentions(types, o.name, o.flips, o.strict)
    decreases types, 0
  {
    InOfKids(EachKid(types), o);
    forall t | t in types ensures o in InKids({Kid(false, true, t)}) <==> Mentioned(t, AsWritten, o) {
      KidMentions(Kid(false, true, t), o);
    }
    if t :| t in types && Mentioned(t, AsWritten, o) {
      assert Kid(false, true, t) in EachKid(types);
    }
  }

  lemma {:induction false} ParamKidMentions(p: Param, gate: bool, o: Occurrence)
    requires p.annotation.Some?
    ensures o in InKids({Kid(true, gate && !p.optional, p.annotation.value)}) <==>
      ParamMentions(p, gate, o.name, o.flips, o.strict)
    decreases p, 0
  {
    KidMentions(Kid(true, gate && !p.optional, p.annotation.value), o);
  }

  lemma {:induction false} ParamKidsMention(params: seq<Param>, gate: bool, o: Occurrence)
    ensures o in InKids(ParamKids(params, gate)) <==> SomeParamMentions(params, gate, o.name, o.flips, o.strict)
    decreases params, 0
  {
    InOfKids(ParamKids(params, gate), o);
    forall p | p in params && p.annotation.Some?
      ensures o in InKids({Kid(true, gate && !p.optional, p.annotation.value)}) <==>
        ParamMentions(p, gate, o.name, o.flips, o.strict)
    {
      ParamKidMentions(p, gate, o);
    }
    if p :| p in params && ParamMentions(p, gate, o.name, o.flips, o.strict) {
      assert Kid(true, gate && !p.optional, p.annotation.value) in ParamKids(params, gate);
    }
  }

  lemma {:induction false} TypeKidsMention(t: Option<TypeNode>, given: bool, o: Occurrence)
    ensures o in InKids(TypeKids(t, given)) <==> t.Some? && MentionsIf(given, t.value, o.name, o.flips, o.strict)
    decreases t, 0
  {
    if t.Some? {
      KidMentions(Kid(false, given, t.value), o);
    }
  }

  lemma InBoth(a: set<Kid>, b: set<Kid>, o: Occurrence)
    ensures o in InKids(a + b) <==> o in InKids(a) || o in InKids(b)
  {
    InOfKids(a + b, o);
    InOfKids(a, o);
    InOfKids(b, o);
  }

  lemma {:induction false} ElementKidsMention(e: TypeElement, mode: ForcedMode, o: Occurrence)
    ensures o in InKids(ElementKids(e, mode, None, None)) <==> ElementMentions(e, mode, o.name, o.flips, o.strict)
    decreases e, 0
  {
    match e
    case IndexSignature(value) => KidMentions(Kid(false, true, value), o);
    case Property(_, optional, annotation) => TypeKidsMention(annotation, !IsOptional(mode, optional), o);
    case Method(key, optional, params, result) =>
      var own := !IsOptional(mode, optional);
      ParamKidsMention(params, own && CalleeExisted(None, None, MemberName(key)), o);
      TypeKidsMention(result, own, o);
      InBoth(ParamKids(params, own && CalleeExisted(None, None, MemberName(key))), TypeKids(result, own), o);
    case OtherElement =>
  }

  lemma {:induction false} ElementsKidsMention(elements: seq<TypeElement>, mode: ForcedMode, o: Occurrence)
    ensures o in InKids(ElementsKids(elements, mode, None, None)) <==> Mentioned(Literal(elements), mode, o)
    decreases elements, 0
  {
    InOfKids(ElementsKids(elements, mode, None, None), o);
    forall e | e in elements
      ensures o in InKids(ElementKids(e, mode, None, None)) <==> ElementMentions(e, mode, o.name, o.flips, o.strict)
    {
      ElementKidsMention(e, mode, o);
      InOfKids(ElementKids(e, mode, None, None), o);
    }
  }

  lemma {:induction false} PeeledMentions(t: TypeNode, mode: ForcedMode, o: Occurrence)
    ensures var peeled := Peel(t, mode);
            Mentioned(t, mode, o) <==>
              (peeled.node.Ref? && o == Occurrence(peeled.node.name, false, true)) || o in InKids(PeeledKids(peeled))
    decreases t, 0
  {
    match t
    case Paren(inner) => PeeledMentions(inner, mode, o);
    case Ref(name, args) =>
      if args != [] && WrapperEffect(name, mode).Some? {
        PeeledMentions(args[0], WrapperEffect(name, mode).value, o);
      } else {
        EachKidMentions(args, o);
      }
    case Literal(elements) => ElementsKidsMention(elements, mode, o);
    case Func(params, result) =>
      ParamKidsMention(params, true, o);
      KidMentions(Kid(false, true, result), o);
      InBoth(ParamKids(params, true), {Kid(false, true, result)}, o);
    case Union(types) => EachKidMentions(types, o);
    case Intersection(types) => EachKidMentions(types, o);
    case Array(element) => KidMentions(Kid(false, true, element), o);
    case Tuple(slots) => EachKidMentions(slots, o);
    case Mapped(template) => TypeKidsMention(template, true, o);
    case Leaf =>
  }

  /** What occurs in a type is what its syntax mentions. */
  lemma {:induction false} InIffMentioned(t: TypeNode, o: Occurrence)
    ensures o in In(t) <==> Mentions(t, AsWritten, o.name, o.flips, o.strict)
    decreases t, 1
  {
    PeeledMentions(t, AsWritten, o);
    assert o in In(t) <==> o in OwnReference(t) || o in InKids(NodeKids(t));
  }

  // ---------- declarations and functions ----------

  /** There is no before, or the callable existed there. */
  predicate Before(existing: Option<set<CallableKey>>, key: CallableKey) {
    existing == None || key in existing.value
  }

  /** The method of this owner is no new callable; one without a usable name never is. */
  predicate MethodBefore(existing: Option<set<CallableKey>>, owner: string, key: PropertyName) {
    match key
    case Plain(text) => Before(existing, Member(owner, text))
    case Computed(expression) => Before(existing, Member(owner, "[" + expression + "]"))
    case Private(_) => true
  }

  ghost predicate InterfaceElementMentions(existing: Option<set<CallableKey>>, owner: string, e: TypeElement,
                                           name: string, flips: bool, strict: bool)
  {
    match e
    case IndexSignature(value) => Mentions(value, AsWritten, name, flips, strict)
    case Property(_, optional, annotation) =>
      annotation.Some? && MentionsIf(!optional, annotation.value, name, flips, strict)
    case Method(key, optional, params, result) =>
      SomeParamMentions(params, !optional && MethodBefore(existing, owner, key), name, flips, strict) ||
      (result.Some? && MentionsIf(!optional, result.value, name, flips, strict))
    case OtherElement => false
  }

  /** Only what is neither `private` nor `#private` is visible. */
  ghost predicate ClassElementMentions(existing: Option<set<CallableKey>>, owner: string, m: ClassElement,
                                       name: string, flips: bool, strict: bool)
  {
    match m
    case Constructor(isPrivate, params) =>
      !isPrivate && SomeParamMentions(params, Before(existing, Member(owner, "constructor")), name, flips, strict)
    case Field(key, isPrivate, _, optional, annotation) =>
      !isPrivate && !key.Private? &&
      annotation.Some? && MentionsIf(!optional, annotation.value, name, flips, strict)
    case Accessor(key, isPrivate, _, annotation) =>
      !isPrivate && !key.Private? && annotation.Some? && Mentions(annotation.value, AsWritten, name, flips, strict)
    case ClassMethod(key, isPrivate, _, optional, params, result) =>
      !isPrivate && !key.Private? &&
      (SomeParamMentions(params, !optional && MethodBefore(existing, owner, key), name, flips, strict) ||
       (result.Some? && MentionsIf(!optional, result.value, name, flips, strict)))
    case OtherClassElement => false
  }

  /** What the declaration of `n` mentions. */
  ghost predicate DeclarationMentions(view: View, n: string, name: string, flips: bool, strict: bool) {
    n in view.surface.declarations &&
    match view.surface.declarations[n]
    case Alias(body) => Mentions(body, AsWritten, name, flips, strict)
    case Interface(elements) =>
      exists e | e in elements :: InterfaceElementMentions(view.existing, n, e, name, flips, strict)
    case Class(members) =>
      exists m | m in members :: ClassElementMentions(view.existing, n, m, name, flips, strict)
  }

  /** What a top-level function mentions. */
  ghost predicate FunctionMentions(view: View, f: FunctionDeclaration, name: string, flips: bool, strict: bool) {
    SomeParamMentions(f.params, Before(view.existing, TopLevel(f.name)), name, flips, strict) ||
    (f.result.Some? && Mentions(f.result.value, AsWritten, name, flips, strict))
  }

  lemma InterfaceElementIff(existing: Option<set<CallableKey>>, owner: string, e: TypeElement, o: Occurrence)
    ensures o in InKids(ElementKids(e, AsWritten, Some(owner), existing)) <==>
      InterfaceElementMentions(existing, owner, e, o.name, o.flips, o.strict)
  {
    match e
    case IndexSignature(value) => KidMentions(Kid(false, true, value), o);
    case Property(_, optional, annotation) => TypeKidsMention(annotation, !optional, o);
    case Method(key, optional, params, result) =>
      var gate := !optional && CalleeExisted(existing, Some(owner), MemberName(key));
      assert gate == (!optional && MethodBefore(existing, owner, key));
      ParamKidsMention(params, gate, o);
      TypeKidsMention(result, !optional, o);
      InBoth(ParamKids(params, gate), TypeKids(result, !optional), o);
    case OtherElement =>
  }

  lemma ClassElementIff(existing: Option<set<CallableKey>>, owner: string, m: ClassElement, o: Occurrence)
    ensures o in InKids(ClassElementKids(m, owner, existing)) <==>
      ClassElementMentions(existing, owner, m, o.name, o.flips, o.strict)
  {
    match m
    case Constructor(_, params) =>
      ParamKidsMention(params, CalleeExisted(existing, Some(owner), Some("constructor")), o);
    case Field(_, _, _, optional, annotation) => TypeKidsMention(annotation, !optional, o);
    case Accessor(_, _, _, annotation) => TypeKidsMention(annotation, true, o);
    case ClassMethod(key, _, _, optional, params, result) =>
      var gate := !optional && CalleeExisted(existing, Some(owner), MemberName(key));
      assert gate == (!optional && MethodBefore(existing, owner, key));
      ParamKidsMention(params, gate, o);
      TypeKidsMention(result, !optional, o);
      InBoth(ParamKids(params, gate), TypeKids(result, !optional), o);
    case OtherClassElement =>
  }

  lemma InterfaceKidsIff(elements: seq<TypeElement>, owner: string, existing: Option<set<CallableKey>>, o: Occurrence)
    ensures o in InKids(ElementsKids(elements, AsWritten, Some(owner), existing)) <==>
      exists e :: e in elements && InterfaceElementMentions(existing, owner, e, o.name, o.flips, o.strict)
  {
    InOfKids(ElementsKids(elements, AsWritten, Some(owner), existing), o);
    forall e | e in elements
      ensures o in InKids(ElementKids(e, AsWritten, Some(owner), existing)) <==>
        InterfaceElementMentions(existing, owner, e, o.name, o.flips, o.strict)
    {
      InterfaceElementIff(existing, owner, e, o);
      InOfKids(ElementKids(e, AsWritten, Some(owner), existing), o);
    }
  }

  lemma ClassKidsIff(members: seq<ClassElement>, owner: string, existing: Option<set<CallableKey>>, o: Occurrence)
    ensures o in InKids(ClassKids(members, owner, existing)) <==>
      exists m :: m in members && ClassElementMentions(existing, owner, m, o.name, o.flips, o.strict)
  {
    InOfKids(ClassKids(members, owner, existing), o);
    forall m | m in members
      ensures o in InKids(ClassElementKids(m, owner, existing)) <==>
        ClassElementMentions(existing, owner, m, o.name, o.flips, o.strict)
    {
      ClassElementIff(existing, owner, m, o);
      InOfKids(ClassElementKids(m, owner, existing), o);
    }
  }

  /** What occurs in a declaration is what it mentions. */
  lemma DeclarationIffMentioned(view: View, n: string, o: Occurrence)
    ensures o in DeclarationOccurrences(view, n) <==> DeclarationMentions(view, n, o.name, o.flips, o.strict)
  {
    if n in view.surface.declarations {
      match view.surface.declarations[n]
      case Alias(body) => KidMentions(Kid(false, true, body), o);
      case Interface(elements) => InterfaceKidsIff(elements, n, view.existing, o);
      case Class(members) => ClassKidsIff(members, n, view.existing, o);
    }
  }

  lemma FunctionKidsIff(view: View, f: FunctionDeclaration, o: Occurrence)
    ensures o in InKids(FunctionKids(f, view.existing)) <==> FunctionMentions(view, f, o.name, o.flips, o.strict)
  {
    ParamKidsMention(f.params, KeyExisted(view.existing, TopLevel(f.name)), o);
    TypeKidsMention(f.result, true, o);
    InBoth(ParamKids(f.params, KeyExisted(view.existing, TopLevel(f.name))), TypeKids(f.result, true), o);
  }

  /** What occurs in the functions is what one of them mentions. */
  lemma FunctionsIffMentioned(view: View, o: Occurrence)
    ensures o in FunctionOccurrences(view) <==>
      exists f :: f in view.surface.functions && FunctionMentions(view, f, o.name, o.flips, o.strict)
  {
    forall f | f in view.surface.functions
      ensures o in InKids(FunctionKids(f, view.existing)) <==> FunctionMentions(view, f, o.name, o.flips, o.strict)
    {
      FunctionKidsIff(view, f, o);
    }
  }

  // ---------- hard names, from the syntax alone ----------

  /** A set of names is demanding if it has what functions and declarations mention below an odd
      number of parameter positions, and what its own names mention below an even number, with
      nothing optional or new on the way. */
  ghost predicate Demanding(view: View, names: iset<string>) {
    (forall f, n :: f in view.surface.functions && FunctionMentions(view, f, n, true, true) ==> n in names) &&
    (forall d, n :: DeclarationMentions(view, d, n, true, true) ==> n in names) &&
    (forall d, n :: d in names && DeclarationMentions(view, d, n, false, true) ==> n in names)
  }

  ghost function HardOnes(view: View): iset<string> {
    iset n | HardContravariant(view, n)
  }

  lemma HardIsDemanding(view: View)
    ensures Demanding(view, HardOnes(view))
  {
    forall f, n | f in view.surface.functions && FunctionMentions(view, f, n, true, true)
      ensures HardContravariant(view, n)
    {
      FunctionsIffMentioned(view, Occurrence(n, true, true));
      FunctionReached(view, Occurrence(n, true, true));
      HardIffOddChain(view, n);
    }
    forall d, n | DeclarationMentions(view, d, n, true, true) ensures HardContravariant(view, n) {
      DeclarationIffMentioned(view, d, Occurrence(n, true, true));
      SeedReached(view, d);
      ReachedThrough(view, d, false, Occurrence(n, true, true));
      HardIffOddChain(view, n);
    }
    forall d, n | HardContravariant(view, d) && DeclarationMentions(view, d, n, false, true)
      ensures HardContravariant(view, n)
    {
      DeclarationIffMentioned(view, d, Occurrence(n, false, true));
      HardIffOddChain(view, d);
      ReachedThrough(view, d, true, Occurrence(n, false, true));
      HardIffOddChain(view, n);
    }
  }

  lemma FunctionLinkInside(view: View, names: iset<string>, o: Occurrence)
    requires Demanding(view, names) && o in FunctionOccurrences(view) && o.strict && o.flips
    ensures o.name in names
  {
    FunctionsIffMentioned(view, o);
  }

  lemma LinkInside(view: View, names: iset<string>, n: string, odd: bool, o: Occurrence)
    requires Demanding(view, names) && o in DeclarationOccurrences(view, n) && o.strict && odd != o.flips
    requires odd ==> n in names
    ensures o.name in names
  {
    DeclarationIffMentioned(view, n, o);
  }

  /** The last link of an odd chain, and the chain before it. */
  lemma LastLink(view: View, start: Option<string>, links: seq<Occurrence>)
    requires Chain(view, start, links) && Strict(links) && Odd(links)
    ensures var rest, o := links[..|links| - 1], links[|links| - 1];
            o.strict && End(start, links) == o.name && Odd(rest) != o.flips &&
            if rest == [] && start.None? then o in FunctionOccurrences(view) && !Odd(rest)
            else Chain(view, start, rest) && Strict(rest) && o in DeclarationOccurrences(view, End(start, rest))
  {
    var o := links[|links| - 1];
    assert o in links;
    if |links| == 1 && start.None? {
      assert o in LinksFrom(view, start, links, 0);
    } else {
      ChainShortens(view, start, links);
    }
  }

  lemma {:induction false} OddChainInside(view: View, names: iset<string>, start: Option<string>,
                                          links: seq<Occurrence>)
    requires Demanding(view, names) && Chain(view, start, links) && Strict(links) && Odd(links)
    ensures End(start, links) in names
    decreases |links|
  {
    var rest, o := links[..|links| - 1], links[|links| - 1];
    LastLink(view, start, links);
    if rest == [] && start.None? {
      FunctionLinkInside(view, names, o);
    } else {
      if Odd(rest) {
        OddChainInside(view, names, start, rest);
      }
      LinkInside(view, names, End(start, rest), Odd(rest), o);
    }
  }

  /** The hard names, which the walk computes, are the least demanding set. */
  lemma HardIsLeastDemanding(view: View, names: iset<string>)
    requires Demanding(view, names)
    ensures HardOnes(view) <= names && Demanding(view, HardOnes(view))
  {
    HardIsDemanding(view);
    forall n | HardContravariant(view, n) ensures n in names {
      HardIffOddChain(view, n);
      var start, links :| Chain(view, start, links) && Strict(links) && End(start, links) == n && Odd(links);
      OddChainInside(view, names, start, links);
    }
  }

  /** What a mandatory callback of a hard record returns is hard: its callers have to make it. */
  lemma CallbackResultIsHard(view: View, n: string, elements: seq<TypeElement>, key: PropertyName, params: seq<Param>,
                             result: TypeNode, r: string)
    requires n in view.surface.declarations && HardContravariant(view, n)
    requires view.surface.declarations[n] == Alias(Ref("Readonly", [Literal(elements)]))
    requires Property(key, false, Some(Func(params, result))) in elements
    requires Mentions(result, AsWritten, r, false, true)
    ensures HardContravariant(view, r)
  {
    var e := Property(key, false, Some(Func(params, result)));
    assert ElementMentions(e, AsWritten, r, false, true);
    var t := Ref("Readonly", [Literal(elements)]);
    assert Mentions(t.args[0], AsWritten, r, false, true);
    assert DeclarationMentions(view, n, r, false, true);
    HardIsDemanding(view);
    assert n in HardOnes(view);
  }
}
