/** What the computed member maps say about the values of a type.

    A value either has no fields or is an object; a type denotes a set of values, following
    TypeScript's own rule that the outermost `Partial` or `Required` decides. Types the
    checker does not expand (references, functions, arrays, mapped types, keywords) get
    their values from an arbitrary parameter `leaf`.
 */
module ValueSemantics {
  import opened Syntax
  import opened MemberMaps
  import opened MemberResolution

  datatype Value = Atom | Object(fields: map<string, Value>)

  type LeafSemantics = (TypeNode, ForcedMode, Value) -> bool

  predicate Present(v: Value, p: Path) {
    p == [] || (v.Object? && p[0] in v.fields && Present(v.fields[p[0]], p[1..]))
  }

  /** TypeScript's reading of a wrapper: once a mode is set, inner wrappers do not change it. */
  function OuterEffect(name: string, mode: ForcedMode): Option<ForcedMode> {
    match WrapperEffect(name, mode)
    case None => None
    case Some(inner) => Some(if mode == AsWritten then inner else mode)
  }

  /** The mode TypeScript applies to the node left after peeling. */
  function OuterMode(t: TypeNode, mode: ForcedMode): ForcedMode {
    match t
    case Paren(inner) => OuterMode(inner, mode)
    case Ref(name, args) =>
      if args == [] then mode
      else (match OuterEffect(name, mode)
            case None => mode
            case Some(next) => OuterMode(args[0], next))
    case _ => mode
  }

  function ElementKey(e: TypeElement): Option<string> {
    match e
    case IndexSignature(_) => Some(INDEX_NAME)
    case Property(key, _, _) => MemberName(key)
    case Method(key, _, _, _) => MemberName(key)
    case OtherElement => None
  }

  predicate Named(e: TypeElement) {
    (e.Property? || e.Method?) && MemberName(e.key).Some?
  }

  ghost predicate Inhabits(leaf: LeafSemantics, v: Value, t: TypeNode, mode: ForcedMode)
    decreases t
  {
    match t
    case Paren(inner) => Inhabits(leaf, v, inner, mode)
    case Ref(name, args) =>
      if args == [] then leaf(t, mode, v)
      else (match OuterEffect(name, mode)
            case None => leaf(t, mode, v)
            case Some(next) => Inhabits(leaf, v, args[0], next))
    case Literal(elements) => v.Object? && forall e | e in elements :: Satisfies(leaf, v.fields, e, elements, mode)
    case Union(types) => exists u | u in types :: Inhabits(leaf, v, u, mode)
    case Intersection(types) => forall u | u in types :: Inhabits(leaf, v, u, mode)
    case _ => leaf(t, mode, v)
  }

  /** What one element of a literal demands of an object's fields. */
  ghost predicate Satisfies(leaf: LeafSemantics, fields: map<string, Value>, e: TypeElement, all: seq<TypeElement>,
                            mode: ForcedMode)
    decreases e
  {
    match e
    case IndexSignature(value) =>
      forall n | n in fields && !(exists d | d in all :: Named(d) && MemberName(d.key) == Some(n)) ::
        Inhabits(leaf, fields[n], value, AsWritten)
    case Property(key, optional, annotation) =>
      MemberName(key).Some? ==>
        var n := MemberName(key).value;
        if n in fields then annotation.Some? ==> Inhabits(leaf, fields[n], annotation.value, AsWritten)
        else IsOptional(mode, optional)
    case Method(key, optional, _, _) =>
      MemberName(key).Some? && MemberName(key).value !in fields ==> IsOptional(mode, optional)
    case OtherElement => true
  }

  lemma {:induction false} InhabitsPeeled(leaf: LeafSemantics, v: Value, t: TypeNode, mode: ForcedMode,
                                          start: ForcedMode)
    ensures Inhabits(leaf, v, t, mode) <==> Inhabits(leaf, v, Peel(t, start).node, OuterMode(t, mode))
    decreases t
  {
    match t
    case Paren(inner) => InhabitsPeeled(leaf, v, inner, mode, start);
    case Ref(name, args) =>
      if args != [] && WrapperEffect(name, mode).Some? {
        InhabitsPeeled(leaf, v, args[0], OuterEffect(name, mode).value, WrapperEffect(name, start).value);
      }
    case _ =>
  }

  // ---------- soundness ----------

  /** No `Partial` that TypeScript honours is lost: it is not overruled by an inner `Required`,
      and it is not put on a union or an intersection. */
  predicate KeepsPartial(t: TypeNode)
    decreases t, 1
  {
    var Peeled(node, mode) := Peel(t, AsWritten);
    var outer := OuterMode(t, AsWritten);
    match node
    case Literal(elements) => (outer == AllOptional ==> mode == AllOptional) && ElementsKeepPartial(elements)
    case Union(types) => outer != AllOptional && forall u | u in types :: KeepsPartial(u)
    case Intersection(types) => outer != AllOptional && forall u | u in types :: KeepsPartial(u)
    case _ => true
  }

  predicate ElementsKeepPartial(elements: seq<TypeElement>)
    decreases elements, 0
  {
    forall e | e in elements :: ElementKeepsPartial(e)
  }

  predicate ElementKeepsPartial(e: TypeElement)
    decreases e, 0
  {
    e.Property? && e.annotation.Some? ==> KeepsPartial(e.annotation.value)
  }

  lemma {:induction false} FromSomeElement(elements: seq<TypeElement>, mode: ForcedMode,
                                           p: Path)
    returns (e: TypeElement)
    requires p in LiteralMembers(elements, mode)
    ensures e in elements && p in ElementMembers(e, mode)
    ensures LiteralMembers(elements, mode)[p] == ElementMembers(e, mode)[p]
  {
    e := elements[|elements| - 1];
    if p !in ElementMembers(e, mode) {
      e := FromSomeElement(elements[..|elements| - 1], mode, p);
    }
  }

  lemma OuterModeKeepsNonPartial(t: TypeNode, mode: ForcedMode)
    requires mode != AsWritten
    ensures OuterMode(t, mode) == mode
  {}

  /** A literal read under `outer` imposes at least what the checker recorded under `mode`. */
  predicate NoWeaker(mode: ForcedMode, outer: ForcedMode) {
    outer == AllRequired || mode == AllOptional || (outer == AsWritten && mode == AsWritten)
  }

  lemma PeelKeepsTouched(t: TypeNode, mode: ForcedMode)
    requires mode != AsWritten
    ensures Peel(t, mode).mode != AsWritten
    decreases t
  {}

  lemma {:induction false} UntouchedTogether(t: TypeNode)
    ensures OuterMode(t, AsWritten) == AsWritten <==> Peel(t, AsWritten).mode == AsWritten
    decreases t
  {
    match t
    case Paren(inner) => UntouchedTogether(inner);
    case Ref(name, args) =>
      if args != [] && WrapperEffect(name, AsWritten).Some? {
        if name == "Readonly" {
          UntouchedTogether(args[0]);
        } else {
          var mode := WrapperEffect(name, AsWritten).value;
          OuterModeKeepsNonPartial(args[0], mode);
          PeelKeepsTouched(args[0], mode);
        }
      }
    case _ =>
  }

  lemma {:induction false} ModesCompare(t: TypeNode, start: ForcedMode, context: ForcedMode)
    requires start == AsWritten && context != AllOptional
    requires OuterMode(t, AsWritten) == AllOptional ==> Peel(t, AsWritten).mode == AllOptional
    ensures NoWeaker(Peel(t, start).mode, OuterMode(t, context))
  {
    UntouchedTogether(t);
    if context != AsWritten {
      OuterModeKeepsNonPartial(t, context);
    }
  }

  lemma RequiredOfUnion(types: seq<TypeNode>, u: TypeNode, p: Path)
    requires u in types && p in Required(MergeUnion(ResolveEach(types)))
    ensures p in Required(Resolve(u))
  {
    RequiredSets(ResolveEach(types), p);
    var i :| 0 <= i < |types| && types[i] == u;
    assert ResolveEach(types)[i] in ResolveEach(types);
  }

  lemma RequiredOfIntersection(types: seq<TypeNode>, p: Path) returns (u: TypeNode)
    requires p in Required(MergeIntersection(ResolveEach(types)))
    ensures u in types && p in Required(Resolve(u))
  {
    var maps := ResolveEach(types);
    var m :| m in maps && p in Required(m) by {
      RequiredSets(maps, p);
    }
    var i :| 0 <= i < |maps| && maps[i] == m;
    u := types[i];
  }

  lemma InnerContext(t: TypeNode, context: ForcedMode)
    requires OuterMode(t, AsWritten) != AllOptional && context != AllOptional
    ensures OuterMode(t, context) != AllOptional
  {
    if context != AsWritten {
      OuterModeKeepsNonPartial(t, context);
    }
  }

  /** Every path the checker marks required is present in every value of the type. */
  lemma {:induction false} RequiredIsPresent(leaf: LeafSemantics, v: Value, t: TypeNode, context: ForcedMode, p: Path)
    requires KeepsPartial(t) && context != AllOptional
    requires Inhabits(leaf, v, t, context)
    requires p in Required(Resolve(t))
    ensures Present(v, p)
    decreases t
  {
    InhabitsPeeled(leaf, v, t, context, AsWritten);
    var Peeled(node, mode) := Peel(t, AsWritten);
    var outer := OuterMode(t, context);
    match node
    case Literal(elements) =>
      ModesCompare(t, AsWritten, context);
      var e := FromSomeElement(elements, mode, p);
      ElementIsPresent(leaf, v, elements, e, mode, outer, p);
    case Union(types) =>
      var u :| u in types && Inhabits(leaf, v, u, outer);
      InnerContext(t, context);
      RequiredOfUnion(types, u, p);
      RequiredIsPresent(leaf, v, u, outer, p);
    case Intersection(types) =>
      InnerContext(t, context);
      var u := RequiredOfIntersection(types, p);
      RequiredIsPresent(leaf, v, u, outer, p);
    case _ =>
  }

  lemma {:induction false} ElementIsPresent(leaf: LeafSemantics, v: Value, elements: seq<TypeElement>, e: TypeElement,
                                            mode: ForcedMode, outer: ForcedMode, p: Path)
    requires e in elements && ElementsKeepPartial(elements)
    requires v.Object? && Satisfies(leaf, v.fields, e, elements, outer)
    requires NoWeaker(mode, outer)
    requires p in Required(ElementMembers(e, mode))
    ensures Present(v, p)
    decreases e
  {
    var n := p[0];
    assert n in v.fields;
    if p[1..] != [] {
      assert p != [n];
      RequiredIsPresent(leaf, v.fields[n], e.annotation.value, AsWritten, p[1..]);
    }
  }
}
