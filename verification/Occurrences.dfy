/** Variance, stated without a traversal.

    An occurrence of a name inside a piece of syntax has two attributes of its own: whether
    an odd number of parameter positions lies above it (`flips`), and whether nothing
    optional and no new callable lies above it (`strict`). Occurrences compose along the
    nesting, and chains of occurrences from declaration to declaration decide which names
    are contravariant.
 */
module Occurrences {
  import opened Syntax

  datatype Polarity = Plus | Minus

  function Flip(p: Polarity): Polarity {
    if p.Plus? then Minus else Plus
  }

  function Turn(p: Polarity, flips: bool): Polarity {
    if flips then Flip(p) else p
  }

  datatype Occurrence = Occurrence(name: string, flips: bool, strict: bool)

  /** An immediate constituent and its position below its parent. */
  datatype Kid = Kid(flips: bool, strict: bool, node: TypeNode)

  function Through(k: Kid, o: Occurrence): Occurrence {
    Occurrence(o.name, k.flips != o.flips, k.strict && o.strict)
  }

  /** A report body, and the callables that existed before; `None` when there is no before. */
  datatype View = View(surface: Surface, existing: Option<set<CallableKey>>)

  datatype State = State(name: string, polarity: Polarity, mandatory: bool)

  function At(p: Polarity, mandatory: bool, o: Occurrence): State {
    State(o.name, Turn(p, o.flips), mandatory && o.strict)
  }

  // ---------- constituents ----------

  predicate KeyExisted(existing: Option<set<CallableKey>>, key: CallableKey) {
    existing.Some? ==> key in existing.value
  }

  predicate CalleeExisted(existing: Option<set<CallableKey>>, owner: Option<string>, member: Option<string>) {
    owner.Some? && member.Some? ==> KeyExisted(existing, Member(owner.value, member.value))
  }

  function ParamKids(params: seq<Param>, strict: bool): set<Kid> {
    set p | p in params && p.annotation.Some? :: Kid(true, strict && !p.optional, p.annotation.value)
  }

  function TypeKids(annotation: Option<TypeNode>, strict: bool): set<Kid> {
    if annotation.Some? then {Kid(false, strict, annotation.value)} else {}
  }

  function EachKid(types: seq<TypeNode>): set<Kid> {
    set t | t in types :: Kid(false, true, t)
  }

  function ElementKids(e: TypeElement, mode: ForcedMode, owner: Option<string>,
                       existing: Option<set<CallableKey>>): set<Kid> {
    match e
    case IndexSignature(value) => {Kid(false, true, value)}
    case Property(_, optional, annotation) => TypeKids(annotation, !IsOptional(mode, optional))
    case Method(key, optional, params, result) =>
      var own := !IsOptional(mode, optional);
      ParamKids(params, own && CalleeExisted(existing, owner, MemberName(key))) + TypeKids(result, own)
    case OtherElement => {}
  }

  function ElementsKids(elements: seq<TypeElement>, mode: ForcedMode, owner: Option<string>,
                        existing: Option<set<CallableKey>>): set<Kid> {
    set e, k | e in elements && k in ElementKids(e, mode, owner, existing) :: k
  }

  function ClassElementKids(member: ClassElement, owner: string, existing: Option<set<CallableKey>>): set<Kid> {
    if Hidden(member) then {} else
    match member
    case Constructor(_, params) => ParamKids(params, CalleeExisted(existing, Some(owner), Some("constructor")))
    case Field(_, _, _, optional, annotation) => TypeKids(annotation, !optional)
    case Accessor(_, _, _, annotation) => TypeKids(annotation, true)
    case ClassMethod(key, _, _, optional, params, result) =>
      ParamKids(params, !optional && CalleeExisted(existing, Some(owner), MemberName(key))) +
        TypeKids(result, !optional)
    case OtherClassElement => {}
  }

  function ClassKids(members: seq<ClassElement>, owner: string, existing: Option<set<CallableKey>>): set<Kid> {
    set m, k | m in members && k in ClassElementKids(m, owner, existing) :: k
  }

  function FunctionKids(f: FunctionDeclaration, existing: Option<set<CallableKey>>): set<Kid> {
    ParamKids(f.params, KeyExisted(existing, TopLevel(f.name))) + TypeKids(f.result, true)
  }

  function DeclarationKids(name: string, d: Declaration, existing: Option<set<CallableKey>>): set<Kid> {
    match d
    case Alias(body) => {Kid(false, true, body)}
    case Interface(elements) => ElementsKids(elements, AsWritten, Some(name), existing)
    case Class(members) => ClassKids(members, name, existing)
  }

  lemma ElementsSmaller(elements: seq<TypeElement>, mode: ForcedMode)
    ensures forall k :: k in ElementsKids(elements, mode, None, None) ==> k.node < Literal(elements)
  {
    forall e, k | e in elements && k in ElementKids(e, mode, None, None)
      ensures k.node < Literal(elements)
    {
      assert k.node < e;
    }
  }

  /** The constituents of a peeled node; an anonymous literal has no owner, so its methods are
      never gated. */
  function PeeledKids(peeled: Peeled): (kids: set<Kid>)
    ensures forall k :: k in kids ==> k.node < peeled.node
  {
    match peeled.node
    case Ref(_, args) => EachKid(args)
    case Literal(elements) =>
      ElementsSmaller(elements, peeled.mode);
      ElementsKids(elements, peeled.mode, None, None)
    case Func(params, result) => ParamKids(params, true) + {Kid(false, true, result)}
    case Union(types) => EachKid(types)
    case Intersection(types) => EachKid(types)
    case Array(element) => {Kid(false, true, element)}
    case Tuple(slots) => EachKid(slots)
    case Mapped(template) => TypeKids(template, true)
    case _ => {}
  }

  function NodeKids(t: TypeNode): (kids: set<Kid>)
    ensures forall k :: k in kids ==> k.node < t
  {
    PeeledKids(Peel(t, AsWritten))
  }

  // ---------- occurrences and chains ----------

  function OwnReference(t: TypeNode): set<Occurrence> {
    var node := Peel(t, AsWritten).node;
    if node.Ref? then {Occurrence(node.name, false, true)} else {}
  }

  /** Every occurrence of a name in a type. */
  ghost function In(t: TypeNode): set<Occurrence>
    decreases t
  {
    OwnReference(t) + set k, o | k in NodeKids(t) && o in In(k.node) :: Through(k, o)
  }

  ghost function InKids(kids: set<Kid>): set<Occurrence> {
    set k, o | k in kids && o in In(k.node) :: Through(k, o)
  }

  ghost function DeclarationOccurrences(view: View, name: string): set<Occurrence> {
    if name in view.surface.declarations
    then InKids(DeclarationKids(name, view.surface.declarations[name], view.existing))
    else {}
  }

  ghost function FunctionOccurrences(view: View): set<Occurrence> {
    set f, o | f in view.surface.functions && o in InKids(FunctionKids(f, view.existing)) :: o
  }

  /** Every declaration is read covariantly; every function is called. */
  ghost function Seeds(view: View): set<State> {
    (set n | n in view.surface.declarations :: State(n, Plus, true)) +
    (set o | o in FunctionOccurrences(view) :: At(Plus, true, o))
  }

  ghost function Next(view: View, s: State): set<State> {
    set o | o in DeclarationOccurrences(view, s.name) :: At(s.polarity, s.mandatory, o)
  }

  /** A chain of occurrences that starts at a seed. */
  ghost predicate Derivation(view: View, d: seq<State>) {
    d != [] && d[0] in Seeds(view) && forall i :: 0 <= i < |d| - 1 ==> d[i + 1] in Next(view, d[i])
  }

  ghost predicate Derivable(view: View, s: State) {
    exists d :: Derivation(view, d) && d[|d| - 1] == s
  }

  /** Contravariant by a chain on which nothing may be left out. */
  ghost predicate HardContravariant(view: View, name: string) {
    Derivable(view, State(name, Minus, true))
  }

  ghost predicate Closed(view: View, states: set<State>) {
    forall s {:trigger Next(view, s)} :: s in states ==> Next(view, s) <= states
  }

  lemma DerivableSeed(view: View, s: State)
    requires s in Seeds(view)
    ensures Derivable(view, s)
  {
    assert Derivation(view, [s]);
  }

  lemma DerivableNext(view: View, s: State, t: State)
    requires Derivable(view, s) && t in Next(view, s)
    ensures Derivable(view, t)
  {
    var d :| Derivation(view, d) && d[|d| - 1] == s;
    var e := d + [t];
    forall i | 0 <= i < |e| - 1 ensures e[i + 1] in Next(view, e[i]) {
      if i < |d| - 1 {
        assert e[i + 1] == d[i + 1];
      }
    }
    assert Derivation(view, e);
  }

  lemma {:induction false} ChainStaysIn(view: View, closed: set<State>, d: seq<State>, i: nat)
    requires Seeds(view) <= closed
    requires Closed(view, closed)
    requires Derivation(view, d) && i < |d|
    ensures d[i] in closed
  {
    if i > 0 {
      ChainStaysIn(view, closed, d, i - 1);
      assert d[i - 1 + 1] in Next(view, d[i - 1]);
    }
  }

  /** Any set that has the seeds and is closed under steps has everything derivable. */
  lemma {:induction false} LeastFixpoint(view: View, closed: set<State>, s: State)
    requires Seeds(view) <= closed
    requires Closed(view, closed)
    requires Derivable(view, s)
    ensures s in closed
  {
    var d :| Derivation(view, d) && d[|d| - 1] == s;
    ChainStaysIn(view, closed, d, |d| - 1);
  }

  /** The names that occur anywhere in a surface. */
  ghost function Names(view: View): set<string> {
    view.surface.declarations.Keys +
    (set o | o in FunctionOccurrences(view) :: o.name) +
    (set n, o | n in view.surface.declarations.Keys && o in DeclarationOccurrences(view, n) :: o.name)
  }

  /** The derivable states, as a finite set. */
  ghost function Reach(view: View): (r: set<State>)
    ensures forall s :: s in r <==> Derivable(view, s)
  {
    var universe := set n, p, m | n in Names(view) && p in {Plus, Minus} && m in {false, true} :: State(n, p, m);
    forall s | Derivable(view, s) ensures s in universe {
      LeastFixpoint(view, universe, s);
    }
    set s | s in universe && Derivable(view, s)
  }

  lemma ReachClosed(view: View)
    ensures Seeds(view) <= Reach(view)
    ensures Closed(view, Reach(view))
  {
    forall s | s in Seeds(view) { DerivableSeed(view, s); }
    forall s, t | s in Reach(view) && t in Next(view, s) ensures t in Reach(view) {
      DerivableNext(view, s, t);
    }
  }

  lemma ClosedIsAll(view: View, states: set<State>)
    requires Seeds(view) <= states <= Reach(view) && Closed(view, states)
    ensures states == Reach(view)
  {
    forall s | s in Reach(view) ensures s in states {
      LeastFixpoint(view, states, s);
    }
  }

  lemma UngatedWithoutOwner(elements: seq<TypeElement>, mode: ForcedMode, existing: Option<set<CallableKey>>)
    ensures ElementsKids(elements, mode, None, existing) == ElementsKids(elements, mode, None, None)
  {
    forall e ensures ElementKids(e, mode, None, existing) == ElementKids(e, mode, None, None) {}
  }
}
