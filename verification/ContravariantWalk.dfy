/** The memoised depth-first walk of `computeContravariantNames`, proved to visit exactly the
    derivable states. */
module ContravariantWalk {
  import opened Syntax
  import opened Occurrences

  /** All occurrences in `t`, seen from a polarity and a mandatory flag, are states in `states`. */
  ghost predicate CoversNode(states: set<State>, t: TypeNode, p: Polarity, mandatory: bool) {
    forall o :: o in In(t) ==> At(p, mandatory, o) in states
  }

  ghost predicate Covers(states: set<State>, kids: set<Kid>, p: Polarity, mandatory: bool) {
    forall k :: k in kids ==> CoversNode(states, k.node, Turn(p, k.flips), mandatory && k.strict)
  }

  lemma CoversKids(states: set<State>, kids: set<Kid>, p: Polarity, mandatory: bool)
    ensures Covers(states, kids, p, mandatory) <==> forall o :: o in InKids(kids) ==> At(p, mandatory, o) in states
  {
    forall k, o | k in kids && o in In(k.node)
      ensures Through(k, o) in InKids(kids)
      ensures At(Turn(p, k.flips), mandatory && k.strict, o) == At(p, mandatory, Through(k, o))
    {}
  }

  lemma InUnfold(t: TypeNode)
    ensures In(t) == OwnReference(t) + InKids(NodeKids(t))
  {}

  lemma CoversOwn(states: set<State>, t: TypeNode, p: Polarity, mandatory: bool)
    ensures var node := Peel(t, AsWritten).node;
            (forall o :: o in OwnReference(t) ==> At(p, mandatory, o) in states) <==>
              (node.Ref? ==> State(node.name, p, mandatory) in states)
  {
    var node := Peel(t, AsWritten).node;
    if node.Ref? {
      assert At(p, mandatory, Occurrence(node.name, false, true)) == State(node.name, p, mandatory);
    }
  }

  lemma CoversUnfold(states: set<State>, t: TypeNode, p: Polarity, mandatory: bool)
    ensures CoversNode(states, t, p, mandatory) <==>
      var peeled := Peel(t, AsWritten);
      (peeled.node.Ref? ==> State(peeled.node.name, p, mandatory) in states) &&
        Covers(states, PeeledKids(peeled), p, mandatory)
  {
    InUnfold(t);
    CoversOwn(states, t, p, mandatory);
    CoversKids(states, NodeKids(t), p, mandatory);
  }

  lemma CoversDeclaration(view: View, states: set<State>, s: State)
    requires s.name in view.surface.declarations
    ensures Next(view, s) <= states <==>
      Covers(states, DeclarationKids(s.name, view.surface.declarations[s.name], view.existing), s.polarity, s.mandatory)
  {
    var kids := DeclarationKids(s.name, view.surface.declarations[s.name], view.existing);
    CoversKids(states, kids, s.polarity, s.mandatory);
  }

  lemma CoversFunction(view: View, states: set<State>, f: FunctionDeclaration)
    requires f in view.surface.functions && Seeds(view) <= states
    ensures Covers(states, FunctionKids(f, view.existing), Plus, true)
  {
    CoversKids(states, FunctionKids(f, view.existing), Plus, true);
  }

  lemma CoversSum(states: set<State>, a: set<Kid>, b: set<Kid>, p: Polarity, mandatory: bool)
    ensures Covers(states, a + b, p, mandatory) <==> Covers(states, a, p, mandatory) && Covers(states, b, p, mandatory)
  {}

  lemma CoversGrows(before: set<State>, after: set<State>, kids: set<Kid>, p: Polarity, mandatory: bool)
    requires before <= after && Covers(before, kids, p, mandatory)
    ensures Covers(after, kids, p, mandatory)
  {}

  lemma ElementsKidsStep(elements: seq<TypeElement>, i: nat, mode: ForcedMode, owner: Option<string>,
                         existing: Option<set<CallableKey>>)
    requires i < |elements|
    ensures ElementsKids(elements[..i + 1], mode, owner, existing) ==
      ElementsKids(elements[..i], mode, owner, existing) + ElementKids(elements[i], mode, owner, existing)
    ensures ElementKids(elements[i], mode, owner, existing) <= ElementsKids(elements, mode, owner, existing)
  {
    assert elements[..i + 1] == elements[..i] + [elements[i]];
  }

  lemma ClassKidsStep(members: seq<ClassElement>, i: nat, owner: string, existing: Option<set<CallableKey>>)
    requires i < |members|
    ensures ClassKids(members[..i + 1], owner, existing) ==
      ClassKids(members[..i], owner, existing) + ClassElementKids(members[i], owner, existing)
    ensures ClassElementKids(members[i], owner, existing) <= ClassKids(members, owner, existing)
  {
    assert members[..i + 1] == members[..i] + [members[i]];
  }

  /** From `before` to `after` a walk only added states it also finished with. */
  ghost predicate Grown(view: View, before: set<State>, after: set<State>) {
    before <= after && forall s {:trigger Next(view, s)} :: s in after && s !in before ==> Next(view, s) <= after
  }

  ghost function HardNames(states: set<State>): set<string> {
    set s | s in states && s.polarity == Minus && s.mandatory :: s.name
  }

  lemma HardNamesAdd(states: set<State>, s: State)
    ensures HardNames(states + {s}) == HardNames(states) + (if s.polarity == Minus && s.mandatory then {s.name} else {})
  {}

  /** A freshly marked state counts as finished once its successors are all there. */
  lemma GrownPast(view: View, before: set<State>, s: State, after: set<State>)
    requires Grown(view, before + {s}, after) && Next(view, s) <= after
    ensures Grown(view, before, after) && s in after
  {}

  lemma GrownFromNothing(view: View, states: set<State>)
    requires Grown(view, {}, states)
    ensures Closed(view, states)
  {}

  lemma SeedsCovered(view: View, states: set<State>)
    requires forall n :: n in view.surface.declarations ==> State(n, Plus, true) in states
    requires forall f :: f in view.surface.functions ==> Covers(states, FunctionKids(f, view.existing), Plus, true)
    ensures Seeds(view) <= states
  {
    forall f | f in view.surface.functions
      ensures forall o :: o in InKids(FunctionKids(f, view.existing)) ==> At(Plus, true, o) in states
    {
      CoversKids(states, FunctionKids(f, view.existing), Plus, true);
    }
  }

  class Walk {
    const view: View
    ghost const reach: set<State>
    var visited: set<State>
    var contravariant: set<string>

    ghost predicate Valid()
      reads this
    {
      Closed(view, reach) && visited <= reach && contravariant == HardNames(visited)
    }

    constructor (view: View)
      ensures Valid() && this.view == view && reach == Reach(view) && visited == {}
    {
      ReachClosed(view);
      this.view := view;
      this.reach := Reach(view);
      visited := {};
      contravariant := {};
    }

    method MarkReachable(name: string, p: Polarity, mandatory: bool)
      requires Valid() && State(name, p, mandatory) in reach
      modifies this
      ensures Valid() && Grown(view, old(visited), visited) && State(name, p, mandatory) in visited
      decreases reach - visited, 0
    {
      var s := State(name, p, mandatory);
      if s in visited {
        return;
      }
      HardNamesAdd(visited, s);
      visited := visited + {s};
      if p == Minus && mandatory {
        contravariant := contravariant + {name};
      }
      if name !in view.surface.declarations {
        assert Next(view, s) == {};
        return;
      }
      WalkDeclaration(s);
      GrownPast(view, old(visited), s, visited);
    }

    /** The dispatch on the kind of a declaration. */
    method WalkDeclaration(s: State)
      requires Valid() && s in reach && s.name in view.surface.declarations
      modifies this
      ensures Valid() && Grown(view, old(visited), visited) && Next(view, s) <= visited
      decreases reach - visited, 2
    {
      var d := view.surface.declarations[s.name];
      assert Covers(reach, DeclarationKids(s.name, d, view.existing), s.polarity, s.mandatory) by {
        CoversDeclaration(view, reach, s);
      }
      match d {
        case Alias(body) => WalkTypeNode(body, s.polarity, s.mandatory);
        case Interface(elements) => WalkTypeElements(elements, s.polarity, s.mandatory, AsWritten, Some(s.name));
        case Class(members) => WalkClassMembers(members, s.polarity, s.mandatory, s.name);
      }
      CoversDeclaration(view, visited, s);
    }

    method WalkTypeNode(t: TypeNode, p: Polarity, mandatory: bool)
      requires Valid() && CoversNode(reach, t, p, mandatory)
      modifies this
      ensures Valid() && Grown(view, old(visited), visited) && CoversNode(visited, t, p, mandatory)
      decreases reach - visited, 1, t, 2
    {
      var peeled := PeelWrappers(t, AsWritten);
      CoversUnfold(reach, t, p, mandatory);
      WalkPeeled(peeled, p, mandatory);
      CoversUnfold(visited, t, p, mandatory);
    }

    /** The dispatch on the kind of a peeled node. */
    method WalkPeeled(peeled: Peeled, p: Polarity, mandatory: bool)
      requires Valid()
      requires peeled.node.Ref? ==> State(peeled.node.name, p, mandatory) in reach
      requires Covers(reach, PeeledKids(peeled), p, mandatory)
      modifies this
      ensures Valid() && Grown(view, old(visited), visited)
      ensures peeled.node.Ref? ==> State(peeled.node.name, p, mandatory) in visited
      ensures Covers(visited, PeeledKids(peeled), p, mandatory)
      decreases reach - visited, 1, peeled.node, 1
    {
      match peeled.node {
        case Ref(name, args) =>
          MarkReachable(name, p, mandatory);
          WalkEach(args, p, mandatory);
        case Literal(elements) =>
          UngatedWithoutOwner(elements, peeled.mode, view.existing);
          WalkTypeElements(elements, p, mandatory, peeled.mode, None);
        case Func(_, _) => WalkSignature(peeled.node, p, mandatory);
        case _ => WalkPlain(peeled, p, mandatory);
      }
    }

    /** The node kinds whose constituents all keep polarity and flag. */
    method WalkPlain(peeled: Peeled, p: Polarity, mandatory: bool)
      requires Valid() && Covers(reach, PeeledKids(peeled), p, mandatory)
      requires !peeled.node.Ref? && !peeled.node.Literal? && !peeled.node.Func?
      modifies this
      ensures Valid() && Grown(view, old(visited), visited) && Covers(visited, PeeledKids(peeled), p, mandatory)
      decreases reach - visited, 1, peeled.node, 0
    {
      match peeled.node {
        case Union(types) => WalkEach(types, p, mandatory);
        case Intersection(types) => WalkEach(types, p, mandatory);
        case Array(element) => WalkTypeNode(element, p, mandatory);
        case Tuple(slots) => WalkEach(slots, p, mandatory);
        case Mapped(template) =>
          if template.Some? {
            WalkTypeNode(template.value, p, mandatory);
          }
        case _ =>
      }
    }

    /** A function or constructor type. */
    method WalkSignature(node: TypeNode, p: Polarity, mandatory: bool)
      requires node.Func? && Valid()
      requires Covers(reach, ParamKids(node.params, true), p, mandatory) && CoversNode(reach, node.result, p, mandatory)
      modifies this
      ensures Valid() && Grown(view, old(visited), visited)
      ensures Covers(visited, ParamKids(node.params, true), p, mandatory) &&
        CoversNode(visited, node.result, p, mandatory)
      decreases reach - visited, 1, node, 0
    {
      WalkParameters(node.params, p, mandatory, true);
      WalkTypeNode(node.result, p, mandatory);
    }

    /** The loop over type arguments, constituents or tuple slots. */
    method WalkEach(types: seq<TypeNode>, p: Polarity, mandatory: bool)
      requires Valid() && Covers(reach, EachKid(types), p, mandatory)
      modifies this
      ensures Valid() && Grown(view, old(visited), visited) && Covers(visited, EachKid(types), p, mandatory)
      decreases reach - visited, 1, types, 0
    {
      for i := 0 to |types|
        invariant Valid() && Grown(view, old(visited), visited)
        invariant Covers(visited, EachKid(types[..i]), p, mandatory)
      {
        assert Kid(false, true, types[i]) in EachKid(types);
        WalkTypeNode(types[i], p, mandatory);
        assert types[..i + 1] == types[..i] + [types[i]];
      }
      assert types[..|types|] == types;
    }

    /** The loop over the parameters of any callable; `gate` is what the callable itself adds. */
    method WalkParameters(params: seq<Param>, p: Polarity, mandatory: bool, gate: bool)
      requires Valid() && Covers(reach, ParamKids(params, gate), p, mandatory)
      modifies this
      ensures Valid() && Grown(view, old(visited), visited) && Covers(visited, ParamKids(params, gate), p, mandatory)
      decreases reach - visited, 1, params, 0
    {
      for i := 0 to |params|
        invariant Valid() && Grown(view, old(visited), visited)
        invariant Covers(visited, ParamKids(params[..i], gate), p, mandatory)
      {
        assert params[i] in params;
        WalkParameter(params[i], p, mandatory, gate);
        assert params[..i + 1] == params[..i] + [params[i]];
      }
      assert params[..|params|] == params;
    }

    method WalkParameter(parameter: Param, p: Polarity, mandatory: bool, gate: bool)
      requires Valid() && Covers(reach, ParamKids([parameter], gate), p, mandatory)
      modifies this
      ensures Valid() && Grown(view, old(visited), visited) &&
        Covers(visited, ParamKids([parameter], gate), p, mandatory)
      decreases reach - visited, 1, parameter, 0
    {
      if parameter.annotation.Some? {
        assert parameter in [parameter];
        var parameterMandatory := mandatory && gate && !parameter.optional;
        WalkTypeNode(parameter.annotation.value, Flip(p), parameterMandatory);
      }
    }

    method WalkTypeElements(elements: seq<TypeElement>, p: Polarity, mandatory: bool, mode: ForcedMode,
                            owner: Option<string>)
      requires Valid() && Covers(reach, ElementsKids(elements, mode, owner, view.existing), p, mandatory)
      modifies this
      ensures Valid() && Grown(view, old(visited), visited)
      ensures Covers(visited, ElementsKids(elements, mode, owner, view.existing), p, mandatory)
      decreases reach - visited, 1, elements, 0
    {
      for i := 0 to |elements|
        invariant Valid() && Grown(view, old(visited), visited)
        invariant Covers(visited, ElementsKids(elements[..i], mode, owner, view.existing), p, mandatory)
      {
        ElementsKidsStep(elements, i, mode, owner, view.existing);
        ghost var before := visited;
        WalkElement(elements[i], p, mandatory, mode, owner);
        CoversGrows(before, visited, ElementsKids(elements[..i], mode, owner, view.existing), p, mandatory);
        CoversSum(visited, ElementsKids(elements[..i], mode, owner, view.existing),
          ElementKids(elements[i], mode, owner, view.existing), p, mandatory);
      }
      assert elements[..|elements|] == elements;
    }

    method WalkElement(element: TypeElement, p: Polarity, mandatory: bool, mode: ForcedMode, owner: Option<string>)
      requires Valid() && Covers(reach, ElementKids(element, mode, owner, view.existing), p, mandatory)
      modifies this
      ensures Valid() && Grown(view, old(visited), visited)
      ensures Covers(visited, ElementKids(element, mode, owner, view.existing), p, mandatory)
      decreases reach - visited, 1, element, 0
    {
      match element {
        case IndexSignature(value) => WalkTypeNode(value, p, mandatory);
        case Property(_, optional, annotation) =>
          if annotation.Some? {
            WalkTypeNode(annotation.value, p, mandatory && !IsOptional(mode, optional));
          }
        case Method(key, optional, params, result) =>
          var own := !IsOptional(mode, optional);
          var methodExisted := CalleeExisted(view.existing, owner, MemberName(key));
          WalkParameters(params, p, mandatory, own && methodExisted);
          if result.Some? {
            WalkTypeNode(result.value, p, mandatory && own);
          }
        case OtherElement =>
      }
    }

    method WalkClassMembers(members: seq<ClassElement>, p: Polarity, mandatory: bool, owner: string)
      requires Valid() && Covers(reach, ClassKids(members, owner, view.existing), p, mandatory)
      modifies this
      ensures Valid() && Grown(view, old(visited), visited)
      ensures Covers(visited, ClassKids(members, owner, view.existing), p, mandatory)
      decreases reach - visited, 1, members, 0
    {
      for i := 0 to |members|
        invariant Valid() && Grown(view, old(visited), visited)
        invariant Covers(visited, ClassKids(members[..i], owner, view.existing), p, mandatory)
      {
        ClassKidsStep(members, i, owner, view.existing);
        if Hidden(members[i]) {
          continue;
        }
        ghost var before := visited;
        WalkClassMember(members[i], p, mandatory, owner);
        CoversGrows(before, visited, ClassKids(members[..i], owner, view.existing), p, mandatory);
        CoversSum(visited, ClassKids(members[..i], owner, view.existing),
          ClassElementKids(members[i], owner, view.existing), p, mandatory);
      }
      assert members[..|members|] == members;
    }

    method WalkClassMember(member: ClassElement, p: Polarity, mandatory: bool, owner: string)
      requires Valid() && !Hidden(member)
      requires Covers(reach, ClassElementKids(member, owner, view.existing), p, mandatory)
      modifies this
      ensures Valid() && Grown(view, old(visited), visited)
      ensures Covers(visited, ClassElementKids(member, owner, view.existing), p, mandatory)
      decreases reach - visited, 1, member, 0
    {
      match member {
        case Field(_, _, _, optional, annotation) =>
          if annotation.Some? {
            WalkTypeNode(annotation.value, p, mandatory && !optional);
          }
        case Accessor(_, _, _, annotation) =>
          if annotation.Some? {
            WalkTypeNode(annotation.value, p, mandatory);
          }
        case Constructor(_, params) =>
          WalkParameters(params, p, mandatory, CalleeExisted(view.existing, Some(owner), Some("constructor")));
        case ClassMethod(key, _, _, optional, params, result) =>
          var methodExisted := CalleeExisted(view.existing, Some(owner), MemberName(key));
          WalkParameters(params, p, mandatory, !optional && methodExisted);
          if result.Some? {
            WalkTypeNode(result.value, p, mandatory && !optional);
          }
        case OtherClassElement =>
      }
    }

    /** Every declaration is a root of the walk. */
    method MarkDeclarations()
      requires Valid() && Seeds(view) <= reach
      modifies this
      ensures Valid() && Grown(view, old(visited), visited)
      ensures forall n :: n in view.surface.declarations ==> State(n, Plus, true) in visited
    {
      var pending := view.surface.declarations.Keys;
      while pending != {}
        invariant Valid() && Grown(view, old(visited), visited)
        invariant pending <= view.surface.declarations.Keys
        invariant forall n :: n in view.surface.declarations && n !in pending ==> State(n, Plus, true) in visited
        decreases pending
      {
        var name :| name in pending;
        assert State(name, Plus, true) in Seeds(view);
        MarkReachable(name, Plus, true);
        pending := pending - {name};
      }
    }

    /** Parameters of a function are read contravariantly, its result covariantly. */
    method WalkFunction(f: FunctionDeclaration)
      requires Valid() && Covers(reach, FunctionKids(f, view.existing), Plus, true)
      modifies this
      ensures Valid() && Grown(view, old(visited), visited) &&
        Covers(visited, FunctionKids(f, view.existing), Plus, true)
    {
      WalkParameters(f.params, Plus, true, KeyExisted(view.existing, TopLevel(f.name)));
      if f.result.Some? {
        WalkTypeNode(f.result.value, Plus, true);
      }
    }

    method WalkFunctions()
      requires Valid() && Seeds(view) <= reach
      modifies this
      ensures Valid() && Grown(view, old(visited), visited)
      ensures forall f :: f in view.surface.functions ==> Covers(visited, FunctionKids(f, view.existing), Plus, true)
    {
      for i := 0 to |view.surface.functions|
        invariant Valid() && Grown(view, old(visited), visited)
        invariant forall j :: 0 <= j < i ==>
          Covers(visited, FunctionKids(view.surface.functions[j], view.existing), Plus, true)
      {
        CoversFunction(view, reach, view.surface.functions[i]);
        ghost var before := visited;
        WalkFunction(view.surface.functions[i]);
        forall j | 0 <= j < i
          ensures Covers(visited, FunctionKids(view.surface.functions[j], view.existing), Plus, true)
        {
          CoversGrows(before, visited, FunctionKids(view.surface.functions[j], view.existing), Plus, true);
        }
      }
    }

    method WalkSurface()
      requires Valid() && reach == Reach(view) && visited == {}
      modifies this
      ensures Valid() && visited == reach
    {
      ReachClosed(view);
      MarkDeclarations();
      WalkFunctions();
      SeedsCovered(view, visited);
      GrownFromNothing(view, visited);
      ClosedIsAll(view, visited);
    }
  }

  /** The walk computes exactly the names a mandatory chain reaches contravariantly. */
  method ComputeContravariantNames(view: View) returns (names: set<string>)
    ensures forall n :: n in names <==> HardContravariant(view, n)
  {
    var walk := new Walk(view);
    walk.WalkSurface();
    names := walk.contravariant;
    forall n ensures n in names <==> HardContravariant(view, n) {
      assert n in HardNames(walk.visited) <==> State(n, Minus, true) in walk.visited;
    }
  }
}
