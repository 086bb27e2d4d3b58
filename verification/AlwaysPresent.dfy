/** Which paths every value of a type has, read off the syntax.

    A value of a type has all the literal shapes of one alternative: unions give alternatives,
    intersections put shapes together, and a field has to fit everything that some shape says
    about it. Wrappers are read as TypeScript reads them.
 */
module AlwaysPresent {
  import opened Syntax
  import opened MemberMaps
  import opened ValueSemantics

  /** A literal and the mode TypeScript applies to it. */
  datatype Shape = Shape(elements: seq<TypeElement>, mode: ForcedMode)

  function Alternatives(t: TypeNode, context: ForcedMode): set<seq<Shape>>
    decreases t
  {
    match t
    case Paren(inner) => Alternatives(inner, context)
    case Ref(name, args) =>
      if args == [] then {[]}
      else (match OuterEffect(name, context)
            case None => {[]}
            case Some(next) => Alternatives(args[0], next))
    case Literal(elements) => {[Shape(elements, context)]}
    case Union(types) => set u, a | u in types && a in Alternatives(u, context) :: a
    case Intersection(types) => Combinations(types, context)
    case _ => {[]}
  }

  /** One alternative of each type, put together. */
  function Combinations(types: seq<TypeNode>, context: ForcedMode): set<seq<Shape>>
    decreases types
  {
    if types == [] then {[]}
    else set a, b | a in Alternatives(types[0], context) && b in Combinations(types[1..], context) :: a + b
  }

  predicate Names(e: TypeElement, n: string) {
    Named(e) && MemberName(e.key) == Some(n)
  }

  predicate NamesField(elements: seq<TypeElement>, n: string) {
    exists e | e in elements :: Names(e, n)
  }

  /** What one element says about the type of the field `n`: a property its annotation, an index
      signature its value type if no member is called `n`. */
  function TypesFrom(e: TypeElement, n: string, named: bool): seq<TypeNode> {
    match e
    case Property(key, _, annotation) =>
      if MemberName(key) == Some(n) && annotation.Some? then [annotation.value] else []
    case IndexSignature(value) => if named then [] else [value]
    case _ => []
  }

  function TypesFromAll(elements: seq<TypeElement>, n: string, named: bool): (types: seq<TypeNode>)
    ensures forall t :: t in types <==> exists e :: e in elements && t in TypesFrom(e, n, named)
  {
    if elements == [] then [] else TypesFrom(elements[0], n, named) + TypesFromAll(elements[1..], n, named)
  }

  function FieldTypes(elements: seq<TypeElement>, n: string): seq<TypeNode> {
    TypesFromAll(elements, n, NamesField(elements, n))
  }

  function FieldTypesOfAll(shapes: seq<Shape>, n: string): (types: seq<TypeNode>)
    ensures forall t :: t in types <==> exists s :: s in shapes && t in FieldTypes(s.elements, n)
  {
    if shapes == [] then [] else FieldTypes(shapes[0].elements, n) + FieldTypesOfAll(shapes[1..], n)
  }

  /** The type of the field `n` under all the shapes. */
  function FieldType(shapes: seq<Shape>, n: string): TypeNode {
    Intersection(FieldTypesOfAll(shapes, n))
  }

  predicate Demands(elements: seq<TypeElement>, mode: ForcedMode, n: string) {
    exists e | e in elements :: Names(e, n) && !IsOptional(mode, e.optional)
  }

  predicate SomeDemands(shapes: seq<Shape>, n: string) {
    exists s | s in shapes :: Demands(s.elements, s.mode, n)
  }

  /** In each alternative some shape demands the first field of the path, and what all shapes
      together say about that field always has the rest. */
  predicate Always(t: TypeNode, context: ForcedMode, p: Path)
    decreases |p|, 1
  {
    p == [] || forall shapes | shapes in Alternatives(t, context) :: AlwaysIn(shapes, p)
  }

  predicate AlwaysIn(shapes: seq<Shape>, p: Path)
    requires p != []
    decreases |p|, 0
  {
    SomeDemands(shapes, p[0]) && Always(FieldType(shapes, p[0]), AsWritten, p[1..])
  }

  // ---------- alternatives and values ----------

  ghost predicate FitsAll(leaf: LeafSemantics, v: Value, shapes: seq<Shape>) {
    forall s | s in shapes :: Inhabits(leaf, v, Literal(s.elements), s.mode)
  }

  lemma FieldsSatisfy(leaf: LeafSemantics, fields: map<string, Value>, elements: seq<TypeElement>, mode: ForcedMode,
                      e: TypeElement)
    requires e in elements
    requires forall n :: Demands(elements, mode, n) ==> n in fields
    requires forall n, t :: n in fields && t in FieldTypes(elements, n) ==> Inhabits(leaf, fields[n], t, AsWritten)
    ensures Satisfies(leaf, fields, e, elements, mode)
  {
    match e
    case IndexSignature(value) =>
      forall n | n in fields && !NamesField(elements, n) ensures Inhabits(leaf, fields[n], value, AsWritten) {
        assert value in TypesFrom(e, n, false);
      }
    case Property(key, optional, annotation) =>
      if MemberName(key).Some? {
        var n := MemberName(key).value;
        assert Names(e, n);
        if n in fields && annotation.Some? {
          assert annotation.value in TypesFrom(e, n, true);
        } else if n !in fields {
          assert !Demands(elements, mode, n);
        }
      }
    case Method(key, _, _, _) =>
      if MemberName(key).Some? && MemberName(key).value !in fields {
        assert Names(e, MemberName(key).value) && !Demands(elements, mode, MemberName(key).value);
      }
    case OtherElement =>
  }

  /** What the elements of a literal say, field by field. */
  lemma LiteralFields(leaf: LeafSemantics, fields: map<string, Value>, elements: seq<TypeElement>, mode: ForcedMode)
    ensures Inhabits(leaf, Object(fields), Literal(elements), mode) <==>
      (forall n :: Demands(elements, mode, n) ==> n in fields) &&
      forall n, t :: n in fields && t in FieldTypes(elements, n) ==> Inhabits(leaf, fields[n], t, AsWritten)
  {
    if Inhabits(leaf, Object(fields), Literal(elements), mode) {
      forall n | Demands(elements, mode, n) ensures n in fields {
        var e :| e in elements && Names(e, n) && !IsOptional(mode, e.optional);
        assert Satisfies(leaf, fields, e, elements, mode);
      }
      forall n, t | n in fields && t in FieldTypes(elements, n) ensures Inhabits(leaf, fields[n], t, AsWritten) {
        var e :| e in elements && t in TypesFrom(e, n, NamesField(elements, n));
        assert Satisfies(leaf, fields, e, elements, mode);
      }
    }
    if (forall n :: Demands(elements, mode, n) ==> n in fields) &&
       forall n, t :: n in fields && t in FieldTypes(elements, n) ==> Inhabits(leaf, fields[n], t, AsWritten) {
      forall e | e in elements ensures Satisfies(leaf, fields, e, elements, mode) {
        FieldsSatisfy(leaf, fields, elements, mode, e);
      }
    }
  }

  /** A value of a type has all shapes of some alternative, whatever the leaves are. */
  lemma {:induction false} FitsSome(leaf: LeafSemantics, v: Value, t: TypeNode,
                                    context: ForcedMode)
    returns (shapes: seq<Shape>)
    requires Inhabits(leaf, v, t, context)
    ensures shapes in Alternatives(t, context) && FitsAll(leaf, v, shapes)
    decreases t
  {
    shapes := [];
    match t {
      case Paren(inner) => shapes := FitsSome(leaf, v, inner, context);
      case Ref(name, args) =>
        if args != [] && OuterEffect(name, context).Some? {
          shapes := FitsSome(leaf, v, args[0], OuterEffect(name, context).value);
        }
      case Literal(elements) => shapes := [Shape(elements, context)];
      case Union(types) =>
        var u :| u in types && Inhabits(leaf, v, u, context);
        shapes := FitsSome(leaf, v, u, context);
      case Intersection(types) => shapes := FitsCombination(leaf, v, types, context);
      case _ =>
    }
  }

  lemma {:induction false} FitsCombination(leaf: LeafSemantics, v: Value, types: seq<TypeNode>,
                                           context: ForcedMode)
    returns (shapes: seq<Shape>)
    requires forall u | u in types :: Inhabits(leaf, v, u, context)
    ensures shapes in Combinations(types, context) && FitsAll(leaf, v, shapes)
    decreases types
  {
    shapes := [];
    if types != [] {
      var a := FitsSome(leaf, v, types[0], context);
      var b := FitsCombination(leaf, v, types[1..], context);
      shapes := a + b;
    }
  }

  // ---------- leaves that get in nobody's way ----------

  /** Leaves admit a value without fields, so nothing is known to be present below them. */
  ghost predicate BareLeaves(leaf: LeafSemantics) {
    forall node, mode :: leaf(node, mode, Atom)
  }

  /** Leaves admit everything. */
  ghost predicate FreeLeaves(leaf: LeafSemantics) {
    forall node, mode, v :: leaf(node, mode, v)
  }

  /** Elements that may share a key: index signatures, and overloads that agree on `?`. */
  predicate MayShareKey(a: TypeElement, b: TypeElement) {
    (a.IndexSignature? && b.IndexSignature?) || (a.Method? && b.Method? && a.optional == b.optional)
  }

  predicate DistinctKeys(elements: seq<TypeElement>) {
    forall i, j ::
      0 <= i < j < |elements| && ElementKey(elements[i]).Some? && ElementKey(elements[i]) == ElementKey(elements[j]) ==>
        MayShareKey(elements[i], elements[j])
  }

  /** Nothing is constrained from two sides: no intersections, and distinct member names but for overloads. */
  predicate OneSided(t: TypeNode)
    decreases t, 0
  {
    match t
    case Paren(inner) => OneSided(inner)
    case Ref(_, args) => args == [] || OneSided(args[0])
    case Literal(elements) => DistinctKeys(elements) && forall e | e in elements :: ElementOneSided(e)
    case Union(types) => forall u | u in types :: OneSided(u)
    case Intersection(types) => |types| <= 1 && forall u | u in types :: OneSided(u)
    case _ => true
  }

  predicate ElementOneSided(e: TypeElement)
    decreases e, 0
  {
    e.Property? && e.annotation.Some? ==> OneSided(e.annotation.value)
  }

  /** Either all leaves admit everything, or no leaf meets another type. */
  ghost predicate Unhindered(leaf: LeafSemantics, t: TypeNode) {
    FreeLeaves(leaf) || (BareLeaves(leaf) && OneSided(t))
  }

  /** Every union has a constituent. */
  predicate Inhabitable(t: TypeNode)
    decreases t, 0
  {
    match t
    case Paren(inner) => Inhabitable(inner)
    case Ref(_, args) => args == [] || Inhabitable(args[0])
    case Literal(elements) => forall e | e in elements :: ElementInhabitable(e)
    case Union(types) => types != [] && forall u | u in types :: Inhabitable(u)
    case Intersection(types) => forall u | u in types :: Inhabitable(u)
    case _ => true
  }

  predicate ElementInhabitable(e: TypeElement)
    decreases e, 0
  {
    match e
    case IndexSignature(value) => Inhabitable(value)
    case Property(_, _, annotation) => annotation.Some? ==> Inhabitable(annotation.value)
    case _ => true
  }

  /** How deep literals are nested. */
  function Depth(t: TypeNode): nat
    decreases t, 0
  {
    match t
    case Paren(inner) => Depth(inner)
    case Ref(_, args) => if args == [] then 0 else Depth(args[0])
    case Literal(elements) => 1 + ElementsDepth(elements)
    case Union(types) => DepthOfAll(types)
    case Intersection(types) => DepthOfAll(types)
    case _ => 0
  }

  function DepthOfAll(types: seq<TypeNode>): (d: nat)
    ensures forall u :: u in types ==> Depth(u) <= d
    decreases types, 0
  {
    if types == [] then 0
    else
      var first, rest := Depth(types[0]), DepthOfAll(types[1..]);
      if first < rest then rest else first
  }

  function ElementDepth(e: TypeElement): nat
    decreases e, 0
  {
    match e
    case IndexSignature(value) => Depth(value)
    case Property(_, _, annotation) => if annotation.Some? then Depth(annotation.value) else 0
    case _ => 0
  }

  function ElementsDepth(elements: seq<TypeElement>): (d: nat)
    ensures forall e :: e in elements ==> ElementDepth(e) <= d
    decreases elements, 0
  {
    if elements == [] then 0
    else
      var first, rest := ElementDepth(elements[0]), ElementsDepth(elements[1..]);
      if first < rest then rest else first
  }

  /** The shapes of a type are no deeper than it and inherit its properties. */
  ghost predicate ShapeOf(s: Shape, depth: nat, inhabitable: bool, oneSided: bool) {
    Depth(Literal(s.elements)) <= depth && (inhabitable ==> Inhabitable(Literal(s.elements))) &&
      (oneSided ==> OneSided(Literal(s.elements)))
  }

  ghost predicate ShapesOf(shapes: seq<Shape>, depth: nat, inhabitable: bool, oneSided: bool) {
    (forall s | s in shapes :: ShapeOf(s, depth, inhabitable, oneSided)) && (oneSided ==> |shapes| <= 1)
  }

  lemma {:induction false} ShapesInherit(t: TypeNode, context: ForcedMode, shapes: seq<Shape>)
    requires shapes in Alternatives(t, context)
    ensures ShapesOf(shapes, Depth(t), Inhabitable(t), OneSided(t))
    decreases t
  {
    match t
    case Paren(inner) => ShapesInherit(inner, context, shapes);
    case Ref(name, args) =>
      if args != [] && OuterEffect(name, context).Some? {
        ShapesInherit(args[0], OuterEffect(name, context).value, shapes);
      }
    case Union(types) =>
      var u :| u in types && shapes in Alternatives(u, context);
      ShapesInherit(u, context, shapes);
    case Intersection(types) => CombinationsInherit(types, context, shapes);
    case _ =>
  }

  lemma JoinedShapes(a: seq<Shape>, b: seq<Shape>, da: nat, db: nat, d: nat, ia: bool, ib: bool, oa: bool, o: bool)
    requires ShapesOf(a, da, ia, oa) && ShapesOf(b, db, ib, false)
    requires da <= d && db <= d && (o ==> oa && b == [])
    ensures ShapesOf(a + b, d, ia && ib, o)
  {
    forall s | s in a + b ensures ShapeOf(s, d, ia && ib, o) {
      assert s in a || s in b;
    }
  }

  predicate AllInhabitable(types: seq<TypeNode>) {
    forall u | u in types :: Inhabitable(u)
  }

  lemma AllInhabitableSplit(types: seq<TypeNode>)
    requires types != []
    ensures AllInhabitable(types) <==> Inhabitable(types[0]) && AllInhabitable(types[1..])
  {
    assert types == [types[0]] + types[1..];
  }

  lemma {:induction false} CombinationsInherit(types: seq<TypeNode>, context: ForcedMode, shapes: seq<Shape>)
    requires shapes in Combinations(types, context)
    ensures ShapesOf(shapes, DepthOfAll(types), AllInhabitable(types),
                     |types| <= 1 && forall u | u in types :: OneSided(u))
    decreases types
  {
    if types != [] {
      var rest := types[1..];
      var a, b :| a in Alternatives(types[0], context) && b in Combinations(rest, context) && shapes == a + b;
      ShapesInherit(types[0], context, a);
      CombinationsInherit(rest, context, b);
      AllInhabitableSplit(types);
      JoinedShapes(a, b, Depth(types[0]), DepthOfAll(rest), DepthOfAll(types),
                   Inhabitable(types[0]), AllInhabitable(rest), OneSided(types[0]),
                   |types| <= 1 && forall u | u in types :: OneSided(u));
    }
  }

  lemma {:induction false} SomeAlternative(t: TypeNode, context: ForcedMode) returns (shapes: seq<Shape>)
    requires Inhabitable(t)
    ensures shapes in Alternatives(t, context)
    decreases t
  {
    shapes := [];
    match t {
      case Paren(inner) => shapes := SomeAlternative(inner, context);
      case Ref(name, args) =>
        if args != [] && OuterEffect(name, context).Some? {
          shapes := SomeAlternative(args[0], OuterEffect(name, context).value);
        }
      case Literal(elements) => shapes := [Shape(elements, context)];
      case Union(types) => shapes := SomeAlternative(types[0], context);
      case Intersection(types) => shapes := SomeCombination(types, context);
      case _ =>
    }
  }

  lemma {:induction false} SomeCombination(types: seq<TypeNode>, context: ForcedMode) returns (shapes: seq<Shape>)
    requires forall u | u in types :: Inhabitable(u)
    ensures shapes in Combinations(types, context)
    decreases types
  {
    shapes := [];
    if types != [] {
      var a := SomeAlternative(types[0], context);
      var b := SomeCombination(types[1..], context);
      shapes := a + b;
    }
  }

  /** The leaves next to these shapes admit the value. */
  ghost predicate Admitted(leaf: LeafSemantics, v: Value, shapes: seq<Shape>, oneSided: bool) {
    FreeLeaves(leaf) || (BareLeaves(leaf) && oneSided && (shapes == [] ==> v == Atom))
  }

  /** What has all shapes of an alternative is a value of the type, if the leaves allow it. */
  lemma {:induction false} AlternativeFits(leaf: LeafSemantics, v: Value, t: TypeNode, context: ForcedMode,
                                           shapes: seq<Shape>)
    requires shapes in Alternatives(t, context) && FitsAll(leaf, v, shapes)
    requires Admitted(leaf, v, shapes, OneSided(t))
    ensures Inhabits(leaf, v, t, context)
    decreases t
  {
    match t
    case Paren(inner) => AlternativeFits(leaf, v, inner, context, shapes);
    case Ref(name, args) =>
      if args != [] && OuterEffect(name, context).Some? {
        AlternativeFits(leaf, v, args[0], OuterEffect(name, context).value, shapes);
      }
    case Union(types) =>
      var u :| u in types && shapes in Alternatives(u, context);
      AlternativeFits(leaf, v, u, context, shapes);
    case Intersection(types) =>
      forall u | u in types ensures Inhabits(leaf, v, u, context) {
        CombinationFits(leaf, v, types, context, shapes, u);
      }
    case _ =>
  }

  lemma {:induction false} CombinationFits(leaf: LeafSemantics, v: Value, types: seq<TypeNode>, context: ForcedMode,
                                           shapes: seq<Shape>, u: TypeNode)
    requires shapes in Combinations(types, context) && FitsAll(leaf, v, shapes) && u in types
    requires Admitted(leaf, v, shapes, |types| <= 1 && forall w | w in types :: OneSided(w))
    ensures Inhabits(leaf, v, u, context)
    decreases types
  {
    var a, b :| a in Alternatives(types[0], context) && b in Combinations(types[1..], context) && shapes == a + b;
    if u == types[0] {
      assert |types| <= 1 ==> b == [];
      AlternativeFits(leaf, v, u, context, a);
    } else {
      CombinationFits(leaf, v, types[1..], context, b, u);
    }
  }

  // ---------- values that leave a path out ----------

  /** The fields some shape demands. */
  function DemandedFields(shapes: seq<Shape>): (names: set<string>)
    ensures forall n :: n in names <==> SomeDemands(shapes, n)
  {
    set s, e | s in shapes && e in s.elements && Named(e) && !IsOptional(s.mode, e.optional) :: MemberName(e.key).value
  }

  /** The part of `p` that is left after entering the field `n`, or nothing to avoid. */
  function Under(n: string, p: Path): Path {
    if p != [] && p[0] == n then p[1..] else []
  }

  /** A value of the type that has `p` only if all have it. */
  ghost predicate Avoids(leaf: LeafSemantics, v: Value, t: TypeNode, context: ForcedMode, p: Path) {
    Inhabits(leaf, v, t, context) && (Present(v, p) ==> Always(t, context, p))
  }

  ghost function Avoiding(leaf: LeafSemantics, t: TypeNode, context: ForcedMode, p: Path): (v: Value)
    requires exists v :: Avoids(leaf, v, t, context, p)
    ensures Avoids(leaf, v, t, context, p)
  {
    var v :| Avoids(leaf, v, t, context, p);
    v
  }

  lemma {:induction false} DepthBelow(types: seq<TypeNode>, depth: nat)
    requires depth > 0 && forall t | t in types :: Depth(t) < depth
    ensures DepthOfAll(types) < depth
    decreases types
  {
    if types != [] {
      DepthBelow(types[1..], depth);
    }
  }

  lemma FieldTypeInherits(s: Shape, n: string, t: TypeNode, depth: nat)
    requires t in FieldTypes(s.elements, n) && ShapeOf(s, depth, true, false)
    ensures Depth(t) < depth && Inhabitable(t)
  {
    var e :| e in s.elements && t in TypesFrom(e, n, NamesField(s.elements, n));
    assert ElementDepth(e) <= ElementsDepth(s.elements);
    assert ElementInhabitable(e);
  }

  lemma {:induction false} NoTypes(elements: seq<TypeElement>, n: string)
    requires forall e | e in elements :: TypesFrom(e, n, true) == []
    ensures TypesFromAll(elements, n, true) == []
    decreases elements
  {
    if elements != [] {
      NoTypes(elements[1..], n);
    }
  }

  lemma {:induction false} AtMostOneType(elements: seq<TypeElement>, n: string)
    requires DistinctKeys(elements)
    ensures |TypesFromAll(elements, n, true)| <= 1
    decreases elements
  {
    if elements != [] {
      var rest := elements[1..];
      AtMostOneType(rest, n);
      if TypesFrom(elements[0], n, true) != [] {
        forall e | e in rest ensures TypesFrom(e, n, true) == [] {
          var i :| 0 <= i < |rest| && rest[i] == e;
          assert elements[i + 1] == e;
        }
        NoTypes(rest, n);
      }
    }
  }

  lemma {:induction false} OneSidedField(elements: seq<TypeElement>, mode: ForcedMode, n: string)
    requires OneSided(Literal(elements)) && Demands(elements, mode, n)
    ensures |FieldTypes(elements, n)| <= 1 && forall t | t in FieldTypes(elements, n) :: OneSided(t)
  {
    var e :| e in elements && Names(e, n) && !IsOptional(mode, e.optional);
    assert NamesField(elements, n);
    AtMostOneType(elements, n);
    forall t | t in FieldTypes(elements, n) ensures OneSided(t) {
      var d :| d in elements && t in TypesFrom(d, n, true);
      assert ElementOneSided(d);
    }
  }

  lemma OneSidedFields(shapes: seq<Shape>, n: string, depth: nat)
    requires shapes != [] && ShapesOf(shapes, depth, true, true) && SomeDemands(shapes, n)
    ensures OneSided(FieldType(shapes, n))
  {
    OneSidedField(shapes[0].elements, shapes[0].mode, n);
    assert shapes == [shapes[0]] && FieldTypesOfAll(shapes[1..], n) == [];
    assert FieldTypesOfAll(shapes, n) == FieldTypes(shapes[0].elements, n);
  }

  lemma FieldIsShallower(shapes: seq<Shape>, n: string, depth: nat, oneSided: bool)
    requires shapes != [] && ShapesOf(shapes, depth, true, oneSided) && SomeDemands(shapes, n)
    ensures Depth(FieldType(shapes, n)) < depth && Inhabitable(FieldType(shapes, n))
    ensures oneSided ==> OneSided(FieldType(shapes, n))
  {
    var types := FieldTypesOfAll(shapes, n);
    assert ShapeOf(shapes[0], depth, true, oneSided);
    forall t | t in types ensures Depth(t) < depth && Inhabitable(t) {
      var s :| s in shapes && t in FieldTypes(s.elements, n);
      FieldTypeInherits(s, n, t, depth);
    }
    DepthBelow(types, depth);
    if oneSided {
      OneSidedFields(shapes, n, depth);
    }
  }

  /** The fields of a value with the given shapes that has no more than they demand, and below
      each field leaves out what can be left out of the path. */
  ghost function LeanFields(leaf: LeafSemantics, shapes: seq<Shape>, p: Path): (fields: map<string, Value>)
    requires forall n :: n in DemandedFields(shapes) ==>
      exists v :: Avoids(leaf, v, FieldType(shapes, n), AsWritten, Under(n, p))
    ensures fields.Keys == DemandedFields(shapes)
    ensures forall n :: n in fields ==> Avoids(leaf, fields[n], FieldType(shapes, n), AsWritten, Under(n, p))
  {
    map n | n in DemandedFields(shapes) :: Avoiding(leaf, FieldType(shapes, n), AsWritten, Under(n, p))
  }

  lemma FieldTypeFits(leaf: LeafSemantics, v: Value, shapes: seq<Shape>, n: string, s: Shape, t: TypeNode)
    requires Inhabits(leaf, v, FieldType(shapes, n), AsWritten) && s in shapes && t in FieldTypes(s.elements, n)
    ensures Inhabits(leaf, v, t, AsWritten)
  {
    assert t in FieldTypesOfAll(shapes, n);
  }

  lemma LeanFits(leaf: LeafSemantics, shapes: seq<Shape>, fields: map<string, Value>, s: Shape)
    requires fields.Keys == DemandedFields(shapes) && s in shapes
    requires forall n :: n in fields ==> Inhabits(leaf, fields[n], FieldType(shapes, n), AsWritten)
    ensures Inhabits(leaf, Object(fields), Literal(s.elements), s.mode)
  {
    forall n | Demands(s.elements, s.mode, n) ensures n in fields {
      assert SomeDemands(shapes, n);
    }
    forall n, t | n in fields && t in FieldTypes(s.elements, n) ensures Inhabits(leaf, fields[n], t, AsWritten) {
      FieldTypeFits(leaf, fields[n], shapes, n, s, t);
    }
    LiteralFields(leaf, fields, s.elements, s.mode);
  }

  /** The lean value has the path only if the alternative always does. */
  lemma LeanAvoids(leaf: LeafSemantics, shapes: seq<Shape>, p: Path) returns (v: Value)
    requires forall n :: n in DemandedFields(shapes) ==>
      exists v :: Avoids(leaf, v, FieldType(shapes, n), AsWritten, Under(n, p))
    ensures v.Object? && FitsAll(leaf, v, shapes)
    ensures p != [] && Present(v, p) ==> AlwaysIn(shapes, p)
  {
    var fields := LeanFields(leaf, shapes, p);
    forall s | s in shapes { LeanFits(leaf, shapes, fields, s); }
    v := Object(fields);
    if p != [] && Present(v, p) {
      assert Avoids(leaf, fields[p[0]], FieldType(shapes, p[0]), AsWritten, p[1..]);
    }
  }

  lemma {:induction false} Avoidable(leaf: LeafSemantics, t: TypeNode, context: ForcedMode, p: Path)
    requires Inhabitable(t) && Unhindered(leaf, t)
    ensures exists v :: Avoids(leaf, v, t, context, p)
    decreases Depth(t)
  {
    var shapes := SomeAlternative(t, context);
    if !Always(t, context, p) {
      shapes :| shapes in Alternatives(t, context) && !AlwaysIn(shapes, p);
    }
    ShapesInherit(t, context, shapes);
    var v := Atom;
    if shapes != [] {
      forall n | n in DemandedFields(shapes)
        ensures exists w :: Avoids(leaf, w, FieldType(shapes, n), AsWritten, Under(n, p))
      {
        FieldIsShallower(shapes, n, Depth(t), OneSided(t));
        Avoidable(leaf, FieldType(shapes, n), AsWritten, Under(n, p));
      }
      v := LeanAvoids(leaf, shapes, p);
    }
    AlternativeFits(leaf, v, t, context, shapes);
    assert Avoids(leaf, v, t, context, p);
  }

  // ---------- the theorem ----------

  ghost predicate InEveryValue(leaf: LeafSemantics, t: TypeNode, context: ForcedMode, p: Path) {
    forall v :: Inhabits(leaf, v, t, context) ==> Present(v, p)
  }

  lemma FieldFits(leaf: LeafSemantics, fields: map<string, Value>, shapes: seq<Shape>, n: string)
    requires FitsAll(leaf, Object(fields), shapes)
    ensures SomeDemands(shapes, n) ==> n in fields
    ensures n in fields ==> Inhabits(leaf, fields[n], FieldType(shapes, n), AsWritten)
  {
    forall s | s in shapes { LiteralFields(leaf, fields, s.elements, s.mode); }
    if n in fields {
      forall t | t in FieldTypesOfAll(shapes, n) ensures Inhabits(leaf, fields[n], t, AsWritten) {
        var s :| s in shapes && t in FieldTypes(s.elements, n);
        LiteralFields(leaf, fields, s.elements, s.mode);
      }
    }
  }

  /** Whatever the leaves are, what is read off is in every value. */
  lemma {:induction false} AlwaysIsPresent(leaf: LeafSemantics, v: Value, t: TypeNode, context: ForcedMode, p: Path)
    requires Always(t, context, p) && Inhabits(leaf, v, t, context)
    ensures Present(v, p)
    decreases |p|
  {
    if p != [] {
      var shapes := FitsSome(leaf, v, t, context);
      assert AlwaysIn(shapes, p);
      var s :| s in shapes && Demands(s.elements, s.mode, p[0]);
      assert Inhabits(leaf, v, Literal(s.elements), s.mode);
      FieldFits(leaf, v.fields, shapes, p[0]);
      AlwaysIsPresent(leaf, v.fields[p[0]], FieldType(shapes, p[0]), AsWritten, p[1..]);
    }
  }

  /** And nothing else is: for every stack of wrappers at every depth, unions, intersections,
      index signatures and repeated members. */
  lemma AlwaysIff(leaf: LeafSemantics, t: TypeNode, context: ForcedMode, p: Path)
    requires Inhabitable(t) && Unhindered(leaf, t)
    ensures Always(t, context, p) <==> InEveryValue(leaf, t, context, p)
  {
    if Always(t, context, p) {
      forall v | Inhabits(leaf, v, t, context) ensures Present(v, p) {
        AlwaysIsPresent(leaf, v, t, context, p);
      }
    } else {
      Avoidable(leaf, t, context, p);
      var v :| Avoids(leaf, v, t, context, p);
      assert Inhabits(leaf, v, t, context) && !Present(v, p);
    }
  }

  /** The same without a word about leaves: a path is read off iff it is present in every value
      however the types that are not expanded are understood. */
  lemma AlwaysForEveryLeaf(t: TypeNode, context: ForcedMode, p: Path)
    requires Inhabitable(t)
    ensures Always(t, context, p) <==> forall leaf: LeafSemantics :: InEveryValue(leaf, t, context, p)
  {
    var free: LeafSemantics := (node, mode, v) => true;
    AlwaysIff(free, t, context, p);
    if Always(t, context, p) {
      forall leaf: LeafSemantics ensures InEveryValue(leaf, t, context, p) {
        forall v | Inhabits(leaf, v, t, context) ensures Present(v, p) {
          AlwaysIsPresent(leaf, v, t, context, p);
        }
      }
    }
  }
}
