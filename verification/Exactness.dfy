/** Where the recorded required paths are those that every value has, and where they are not.

    The checker reads a stack of wrappers by the innermost `Partial` or `Required` and does not
    hand it on to the constituents of a union or an intersection, and it treats the sides of an
    intersection one by one.
 */
module Exactness {
  import opened Syntax
  import opened MemberMaps
  import opened MemberResolution
  import opened ValueSemantics
  import opened AlwaysPresent

  // ---------- one path ----------

  /** The checker marks the path required. */
  predicate MarkedRequired(t: TypeNode, p: Path) {
    p in Required(Resolve(t))
  }

  /** The syntax says that the path is always there. */
  predicate AlwaysThere(t: TypeNode, p: Path) {
    p != [] && Always(t, AsWritten, p)
  }

  ghost predicate EveryValueHas(leaf: LeafSemantics, t: TypeNode, p: Path) {
    p != [] && InEveryValue(leaf, t, AsWritten, p)
  }

  lemma EveryValueHasIff(leaf: LeafSemantics, t: TypeNode, p: Path)
    requires Inhabitable(t) && Unhindered(leaf, t)
    ensures EveryValueHas(leaf, t, p) <==> AlwaysThere(t, p)
  {
    AlwaysIff(leaf, t, AsWritten, p);
  }

  /** No path is marked required that some value lacks. */
  ghost predicate Sound(leaf: LeafSemantics, t: TypeNode) {
    forall p :: MarkedRequired(t, p) ==> EveryValueHas(leaf, t, p)
  }

  /** No path is left unmarked that every value has. */
  ghost predicate Lossless(leaf: LeafSemantics, t: TypeNode) {
    forall p :: EveryValueHas(leaf, t, p) ==> MarkedRequired(t, p)
  }

  /** When the marks of a type are sound, and when none is missing. */
  lemma SoundIff(leaf: LeafSemantics, t: TypeNode)
    requires Inhabitable(t) && Unhindered(leaf, t)
    ensures Sound(leaf, t) <==> forall p :: MarkedRequired(t, p) ==> AlwaysThere(t, p)
    ensures Lossless(leaf, t) <==> forall p :: AlwaysThere(t, p) ==> MarkedRequired(t, p)
  {
    forall p { EveryValueHasIff(leaf, t, p); }
  }

  // ---------- the two readings of wrappers ----------

  /** The checker's reading of a stack of wrappers, and TypeScript's. */
  datatype Reading = Innermost | Outermost

  function ModeRead(reading: Reading, t: TypeNode, context: ForcedMode): ForcedMode {
    if reading.Innermost? then Peel(t, AsWritten).mode else OuterMode(t, context)
  }

  /** The mode handed on to constituents. */
  function ModeHandedOn(reading: Reading, t: TypeNode, context: ForcedMode): ForcedMode {
    if reading.Innermost? then AsWritten else OuterMode(t, context)
  }

  /** The path is mandatory all the way in every constituent of a union, and in one and the same
      constituent of an intersection. */
  predicate Marked(reading: Reading, t: TypeNode, context: ForcedMode, p: Path)
    decreases t, 1
  {
    match Peel(t, AsWritten).node
    case Literal(elements) => exists e | e in elements :: MarkedBy(reading, e, ModeRead(reading, t, context), p)
    case Union(types) =>
      types != [] && forall u | u in types :: Marked(reading, u, ModeHandedOn(reading, t, context), p)
    case Intersection(types) => exists u | u in types :: Marked(reading, u, ModeHandedOn(reading, t, context), p)
    case _ => false
  }

  predicate MarkedBy(reading: Reading, e: TypeElement, mode: ForcedMode, p: Path)
    decreases e, 0
  {
    p != [] && Names(e, p[0]) && !IsOptional(mode, e.optional) &&
    (p[1..] == [] || (e.Property? && e.annotation.Some? && Marked(reading, e.annotation.value, AsWritten, p[1..])))
  }

  /** Distinct member names in every literal, but for overloads. */
  predicate DistinctNames(t: TypeNode)
    decreases t, 1
  {
    match Peel(t, AsWritten).node
    case Literal(elements) => DistinctKeys(elements) && forall e | e in elements :: ElementDistinctNames(e)
    case Union(types) => forall u | u in types :: DistinctNames(u)
    case Intersection(types) => forall u | u in types :: DistinctNames(u)
    case _ => true
  }

  predicate ElementDistinctNames(e: TypeElement)
    decreases e, 0
  {
    e.Property? && e.annotation.Some? ==> DistinctNames(e.annotation.value)
  }

  lemma OtherElementLacks(other: TypeElement, e: TypeElement, mode: ForcedMode, p: Path)
    requires Named(e) && ElementKey(other) != ElementKey(e)
    requires p in Required(ElementMembers(e, mode))
    ensures p !in ElementMembers(other, mode)
  {}

  lemma {:induction false} OwnElementDecides(elements: seq<TypeElement>, mode: ForcedMode, e: TypeElement, p: Path)
    requires DistinctKeys(elements) && e in elements && Named(e)
    requires p in Required(ElementMembers(e, mode))
    ensures p in Required(LiteralMembers(elements, mode))
  {
    var n := |elements| - 1;
    var last := elements[n];
    if last != e {
      assert e in elements[..n];
      OwnElementDecides(elements[..n], mode, e, p);
      if ElementKey(last) != ElementKey(e) {
        OtherElementLacks(last, e, mode, p);
      } else {
        assert MayShareKey(e, last);
      }
    }
  }

  lemma UnionRequired(types: seq<TypeNode>, p: Path)
    ensures p in Required(MergeUnion(ResolveEach(types))) <==>
      types != [] && forall u :: u in types ==> p in Required(Resolve(u))
  {
    var maps := ResolveEach(types);
    RequiredInUnion(maps, p);
    forall u | u in types ensures exists i :: 0 <= i < |maps| && maps[i] == Resolve(u) {
      var i :| 0 <= i < |types| && types[i] == u;
      assert maps[i] == Resolve(u);
    }
  }

  lemma IntersectionRequired(types: seq<TypeNode>, p: Path)
    ensures p in Required(MergeIntersection(ResolveEach(types))) <==>
      exists u :: u in types && p in Required(Resolve(u))
  {
    var maps := ResolveEach(types);
    RequiredInIntersection(maps, p);
    forall u | u in types ensures exists i :: 0 <= i < |maps| && maps[i] == Resolve(u) {
      var i :| 0 <= i < |types| && types[i] == u;
      assert maps[i] == Resolve(u);
    }
  }

  /** The checker's marks, in the checker's reading. */
  lemma {:induction false} RequiredIffMarked(t: TypeNode, p: Path)
    requires DistinctNames(t)
    ensures p in Required(Resolve(t)) <==> Marked(Innermost, t, AsWritten, p)
    decreases t, 1
  {
    var Peeled(node, mode) := Peel(t, AsWritten);
    match node
    case Literal(elements) => LiteralRequiredIffMarked(elements, mode, p);
    case Union(types) =>
      forall u | u in types { RequiredIffMarked(u, p); }
      UnionRequired(types, p);
    case Intersection(types) =>
      forall u | u in types { RequiredIffMarked(u, p); }
      IntersectionRequired(types, p);
    case _ =>
  }

  lemma {:induction false} LiteralRequiredIffMarked(elements: seq<TypeElement>, mode: ForcedMode, p: Path)
    requires DistinctKeys(elements) && forall e | e in elements :: ElementDistinctNames(e)
    ensures p in Required(LiteralMembers(elements, mode)) <==>
      exists e :: e in elements && MarkedBy(Innermost, e, mode, p)
    decreases elements, 0
  {
    forall e | e in elements ensures p in Required(ElementMembers(e, mode)) <==> MarkedBy(Innermost, e, mode, p) {
      ElementRequiredIffMarked(e, mode, p);
    }
    if p in Required(LiteralMembers(elements, mode)) {
      var i := LastRecorder(elements, mode, p);
      assert elements[i] in elements;
    }
    if e :| e in elements && MarkedBy(Innermost, e, mode, p) {
      OwnElementDecides(elements, mode, e, p);
    }
  }

  lemma {:induction false} ElementRequiredIffMarked(e: TypeElement, mode: ForcedMode, p: Path)
    requires ElementDistinctNames(e)
    ensures p in Required(ElementMembers(e, mode)) <==> MarkedBy(Innermost, e, mode, p)
    decreases e, 0
  {
    if p == [] {
      return;
    }
    assert p == [p[0]] + p[1..];
    match e
    case Property(key, _, annotation) =>
      if annotation.Some? {
        RequiredIffMarked(annotation.value, p[1..]);
      }
      assert MemberName(key) == Some(p[0]) && p[1..] == [] ==> p == [p[0]];
    case Method(key, _, _, _) =>
      assert MemberName(key) == Some(p[0]) && p[1..] == [] ==> p == [p[0]];
    case _ =>
  }

  // ---------- without intersections ----------

  lemma {:induction false} PeeledFrom(t: TypeNode, start: ForcedMode, context: ForcedMode)
    ensures Alternatives(t, context) == Alternatives(Peel(t, start).node, OuterMode(t, context))
    ensures Peel(t, start).node == Peel(t, AsWritten).node
    decreases t
  {
    match t
    case Paren(inner) => PeeledFrom(inner, start, context);
    case Ref(name, args) =>
      if args != [] && WrapperEffect(name, start).Some? {
        PeeledFrom(args[0], WrapperEffect(name, start).value, OuterEffect(name, context).value);
        PeeledFrom(args[0], WrapperEffect(name, AsWritten).value, OuterEffect(name, context).value);
      }
    case _ =>
  }

  lemma {:induction false} AlternativesPeeled(t: TypeNode, context: ForcedMode)
    ensures Alternatives(t, context) == Alternatives(Peel(t, AsWritten).node, OuterMode(t, context))
    decreases t
  {
    PeeledFrom(t, AsWritten, context);
  }

  lemma SingleCombination(types: seq<TypeNode>, context: ForcedMode, shapes: seq<Shape>)
    requires |types| == 1
    ensures shapes in Combinations(types, context) <==> shapes in Alternatives(types[0], context)
  {
    var none: seq<Shape> := [];
    assert none in Combinations(types[1..], context);
    assert shapes + none == shapes;
    if shapes in Combinations(types, context) {
      var a, b :| a in Alternatives(types[0], context) && b in Combinations(types[1..], context) && shapes == a + b;
      assert a == shapes;
    }
  }

  lemma SameAlternatives(a: TypeNode, b: TypeNode, inA: ForcedMode, inB: ForcedMode, p: Path)
    requires Alternatives(a, inA) == Alternatives(b, inB)
    ensures Always(a, inA, p) <==> Always(b, inB, p)
  {}

  lemma {:induction false} PeeledInherits(t: TypeNode)
    ensures OneSided(t) ==> OneSided(Peel(t, AsWritten).node)
    ensures Inhabitable(t) ==> Inhabitable(Peel(t, AsWritten).node)
    decreases t
  {
    match t
    case Paren(inner) => PeeledInherits(inner);
    case Ref(name, args) =>
      if args != [] && WrapperEffect(name, AsWritten).Some? {
        PeeledFrom(args[0], WrapperEffect(name, AsWritten).value, AsWritten);
        PeeledInherits(args[0]);
      }
    case _ =>
  }

  lemma OwnFieldType(elements: seq<TypeElement>, e: TypeElement, n: string)
    requires DistinctKeys(elements) && e in elements && Names(e, n)
    ensures FieldTypes(elements, n) == if e.Property? && e.annotation.Some? then [e.annotation.value] else []
  {
    assert NamesField(elements, n);
    AtMostOneType(elements, n);
    var types := FieldTypes(elements, n);
    if e.Property? && e.annotation.Some? {
      assert e.annotation.value in TypesFrom(e, n, true);
    }
    forall t | t in types ensures t in TypesFrom(e, n, true) {
      var d :| d in elements && t in TypesFrom(d, n, true);
      assert ElementKey(d) == ElementKey(e);
      var i :| 0 <= i < |elements| && elements[i] == d;
      var j :| 0 <= j < |elements| && elements[j] == e;
    }
    if e.Property? && e.annotation.Some? {
      assert e.annotation.value in types;
    }
    if types != [] {
      assert types[0] in types && types[0] in TypesFrom(e, n, true);
      assert types == [types[0]];
    }
  }

  lemma AlwaysInSingle(types: seq<TypeNode>, context: ForcedMode, p: Path)
    requires |types| <= 1 && p != []
    ensures Always(Intersection(types), context, p) <==> types != [] && Always(types[0], context, p)
  {
    if types == [] {
      assert [] in Alternatives(Intersection(types), context);
    } else {
      forall shapes { SingleCombination(types, context, shapes); }
      assert Alternatives(Intersection(types), context) == Alternatives(types[0], context);
      SameAlternatives(Intersection(types), types[0], context, context, p);
    }
  }

  lemma AlwaysInUnion(types: seq<TypeNode>, context: ForcedMode, p: Path)
    ensures Always(Union(types), context, p) <==> p == [] || forall u :: u in types ==> Always(u, context, p)
  {
    forall u, shapes | u in types && shapes in Alternatives(u, context)
      ensures shapes in Alternatives(Union(types), context) {}
  }

  lemma AlwaysInLiteral(elements: seq<TypeElement>, mode: ForcedMode, p: Path)
    requires p != []
    ensures Always(Literal(elements), mode, p) <==>
      Demands(elements, mode, p[0]) && Always(Intersection(FieldTypes(elements, p[0])), AsWritten, p[1..])
  {
    var shapes := [Shape(elements, mode)];
    assert Alternatives(Literal(elements), mode) == {shapes};
    assert FieldTypesOfAll(shapes[1..], p[0]) == [];
    assert FieldType(shapes, p[0]) == Intersection(FieldTypes(elements, p[0]));
    assert SomeDemands(shapes, p[0]) <==> Demands(elements, mode, p[0]);
  }

  /** Where nothing is constrained from two sides, what is always there is what is marked in
      TypeScript's reading of the wrappers. */
  lemma {:induction false} AlwaysIffMarked(t: TypeNode, context: ForcedMode, p: Path)
    requires OneSided(t) && Inhabitable(t) && p != []
    ensures Always(t, context, p) <==> Marked(Outermost, t, context, p)
    decreases t, 1
  {
    AlternativesPeeled(t, context);
    PeeledInherits(t);
    var node, outer := Peel(t, AsWritten).node, OuterMode(t, context);
    SameAlternatives(t, node, context, outer, p);
    match node
    case Literal(elements) => LiteralAlwaysIffMarked(elements, outer, p);
    case Union(types) =>
      AlwaysInUnion(types, outer, p);
      forall u | u in types { AlwaysIffMarked(u, outer, p); }
    case Intersection(types) =>
      AlwaysInSingle(types, outer, p);
      if types != [] {
        assert types[0] in types && forall u :: u in types ==> u == types[0];
        AlwaysIffMarked(types[0], outer, p);
      }
    case _ =>
  }

  lemma {:induction false} LiteralAlwaysIffMarked(elements: seq<TypeElement>, mode: ForcedMode, p: Path)
    requires OneSided(Literal(elements)) && Inhabitable(Literal(elements)) && p != []
    ensures Always(Literal(elements), mode, p) <==> exists e :: e in elements && MarkedBy(Outermost, e, mode, p)
    decreases elements, 0
  {
    AlwaysInLiteral(elements, mode, p);
    forall e | e in elements && Names(e, p[0]) && !IsOptional(mode, e.optional)
      ensures Always(Intersection(FieldTypes(elements, p[0])), AsWritten, p[1..]) <==> MarkedBy(Outermost, e, mode, p)
    {
      OwnFieldType(elements, e, p[0]);
      if p[1..] != [] {
        AlwaysInSingle(FieldTypes(elements, p[0]), AsWritten, p[1..]);
        if e.Property? && e.annotation.Some? {
          assert ElementOneSided(e) && ElementInhabitable(e);
          AlwaysIffMarked(e.annotation.value, AsWritten, p[1..]);
        }
      }
    }
  }

  lemma {:induction false} OneSidedIsDistinct(t: TypeNode)
    requires OneSided(t)
    ensures DistinctNames(t)
    decreases t, 1
  {
    PeeledInherits(t);
    match Peel(t, AsWritten).node
    case Literal(elements) =>
      forall e | e in elements ensures ElementDistinctNames(e) {
        assert ElementOneSided(e);
        if e.Property? && e.annotation.Some? {
          OneSidedIsDistinct(e.annotation.value);
        }
      }
    case Union(types) =>
      forall u | u in types ensures DistinctNames(u) { OneSidedIsDistinct(u); }
    case Intersection(types) =>
      forall u | u in types ensures DistinctNames(u) { OneSidedIsDistinct(u); }
    case _ =>
  }

  /** Without intersections the checker and the values differ only by the reading of wrappers:
      the same rule, read by the innermost wrapper, gives what the checker marks, and read by the
      outermost, what every value has. */
  lemma OnlyWrappersDiffer(leaf: LeafSemantics, t: TypeNode, p: Path)
    requires OneSided(t) && Inhabitable(t) && BareLeaves(leaf)
    ensures MarkedRequired(t, p) <==> Marked(Innermost, t, AsWritten, p)
    ensures EveryValueHas(leaf, t, p) <==> p != [] && Marked(Outermost, t, AsWritten, p)
  {
    OneSidedIsDistinct(t);
    RequiredIffMarked(t, p);
    EveryValueHasIff(leaf, t, p);
    if p != [] {
      AlwaysIffMarked(t, AsWritten, p);
    }
  }

  /** Each stack of wrappers in the type means the same to the checker and to TypeScript. */
  predicate ReadsAlike(t: TypeNode)
    decreases t, 1
  {
    var Peeled(node, mode) := Peel(t, AsWritten);
    var outer := OuterMode(t, AsWritten);
    match node
    case Literal(elements) => outer == mode && forall e | e in elements :: ElementReadsAlike(e)
    case Union(types) => outer == AsWritten && forall u | u in types :: ReadsAlike(u)
    case Intersection(types) => outer == AsWritten && forall u | u in types :: ReadsAlike(u)
    case _ => true
  }

  predicate ElementReadsAlike(e: TypeElement)
    decreases e, 0
  {
    e.Property? && e.annotation.Some? ==> ReadsAlike(e.annotation.value)
  }

  lemma {:induction false} ReadingsAgree(t: TypeNode, p: Path)
    requires ReadsAlike(t)
    ensures Marked(Innermost, t, AsWritten, p) <==> Marked(Outermost, t, AsWritten, p)
    decreases t, 1
  {
    match Peel(t, AsWritten).node
    case Literal(elements) =>
      var mode := Peel(t, AsWritten).mode;
      forall e | e in elements ensures MarkedBy(Innermost, e, mode, p) <==> MarkedBy(Outermost, e, mode, p) {
        if p != [] && e.Property? && e.annotation.Some? {
          assert ElementReadsAlike(e);
          ReadingsAgree(e.annotation.value, p[1..]);
        }
      }
    case Union(types) =>
      forall u | u in types { ReadingsAgree(u, p); }
    case Intersection(types) =>
      forall u | u in types { ReadingsAgree(u, p); }
    case _ =>
  }

  /** So where the readings agree and nothing is constrained from two sides, the checker marks
      exactly the paths that every value has. */
  lemma RequiredIffAlwaysPresent(leaf: LeafSemantics, t: TypeNode, p: Path)
    requires OneSided(t) && Inhabitable(t) && ReadsAlike(t) && BareLeaves(leaf) && p != []
    ensures p in Required(Resolve(t)) <==> InEveryValue(leaf, t, AsWritten, p)
  {
    ReadingsAgree(t, p);
    OnlyWrappersDiffer(leaf, t, p);
  }

  // ---------- all types ----------

  /** The type, followed along the path whatever it makes optional on the way, ends in a member
      that it does not make optional: in some constituent of an intersection, and in every
      constituent of a union. */
  predicate Holds(t: TypeNode, context: ForcedMode, p: Path)
    requires p != []
    decreases |p|, t
  {
    match t
    case Paren(inner) => Holds(inner, context, p)
    case Ref(name, args) =>
      if args == [] then false
      else (match OuterEffect(name, context)
            case None => false
            case Some(next) => Holds(args[0], next, p))
    case Literal(elements) =>
      if |p| == 1 then Demands(elements, context, p[0])
      else exists u | u in FieldTypes(elements, p[0]) :: Holds(u, AsWritten, p[1..])
    case Union(types) => forall u | u in types :: Holds(u, context, p)
    case Intersection(types) => exists u | u in types :: Holds(u, context, p)
    case _ => false
  }

  /** The same, read off the shapes of one alternative. */
  predicate HoldIn(shapes: seq<Shape>, p: Path)
    requires p != []
  {
    if |p| == 1 then SomeDemands(shapes, p[0]) else Holds(FieldType(shapes, p[0]), AsWritten, p[1..])
  }

  lemma JoinedFieldTypes(a: seq<Shape>, b: seq<Shape>, n: string, t: TypeNode)
    ensures t in FieldTypesOfAll(a + b, n) <==> t in FieldTypesOfAll(a, n) || t in FieldTypesOfAll(b, n)
  {
    forall s ensures s in a + b <==> s in a || s in b {}
  }

  lemma JoinedDemands(a: seq<Shape>, b: seq<Shape>, n: string)
    ensures SomeDemands(a + b, n) <==> SomeDemands(a, n) || SomeDemands(b, n)
  {
    forall s ensures s in a + b <==> s in a || s in b {}
  }

  predicate SomeHolds(types: seq<TypeNode>, p: Path)
    requires p != []
  {
    exists u | u in types :: Holds(u, AsWritten, p)
  }

  lemma FieldHolds(shapes: seq<Shape>, n: string, p: Path)
    requires p != []
    ensures Holds(FieldType(shapes, n), AsWritten, p) <==> SomeHolds(FieldTypesOfAll(shapes, n), p)
  {}

  lemma SomeHoldsJoined(types: seq<TypeNode>, a: seq<TypeNode>, b: seq<TypeNode>, p: Path)
    requires p != [] && forall t :: t in types <==> t in a || t in b
    ensures SomeHolds(types, p) <==> SomeHolds(a, p) || SomeHolds(b, p)
  {}

  lemma HoldInBoth(a: seq<Shape>, b: seq<Shape>, p: Path)
    requires p != []
    ensures HoldIn(a + b, p) <==> HoldIn(a, p) || HoldIn(b, p)
  {
    var n, rest := p[0], p[1..];
    if |p| == 1 {
      JoinedDemands(a, b, n);
    } else {
      forall t { JoinedFieldTypes(a, b, n, t); }
      SomeHoldsJoined(FieldTypesOfAll(a + b, n), FieldTypesOfAll(a, n), FieldTypesOfAll(b, n), rest);
      FieldHolds(a + b, n, rest);
      FieldHolds(a, n, rest);
      FieldHolds(b, n, rest);
    }
  }

  predicate HeldInAll(alternatives: set<seq<Shape>>, p: Path)
    requires p != []
  {
    forall shapes | shapes in alternatives :: HoldIn(shapes, p)
  }

  /** If some alternative of either side does not hold the path, their combination does not. */
  lemma HeldInCombined(a: set<seq<Shape>>, b: set<seq<Shape>>, combined: set<seq<Shape>>, p: Path)
    requires p != []
    requires forall x, y :: x in a && y in b ==> x + y in combined
    requires forall c :: c in combined ==> exists x, y :: x in a && y in b && c == x + y
    ensures HeldInAll(combined, p) <==> HeldInAll(a, p) || HeldInAll(b, p)
  {
    if x :| x in a && !HoldIn(x, p) {
      if y :| y in b && !HoldIn(y, p) {
        HoldInBoth(x, y, p);
        assert x + y in combined;
      }
    }
    forall c | c in combined && (HeldInAll(a, p) || HeldInAll(b, p)) ensures HoldIn(c, p) {
      var x, y :| x in a && y in b && c == x + y;
      HoldInBoth(x, y, p);
    }
  }

  lemma {:induction false} HoldsInShapes(t: TypeNode, context: ForcedMode, p: Path)
    requires p != []
    ensures Holds(t, context, p) <==> HeldInAll(Alternatives(t, context), p)
    decreases t
  {
    match t
    case Paren(inner) => HoldsInShapes(inner, context, p);
    case Ref(name, args) =>
      if args != [] && OuterEffect(name, context).Some? {
        HoldsInShapes(args[0], OuterEffect(name, context).value, p);
      } else {
        assert !HoldIn([], p) && [] in Alternatives(t, context);
      }
    case Literal(elements) =>
      var shapes := [Shape(elements, context)];
      assert FieldTypesOfAll(shapes[1..], p[0]) == [];
      assert Alternatives(t, context) == {shapes};
      assert Holds(t, context, p) <==> HoldIn(shapes, p);
    case Union(types) => HoldsInUnion(types, context, p);
    case Intersection(types) => HoldsInCombination(types, context, p);
    case _ =>
      assert !HoldIn([], p) && [] in Alternatives(t, context);
  }

  lemma {:induction false} HoldsInUnion(types: seq<TypeNode>, context: ForcedMode, p: Path)
    requires p != []
    ensures (forall u :: u in types ==> Holds(u, context, p)) <==> HeldInAll(Alternatives(Union(types), context), p)
    decreases types
  {
    forall u | u in types ensures Holds(u, context, p) <==> HeldInAll(Alternatives(u, context), p) {
      HoldsInShapes(u, context, p);
    }
    var all := Alternatives(Union(types), context);
    if HeldInAll(all, p) {
      forall u, shapes | u in types && shapes in Alternatives(u, context) ensures HoldIn(shapes, p) {
        assert shapes in all;
      }
    }
  }

  lemma {:induction false} HoldsInCombination(types: seq<TypeNode>, context: ForcedMode, p: Path)
    requires p != []
    ensures (exists u :: u in types && Holds(u, context, p)) <==> HeldInAll(Combinations(types, context), p)
    decreases types
  {
    if types == [] {
      assert !HoldIn([], p) && [] in Combinations(types, context);
    } else {
      var rest := types[1..];
      HoldsInShapes(types[0], context, p);
      HoldsInCombination(rest, context, p);
      HeldInCombined(Alternatives(types[0], context), Combinations(rest, context), Combinations(types, context), p);
      assert forall u :: u in types <==> u == types[0] || u in rest;
    }
  }

  lemma HoldsInField(shapes: seq<Shape>, p: Path, i: nat)
    requires 1 < i <= |p|
    ensures HoldIn(shapes, p[..i]) <==> Holds(FieldType(shapes, p[0]), AsWritten, p[1..][..i - 1])
  {
    assert p[..i][1..] == p[1..][..i - 1];
  }

  predicate HoldsAllAlong(t: TypeNode, context: ForcedMode, p: Path) {
    forall i | 1 <= i <= |p| :: Holds(t, context, p[..i])
  }

  predicate HeldAllAlongIn(shapes: seq<Shape>, p: Path) {
    forall i | 1 <= i <= |p| :: HoldIn(shapes, p[..i])
  }

  lemma AllAlongIn(shapes: seq<Shape>, p: Path)
    requires p != []
    ensures HeldAllAlongIn(shapes, p) <==>
      SomeDemands(shapes, p[0]) && HoldsAllAlong(FieldType(shapes, p[0]), AsWritten, p[1..])
  {
    var rest := p[1..];
    assert HoldIn(shapes, p[..1]) <==> SomeDemands(shapes, p[0]);
    forall i | 1 < i <= |p|
      ensures HoldIn(shapes, p[..i]) <==> Holds(FieldType(shapes, p[0]), AsWritten, rest[..i - 1])
    {
      HoldsInField(shapes, p, i);
    }
    if HeldAllAlongIn(shapes, p) {
      forall i | 1 <= i <= |rest| ensures Holds(FieldType(shapes, p[0]), AsWritten, rest[..i]) {
        assert HoldIn(shapes, p[..i + 1]);
      }
    }
  }

  lemma AllAlongInShapes(t: TypeNode, context: ForcedMode, p: Path)
    ensures HoldsAllAlong(t, context, p) <==>
      forall shapes | shapes in Alternatives(t, context) :: HeldAllAlongIn(shapes, p)
  {
    forall i | 1 <= i <= |p| ensures Holds(t, context, p[..i]) <==> HeldInAll(Alternatives(t, context), p[..i]) {
      HoldsInShapes(t, context, p[..i]);
    }
    if forall shapes | shapes in Alternatives(t, context) :: HeldAllAlongIn(shapes, p) {
      forall i | 1 <= i <= |p| ensures HeldInAll(Alternatives(t, context), p[..i]) {
        forall shapes | shapes in Alternatives(t, context) ensures HoldIn(shapes, p[..i]) {
          assert HeldAllAlongIn(shapes, p);
        }
      }
    }
    if HoldsAllAlong(t, context, p) {
      forall shapes, i | shapes in Alternatives(t, context) && 1 <= i <= |p| ensures HoldIn(shapes, p[..i]) {
        assert HeldInAll(Alternatives(t, context), p[..i]);
      }
    }
  }

  /** A path is always there iff each of its steps is held, not necessarily by one and the same
      constituent. */
  lemma {:induction false} AlwaysIffHeldAllAlong(t: TypeNode, context: ForcedMode, p: Path)
    ensures Always(t, context, p) <==> HoldsAllAlong(t, context, p)
    decreases |p|
  {
    if p != [] {
      forall shapes | shapes in Alternatives(t, context) ensures AlwaysIn(shapes, p) <==> HeldAllAlongIn(shapes, p) {
        AllAlongIn(shapes, p);
        AlwaysIffHeldAllAlong(FieldType(shapes, p[0]), AsWritten, p[1..]);
      }
      AllAlongInShapes(t, context, p);
    }
  }

  lemma {:induction false} MarkedPrefix(reading: Reading, t: TypeNode, context: ForcedMode, p: Path, i: nat)
    requires Marked(reading, t, context, p) && 1 <= i <= |p|
    ensures Marked(reading, t, context, p[..i])
    decreases t, 1
  {
    var next := ModeHandedOn(reading, t, context);
    match Peel(t, AsWritten).node
    case Literal(elements) =>
      var mode := ModeRead(reading, t, context);
      var e :| e in elements && MarkedBy(reading, e, mode, p);
      MarkedPrefixBy(reading, e, mode, p, i);
    case Union(types) =>
      forall u | u in types { MarkedPrefix(reading, u, next, p, i); }
    case Intersection(types) =>
      var u :| u in types && Marked(reading, u, next, p);
      MarkedPrefix(reading, u, next, p, i);
    case _ =>
  }

  lemma {:induction false} MarkedPrefixBy(reading: Reading, e: TypeElement, mode: ForcedMode, p: Path, i: nat)
    requires MarkedBy(reading, e, mode, p) && 1 <= i <= |p|
    ensures MarkedBy(reading, e, mode, p[..i])
    decreases e, 0
  {
    if i > 1 {
      assert p[..i][1..] == p[1..][..i - 1];
      MarkedPrefix(reading, e.annotation.value, AsWritten, p[1..], i - 1);
    }
  }

  /** If the checker marks the path, the type does not make its last member optional. */
  predicate HeldIfMarked(t: TypeNode, p: Path) {
    p != [] && Marked(Innermost, t, AsWritten, p) ==> Holds(t, AsWritten, p)
  }

  lemma AlwaysThereIsHeld(t: TypeNode, p: Path)
    requires AlwaysThere(t, p)
    ensures Holds(t, AsWritten, p)
  {
    AlwaysIffHeldAllAlong(t, AsWritten, p);
    assert p[..|p|] == p;
  }

  lemma HeldIsAlwaysThere(t: TypeNode, p: Path)
    requires DistinctNames(t) && MarkedRequired(t, p)
    requires forall i | 1 <= i <= |p| :: HeldIfMarked(t, p[..i])
    ensures AlwaysThere(t, p)
  {
    RequiredIffMarked(t, p);
    forall i | 1 <= i <= |p| ensures Holds(t, AsWritten, p[..i]) {
      MarkedPrefix(Innermost, t, AsWritten, p, i);
      assert HeldIfMarked(t, p[..i]);
    }
    AlwaysIffHeldAllAlong(t, AsWritten, p);
  }

  /** When the marks of a type are sound: each is held. */
  lemma SoundIffHeld(leaf: LeafSemantics, t: TypeNode)
    requires Inhabitable(t) && DistinctNames(t) && Unhindered(leaf, t)
    ensures Sound(leaf, t) <==> forall p :: HeldIfMarked(t, p)
  {
    SoundIff(leaf, t);
    if Sound(leaf, t) {
      forall p ensures HeldIfMarked(t, p) {
        RequiredIffMarked(t, p);
        if MarkedRequired(t, p) {
          AlwaysThereIsHeld(t, p);
        }
      }
    }
    if forall p :: HeldIfMarked(t, p) {
      forall p | MarkedRequired(t, p) ensures AlwaysThere(t, p) {
        HeldIsAlwaysThere(t, p);
      }
    }
  }

  /** Each mark is held at every step: what the next lemma shows to be soundness, for repeated
      names as well. */
  ghost predicate SoundlyMarked(t: TypeNode) {
    forall p :: MarkedRequired(t, p) ==> HoldsAllAlong(t, AsWritten, p)
  }

  lemma SoundIffSoundlyMarked(leaf: LeafSemantics, t: TypeNode)
    requires Inhabitable(t) && Unhindered(leaf, t)
    ensures Sound(leaf, t) <==> SoundlyMarked(t)
    ensures DistinctNames(t) ==> (SoundlyMarked(t) <==> forall p :: HeldIfMarked(t, p))
  {
    SoundIff(leaf, t);
    forall p ensures AlwaysThere(t, p) <==> p != [] && HoldsAllAlong(t, AsWritten, p) {
      AlwaysIffHeldAllAlong(t, AsWritten, p);
    }
    if DistinctNames(t) {
      SoundIffHeld(leaf, t);
    }
  }

  /** A type that keeps each `Partial` that TypeScript honours is soundly marked. */
  lemma KeptPartialIsSound(t: TypeNode)
    requires KeepsPartial(t) && Inhabitable(t)
    ensures SoundlyMarked(t)
  {
    var free: LeafSemantics := (node, mode, v) => true;
    forall p | MarkedRequired(t, p) ensures HoldsAllAlong(t, AsWritten, p) {
      forall v | Inhabits(free, v, t, AsWritten) ensures Present(v, p) {
        RequiredIsPresent(free, v, t, AsWritten, p);
      }
      AlwaysIff(free, t, AsWritten, p);
      AlwaysIffHeldAllAlong(t, AsWritten, p);
    }
  }

  /** A member that is marked and always there, and a member `n` below it that is held, though the
      whole path is not marked: a side of an intersection that holds it makes something on the way
      optional that another side requires, or a wrapper is read differently. */
  ghost predicate LosesBelow(t: TypeNode, member: Path, n: string) {
    (member == [] || Marked(Innermost, t, AsWritten, member)) && HoldsAllAlong(t, AsWritten, member) &&
    Holds(t, AsWritten, member + [n]) && !Marked(Innermost, t, AsWritten, member + [n])
  }

  lemma AllAlongExtends(t: TypeNode, context: ForcedMode, member: Path, n: string)
    ensures HoldsAllAlong(t, context, member + [n]) <==>
      HoldsAllAlong(t, context, member) && Holds(t, context, member + [n])
  {
    var p := member + [n];
    assert p[..|p|] == p;
    forall i | 1 <= i <= |member| ensures p[..i] == member[..i] {}
  }

  lemma {:induction false} MarkedAllAlong(t: TypeNode, p: Path)
    requires HoldsAllAlong(t, AsWritten, p) && forall member, n :: !LosesBelow(t, member, n)
    ensures p == [] || Marked(Innermost, t, AsWritten, p)
    decreases |p|
  {
    if p != [] {
      var member, n := p[..|p| - 1], p[|p| - 1];
      assert p == member + [n];
      AllAlongExtends(t, AsWritten, member, n);
      MarkedAllAlong(t, member);
      assert !LosesBelow(t, member, n);
    }
  }

  lemma LossIsLost(t: TypeNode, member: Path, n: string)
    requires DistinctNames(t) && LosesBelow(t, member, n)
    ensures AlwaysThere(t, member + [n]) && !MarkedRequired(t, member + [n])
  {
    AllAlongExtends(t, AsWritten, member, n);
    AlwaysIffHeldAllAlong(t, AsWritten, member + [n]);
    RequiredIffMarked(t, member + [n]);
  }

  lemma AlwaysThereIsMarked(t: TypeNode, p: Path)
    requires DistinctNames(t) && AlwaysThere(t, p) && forall member, n :: !LosesBelow(t, member, n)
    ensures MarkedRequired(t, p)
  {
    AlwaysIffHeldAllAlong(t, AsWritten, p);
    MarkedAllAlong(t, p);
    RequiredIffMarked(t, p);
  }

  /** When no mark is missing, unions and intersections of any depth included. */
  lemma LosslessIff(leaf: LeafSemantics, t: TypeNode)
    requires Inhabitable(t) && DistinctNames(t) && Unhindered(leaf, t)
    ensures Lossless(leaf, t) <==> forall member, n :: !LosesBelow(t, member, n)
  {
    SoundIff(leaf, t);
    if Lossless(leaf, t) {
      forall member, n ensures !LosesBelow(t, member, n) {
        if LosesBelow(t, member, n) {
          LossIsLost(t, member, n);
        }
      }
    }
    if forall member, n :: !LosesBelow(t, member, n) {
      forall p | AlwaysThere(t, p) ensures MarkedRequired(t, p) {
        AlwaysThereIsMarked(t, p);
      }
    }
  }

  /** A literal of members that are not expanded further. */
  predicate FlatLiteral(t: TypeNode) {
    t.Literal? && DistinctKeys(t.elements) &&
      forall e | e in t.elements :: !e.IndexSignature? &&
        (e.Property? && e.annotation.Some? ==> e.annotation.value.Leaf?)
  }

  lemma FlatHolds(t: TypeNode, p: Path)
    requires FlatLiteral(t) && p != [] && Holds(t, AsWritten, p)
    ensures |p| == 1 && Marked(Innermost, t, AsWritten, p)
  {
    forall u | u in FieldTypes(t.elements, p[0]) ensures u.Leaf? {
      var e :| e in t.elements && u in TypesFrom(e, p[0], NamesField(t.elements, p[0]));
    }
    var e :| e in t.elements && Names(e, p[0]) && !IsOptional(AsWritten, e.optional);
    assert MarkedBy(Innermost, e, AsWritten, p);
  }

  /** `{a} & {b}`: nothing is lost when no side holds anything below a member. */
  lemma FlatIntersectionLossless(leaf: LeafSemantics, types: seq<TypeNode>)
    requires (forall u | u in types :: FlatLiteral(u)) && Unhindered(leaf, Intersection(types))
    ensures Lossless(leaf, Intersection(types))
  {
    var t := Intersection(types);
    forall u | u in types ensures DistinctNames(u) && Inhabitable(u) {}
    forall member, n ensures !LosesBelow(t, member, n) {
      if Holds(t, AsWritten, member + [n]) {
        var u :| u in types && Holds(u, AsWritten, member + [n]);
        FlatHolds(u, member + [n]);
      }
    }
    LosslessIff(leaf, t);
  }

  // ---------- where the checker parts from TypeScript ----------

  function OneMember(name: string, optional: bool, annotation: TypeNode): TypeNode {
    Literal([Property(Plain(name), optional, Some(annotation))])
  }

  lemma OneElementMap(e: TypeElement, mode: ForcedMode)
    ensures LiteralMembers([e], mode) == ElementMembers(e, mode)
  {
    assert [e][..0] == [];
    assert map[] + ElementMembers(e, mode) == ElementMembers(e, mode);
  }

  lemma OneMemberMap(name: string, optional: bool, annotation: TypeNode, mode: ForcedMode)
    ensures LiteralMembers(OneMember(name, optional, annotation).elements, mode)
            == map[[name] := IsOptional(mode, optional)] + Below(name, IsOptional(mode, optional), Resolve(annotation))
  {
    var e := Property(Plain(name), optional, Some(annotation));
    assert MemberName(e.key) == Some(name);
    assert ElementMembers(e, mode) == NamedMember(e.key, IsOptional(mode, optional), e.annotation);
    OneElementMap(e, mode);
  }

  /** One value without a marked path is enough. */
  lemma MarkBroken(leaf: LeafSemantics, t: TypeNode, v: Value, p: Path)
    requires MarkedRequired(t, p) && Inhabits(leaf, v, t, AsWritten) && !Present(v, p)
    ensures !Sound(leaf, t)
  {
    assert !InEveryValue(leaf, t, AsWritten, p);
    assert !EveryValueHas(leaf, t, p);
  }

  lemma WrapperRead(name: string, inner: TypeNode, start: ForcedMode, context: ForcedMode)
    requires WrapperEffect(name, start).Some?
    ensures Peel(Ref(name, [inner]), start) == Peel(inner, WrapperEffect(name, start).value)
    ensures OuterMode(Ref(name, [inner]), context) == OuterMode(inner, OuterEffect(name, context).value)
  {
    assert [inner][0] == inner;
  }

  lemma PartialRequiredRead(t: TypeNode)
    requires t.Literal?
    ensures Peel(Ref("Partial", [Ref("Required", [t])]), AsWritten) == Peeled(t, AllRequired)
    ensures OuterMode(Ref("Partial", [Ref("Required", [t])]), AsWritten) == AllOptional
  {
    WrapperRead("Partial", Ref("Required", [t]), AsWritten, AsWritten);
    WrapperRead("Required", t, AllOptional, AllOptional);
  }

  lemma NothingFits(leaf: LeafSemantics, elements: seq<TypeElement>)
    ensures Inhabits(leaf, Object(map[]), Literal(elements), AllOptional)
  {}

  /** `Partial<Required<{a}>>` is marked to require `a`, because the inner wrapper wins, and has
      the value without fields. */
  lemma PartialOverRequired(leaf: LeafSemantics, a: string, x: TypeNode)
    ensures var t := Ref("Partial", [Ref("Required", [OneMember(a, true, x)])]);
            MarkedRequired(t, [a]) && Inhabits(leaf, Object(map[]), t, AsWritten) && !Sound(leaf, t)
  {
    var inner := OneMember(a, true, x);
    var t := Ref("Partial", [Ref("Required", [inner])]);
    PartialRequiredRead(inner);
    OneMemberMap(a, true, x, AllRequired);
    NothingFits(leaf, inner.elements);
    InhabitsPeeled(leaf, Object(map[]), t, AsWritten, AsWritten);
    MarkBroken(leaf, t, Object(map[]), [a]);
  }

  lemma OneFieldFits(leaf: LeafSemantics, name: string, t: TypeNode, v: Value)
    requires Inhabits(leaf, v, t, AsWritten)
    ensures Inhabits(leaf, Object(map[name := v]), OneMember(name, false, t), AsWritten)
  {
    var e := Property(Plain(name), false, Some(t));
    assert Satisfies(leaf, map[name := v], e, [e], AsWritten);
  }

  lemma OneMemberRequires(name: string, t: TypeNode, p: Path)
    requires MarkedRequired(t, p)
    ensures MarkedRequired(OneMember(name, false, t), [name] + p)
  {
    OneMemberMap(name, false, t, AsWritten);
    assert ([name] + p)[1..] == p;
  }

  /** A mark that is broken in some type stays broken below a required member: the wrappers of the
      whole say nothing about it. */
  lemma BrokenBelow(leaf: LeafSemantics, name: string, t: TypeNode, v: Value, p: Path)
    requires MarkedRequired(t, p) && Inhabits(leaf, v, t, AsWritten) && !Present(v, p)
    ensures !Sound(leaf, OneMember(name, false, t))
  {
    OneFieldFits(leaf, name, t, v);
    OneMemberRequires(name, t, p);
    assert ([name] + p)[1..] == p;
    MarkBroken(leaf, OneMember(name, false, t), Object(map[name := v]), [name] + p);
  }

  lemma UnexpandedPeel(t: TypeNode)
    requires !t.Paren? && !t.Ref?
    ensures Peel(Ref("Partial", [t]), AsWritten) == Peeled(t, AllOptional) &&
      OuterMode(Ref("Partial", [t]), AsWritten) == AllOptional
  {
    WrapperRead("Partial", t, AsWritten, AsWritten);
  }

  lemma PeeledMark(t: TypeNode, p: Path)
    ensures Peel(t, AsWritten).node.Intersection? ==>
      (MarkedRequired(t, p) <==> p in Required(MergeIntersection(ResolveEach(Peel(t, AsWritten).node.types))))
    ensures Peel(t, AsWritten).node.Union? ==>
      (MarkedRequired(t, p) <==> p in Required(MergeUnion(ResolveEach(Peel(t, AsWritten).node.types))))
  {}

  lemma NothingFitsPartial(leaf: LeafSemantics, t: TypeNode)
    requires t.Union? || t.Intersection?
    requires t.types != [] && forall u | u in t.types :: u.Literal?
    ensures Inhabits(leaf, Object(map[]), Ref("Partial", [t]), AsWritten)
  {
    UnexpandedPeel(t);
    forall u | u in t.types ensures Inhabits(leaf, Object(map[]), u, AllOptional) {
      NothingFits(leaf, u.elements);
    }
    assert t.types[0] in t.types;
    assert Inhabits(leaf, Object(map[]), t, AllOptional);
    InhabitsPeeled(leaf, Object(map[]), Ref("Partial", [t]), AsWritten, AsWritten);
  }

  lemma BrokenByNothing(leaf: LeafSemantics, t: TypeNode, p: Path)
    requires MarkedRequired(t, p) && Inhabits(leaf, Object(map[]), t, AsWritten)
    ensures !Sound(leaf, t)
  {
    assert !Present(Object(map[]), p);
    MarkBroken(leaf, t, Object(map[]), p);
  }

  /** `Partial` around an intersection of literals is dropped: whatever a side requires stays
      required, though the value without fields is one of the type. */
  lemma PartialOverIntersection(leaf: LeafSemantics, types: seq<TypeNode>, side: TypeNode, p: Path)
    requires (forall u | u in types :: u.Literal?) && side in types && MarkedRequired(side, p)
    ensures !Sound(leaf, Ref("Partial", [Intersection(types)]))
  {
    UnexpandedPeel(Intersection(types));
    IntersectionRequired(types, p);
    PeeledMark(Ref("Partial", [Intersection(types)]), p);
    NothingFitsPartial(leaf, Intersection(types));
    BrokenByNothing(leaf, Ref("Partial", [Intersection(types)]), p);
  }

  /** And so it is around a union, for what all constituents require. */
  lemma PartialOverUnion(leaf: LeafSemantics, types: seq<TypeNode>, p: Path)
    requires types != [] && forall u | u in types :: u.Literal? && MarkedRequired(u, p)
    ensures !Sound(leaf, Ref("Partial", [Union(types)]))
  {
    UnexpandedPeel(Union(types));
    UnionRequired(types, p);
    PeeledMark(Ref("Partial", [Union(types)]), p);
    NothingFitsPartial(leaf, Union(types));
    BrokenByNothing(leaf, Ref("Partial", [Union(types)]), p);
  }

  /** `{a: {b: x}} & {a?: {c: y}}` */
  function Split(a: string, b: string, c: string, x: TypeNode, y: TypeNode): TypeNode {
    Intersection([OneMember(a, false, OneMember(b, false, x)), OneMember(a, true, OneMember(c, false, y))])
  }

  lemma FieldOf(leaf: LeafSemantics, v: Value, n: string, optional: bool, annotation: TypeNode)
    requires Inhabits(leaf, v, OneMember(n, optional, annotation), AsWritten)
    ensures v.Object? && (n in v.fields || optional)
    ensures n in v.fields ==> Inhabits(leaf, v.fields[n], annotation, AsWritten)
  {
    var e := Property(Plain(n), optional, Some(annotation));
    assert e in OneMember(n, optional, annotation).elements;
    assert Satisfies(leaf, v.fields, e, [e], AsWritten);
  }

  lemma SplitAlwaysHas(leaf: LeafSemantics, v: Value, a: string, b: string, c: string, x: TypeNode, y: TypeNode)
    requires Inhabits(leaf, v, Split(a, b, c, x, y), AsWritten)
    ensures Present(v, [a, c])
  {
    var sides := Split(a, b, c, x, y).types;
    assert sides[0] in sides && sides[1] in sides;
    FieldOf(leaf, v, a, false, OneMember(b, false, x));
    FieldOf(leaf, v, a, true, OneMember(c, false, y));
    FieldOf(leaf, v.fields[a], c, false, y);
    assert [a, c][1..] == [c] && [c][1..] == [];
  }

  lemma OneMemberPaths(name: string, optional: bool, annotation: TypeNode, p: Path)
    ensures p in Required(Resolve(OneMember(name, optional, annotation))) ==>
      !optional && p != [] && p[0] == name && (p == [name] || p[1..] in Required(Resolve(annotation)))
  {
    OneMemberMap(name, optional, annotation, AsWritten);
  }

  lemma NeitherSideRequires(a: string, b: string, c: string, x: TypeNode, y: TypeNode)
    requires b != c
    ensures [a, c] !in Required(Resolve(Split(a, b, c, x, y)))
  {
    var p := [a, c];
    assert p[1..] == [c];
    OneMemberPaths(b, false, x, [c]);
    OneMemberPaths(a, false, OneMember(b, false, x), p);
    OneMemberPaths(a, true, OneMember(c, false, y), p);
    var sides := Split(a, b, c, x, y).types;
    if p in Required(MergeIntersection(ResolveEach(sides))) {
      var u := RequiredOfIntersection(sides, p);
      assert false;
    }
  }

  /** Every value of that type has `a.c`, yet the checker marks it optional. So with
      intersections the required paths are sound but not complete. */
  lemma IntersectionIsIncomplete(leaf: LeafSemantics, a: string, b: string, c: string, x: TypeNode, y: TypeNode)
    requires b != c
    ensures [a, c] !in Required(Resolve(Split(a, b, c, x, y)))
    ensures forall v :: Inhabits(leaf, v, Split(a, b, c, x, y), AsWritten) ==> Present(v, [a, c])
  {
    NeitherSideRequires(a, b, c, x, y);
    forall v | Inhabits(leaf, v, Split(a, b, c, x, y), AsWritten) ensures Present(v, [a, c]) {
      SplitAlwaysHas(leaf, v, a, b, c, x, y);
    }
  }

  /** `class C { static a }` is recorded to require `a`, which no instance has to have: the guard
      on static members is needed. */
  lemma StaticMemberBreaks(leaf: LeafSemantics, a: string)
    ensures var d := Class([Field(Plain(a), false, true, false, None)]);
            [a] in Required(DeclarationMembers(d)) && Inhabits(leaf, Object(map[]), TypeOf(d), AsWritten) &&
              !StaticsAddNothing(d)
  {
    var member := Field(Plain(a), false, true, false, None);
    var d := Class([member]);
    assert [member][..0] == [];
    assert ClassMembers([member]) == map[] + ClassElementMembers(member);
    assert ClassElementMembers(member) == NamedMember(Plain(a), false, None);
    assert InstanceElements([member]) == [OtherElement];
    OneElementMap(OtherElement, AsWritten);
    RecordedAsDeclared(d);
  }
}
