/** What wrappers and names mean for the record of a type and for its values, spelled out. */
module Wrappers {
  import opened Syntax
  import opened MemberMaps
  import opened MemberResolution
  import opened ValueSemantics
  import opened AlwaysPresent
  import opened Exactness

  // ---------- wrappers ----------

  lemma SamePeelSameRecord(s: TypeNode, t: TypeNode)
    requires Peel(s, AsWritten) == Peel(t, AsWritten)
    ensures Resolve(s) == Resolve(t)
  {}

  /** Parentheses and `Readonly` change neither the record nor the values. */
  lemma ReadonlyChangesNothing(t: TypeNode, leaf: LeafSemantics, v: Value, mode: ForcedMode)
    ensures Resolve(Ref("Readonly", [t])) == Resolve(t) && Resolve(Paren(t)) == Resolve(t)
    ensures Inhabits(leaf, v, Ref("Readonly", [t]), mode) <==> Inhabits(leaf, v, t, mode)
    ensures Inhabits(leaf, v, Paren(t), mode) <==> Inhabits(leaf, v, t, mode)
  {
    WrapperRead("Readonly", t, AsWritten, mode);
    SamePeelSameRecord(Ref("Readonly", [t]), t);
    SamePeelSameRecord(Paren(t), t);
    assert [t][0] == t;
  }

  predicate Forces(name: string) {
    name == "Partial" || name == "Required"
  }

  lemma OneWrapperInhabits(leaf: LeafSemantics, v: Value, name: string, t: TypeNode, mode: ForcedMode)
    requires OuterEffect(name, mode).Some?
    ensures Inhabits(leaf, v, Ref(name, [t]), mode) <==> Inhabits(leaf, v, t, OuterEffect(name, mode).value)
  {
    assert [t][0] == t;
  }

  /** Of several type arguments a wrapper takes the first. */
  lemma FirstArgumentCounts(name: string, args: seq<TypeNode>, leaf: LeafSemantics, v: Value, mode: ForcedMode)
    requires args != [] && (Forces(name) || name == "Readonly")
    ensures Resolve(Ref(name, args)) == Resolve(Ref(name, [args[0]]))
    ensures Inhabits(leaf, v, Ref(name, args), mode) <==> Inhabits(leaf, v, Ref(name, [args[0]]), mode)
  {
    WrapperRead(name, args[0], AsWritten, mode);
    SamePeelSameRecord(Ref(name, args), Ref(name, [args[0]]));
    OneWrapperInhabits(leaf, v, name, args[0], mode);
  }

  /** No other reference is looked into, and none without arguments. */
  lemma OtherReferenceIsLeaf(name: string, args: seq<TypeNode>, leaf: LeafSemantics, v: Value, mode: ForcedMode)
    requires args == [] || (name != "Readonly" && name != "Partial" && name != "Required")
    ensures Resolve(Ref(name, args)) == map[]
    ensures Inhabits(leaf, v, Ref(name, args), mode) <==> leaf(Ref(name, args), mode, v)
  {}

  lemma ForcedPeel(t: TypeNode, mode: ForcedMode, other: ForcedMode, name: string)
    requires Forces(name)
    ensures Peel(Ref(name, [t]), mode) == Peel(Ref(name, [t]), other)
  {
    WrapperRead(name, t, mode, mode);
    WrapperRead(name, t, other, other);
  }

  /** For the record the innermost of several wrappers counts. */
  lemma RecordReadsInnermost(outer: string, inner: string, t: TypeNode)
    requires (Forces(outer) || outer == "Readonly") && Forces(inner)
    ensures Resolve(Ref(outer, [Ref(inner, [t])])) == Resolve(Ref(inner, [t]))
  {
    WrapperRead(outer, Ref(inner, [t]), AsWritten, AsWritten);
    ForcedPeel(t, WrapperEffect(outer, AsWritten).value, AsWritten, inner);
    SamePeelSameRecord(Ref(outer, [Ref(inner, [t])]), Ref(inner, [t]));
  }

  /** For the values the outermost one counts. */
  lemma ValuesReadOutermost(outer: string, inner: string, t: TypeNode, leaf: LeafSemantics, v: Value)
    requires Forces(outer) && (Forces(inner) || inner == "Readonly")
    ensures Inhabits(leaf, v, Ref(outer, [Ref(inner, [t])]), AsWritten) <==>
      Inhabits(leaf, v, Ref(outer, [t]), AsWritten)
  {
    OneWrapperInhabits(leaf, v, outer, Ref(inner, [t]), AsWritten);
    OneWrapperInhabits(leaf, v, outer, t, AsWritten);
    OneWrapperInhabits(leaf, v, inner, t, OuterEffect(outer, AsWritten).value);
  }

  lemma WrappedLiteral(name: string, elements: seq<TypeElement>)
    requires Forces(name)
    ensures Resolve(Ref(name, [Literal(elements)])) ==
      LiteralMembers(elements, if name == "Partial" then AllOptional else AllRequired)
  {
    WrapperRead(name, Literal(elements), AsWritten, AsWritten);
  }

  lemma NothingRequiredByOne(e: TypeElement, p: Path)
    ensures p !in Required(ElementMembers(e, AllOptional))
  {}

  lemma {:induction false} NothingRequired(elements: seq<TypeElement>, p: Path)
    ensures p !in Required(LiteralMembers(elements, AllOptional))
    decreases |elements|
  {
    if elements != [] {
      NothingRequired(elements[..|elements| - 1], p);
      NothingRequiredByOne(elements[|elements| - 1], p);
    }
  }

  /** `Partial` of a literal has the paths of the literal, none of them required, and every value
      may leave out all of its fields. */
  lemma PartialOfLiteral(elements: seq<TypeElement>, leaf: LeafSemantics, p: Path)
    ensures p in Resolve(Ref("Partial", [Literal(elements)])) <==> p in Resolve(Literal(elements))
    ensures p !in Required(Resolve(Ref("Partial", [Literal(elements)])))
    ensures Inhabits(leaf, Object(map[]), Ref("Partial", [Literal(elements)]), AsWritten)
  {
    WrappedLiteral("Partial", elements);
    NothingRequired(elements, p);
    LiteralRecordsDeclared(elements, AllOptional, p);
    LiteralRecordsDeclared(elements, AsWritten, p);
    NothingFits(leaf, elements);
    OneWrapperInhabits(leaf, Object(map[]), "Partial", Literal(elements), AsWritten);
  }

  lemma SingleName(n: string)
    ensures [n][0] == n && [n][1..] == []
  {}

  /** `Required` of a literal requires each of its named members, whatever their question marks,
      and no value leaves one out. */
  lemma RequiredOfLiteral(elements: seq<TypeElement>, e: TypeElement, n: string, leaf: LeafSemantics, v: Value)
    requires DistinctKeys(elements) && e in elements && (e.Property? || e.Method?) && e.key == Plain(n)
    ensures [n] in Required(Resolve(Ref("Required", [Literal(elements)])))
    ensures Inhabits(leaf, v, Ref("Required", [Literal(elements)]), AsWritten) ==> v.Object? && n in v.fields
  {
    WrappedLiteral("Required", elements);
    SingleName(n);
    assert [n] in Required(ElementMembers(e, AllRequired));
    OwnElementDecides(elements, AllRequired, e, [n]);
    OneWrapperInhabits(leaf, v, "Required", Literal(elements), AsWritten);
    if Inhabits(leaf, v, Literal(elements), AllRequired) {
      assert Satisfies(leaf, v.fields, e, elements, AllRequired);
    }
  }

  // ---------- names ----------

  lemma OneElement(e: TypeElement)
    ensures Resolve(Literal([e])) == ElementMembers(e, AsWritten)
  {
    OneElementMap(e, AsWritten);
  }

  /** How a single member without a type is recorded: under its name, under a computed name in
      brackets, not at all if private; and index signatures and mapped types under `[index]`. */
  lemma RecordedNames(text: string, optional: bool, value: TypeNode, template: Option<TypeNode>)
    ensures Resolve(Literal([Property(Plain(text), optional, None)])) == map[[text] := optional]
    ensures Resolve(Literal([Property(Computed(text), optional, None)])) == map[["[" + text + "]"] := optional]
    ensures Resolve(Literal([Property(Private(text), optional, None)])) == map[]
    ensures Resolve(Literal([Method(Plain(text), optional, [], None)])) == map[[text] := optional]
    ensures Resolve(Literal([IndexSignature(value)])) == map[["[index]"] := true]
    ensures Resolve(Mapped(template)) == map[["[index]"] := true]
  {
    OneElement(Property(Plain(text), optional, None));
    OneElement(Property(Computed(text), optional, None));
    OneElement(Property(Private(text), optional, None));
    OneElement(Method(Plain(text), optional, [], None));
    OneElement(IndexSignature(value));
  }
}
