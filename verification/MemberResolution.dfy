/** The flattened member shape of a type: every member path, and whether it is optional. */
module MemberResolution {
  import opened Syntax
  import opened MemberMaps

  const INDEX_NAME := "[index]"

  /** A nested map moved below `name`; a child of an optional member is optional. */
  function Below(name: string, ownOptional: bool, nested: MemberMap): (r: MemberMap)
    ensures forall p :: p in r <==> p != [] && p[0] == name && p[1..] in nested
    ensures forall p :: p in r ==> r[p] == (ownOptional || nested[p[1..]])
  {
    forall q | q in nested ensures ([name] + q)[1..] == q {}
    var paths := set q | q in nested :: [name] + q;
    forall p | p != [] && p[0] == name && p[1..] in nested ensures p in paths {
      assert p == [name] + p[1..];
    }
    map p | p in paths :: ownOptional || nested[p[1..]]
  }

  /** What one member adds: its own path and, for a property, the paths below it. */
  function NamedMember(key: PropertyName, optional: bool, annotation: Option<TypeNode>): (r: MemberMap)
    ensures [] !in r
    ensures MemberName(key).Some? ==> [MemberName(key).value] in r && r[[MemberName(key).value]] == optional
    decreases annotation, 1
  {
    match MemberName(key)
    case None => map[]
    case Some(name) =>
      map[[name] := optional] + (if annotation.Some? then Below(name, optional, Resolve(annotation.value)) else map[])
  }

  /** What a member without a value type adds. */
  function BareMember(key: PropertyName, optional: bool): MemberMap {
    match MemberName(key)
    case None => map[]
    case Some(name) => map[[name] := optional]
  }

  function ElementMembers(e: TypeElement, mode: ForcedMode): (r: MemberMap)
    ensures [] !in r
    decreases e, 0
  {
    match e
    case IndexSignature(_) => map[[INDEX_NAME] := true]
    case Property(key, optional, annotation) => NamedMember(key, IsOptional(mode, optional), annotation)
    case Method(key, optional, _, _) => BareMember(key, IsOptional(mode, optional))
    case OtherElement => map[]
  }

  /** Elements in order; a later element overwrites the paths it shares with earlier ones. */
  function LiteralMembers(elements: seq<TypeElement>, mode: ForcedMode): (r: MemberMap)
    ensures [] !in r
    decreases elements, 0
  {
    if elements == [] then map[]
    else LiteralMembers(elements[..|elements| - 1], mode) + ElementMembers(elements[|elements| - 1], mode)
  }

  function ResolveEach(types: seq<TypeNode>): (maps: seq<MemberMap>)
    ensures |maps| == |types| && forall i :: 0 <= i < |types| ==> maps[i] == Resolve(types[i])
    decreases types, 0
  {
    if types == [] then [] else [Resolve(types[0])] + ResolveEach(types[1..])
  }

  function Resolve(t: TypeNode): (r: MemberMap)
    ensures [] !in r
    decreases t, 2
  {
    var Peeled(node, mode) := Peel(t, AsWritten);
    match node
    case Literal(elements) => LiteralMembers(elements, mode)
    case Mapped(_) => map[[INDEX_NAME] := true]
    case Intersection(types) => MergeIntersection(ResolveEach(types))
    case Union(types) => MergeUnion(ResolveEach(types))
    case _ => map[]
  }

  function ClassElementMembers(member: ClassElement): MemberMap {
    if Hidden(member) then map[] else
    match member
    case Field(key, _, _, optional, annotation) => NamedMember(key, optional, annotation)
    case Accessor(key, _, _, _) => BareMember(key, false)
    case ClassMethod(key, _, _, optional, _, _) => BareMember(key, optional)
    case _ => map[]
  }

  function ClassMembers(members: seq<ClassElement>): MemberMap {
    if members == [] then map[]
    else ClassMembers(members[..|members| - 1]) + ClassElementMembers(members[|members| - 1])
  }

  function DeclarationMembers(d: Declaration): MemberMap {
    match d
    case Alias(body) => Resolve(body)
    case Interface(elements) => LiteralMembers(elements, AsWritten)
    case Class(members) => ClassMembers(members)
  }

  // ---------- which paths there are ----------

  /** A type declares a path if one of the members it is made of does, at any depth. */
  predicate DeclaresPath(t: TypeNode, p: Path)
    decreases t, 1
  {
    match Peel(t, AsWritten).node
    case Literal(elements) => exists e | e in elements :: ElementDeclares(e, p)
    case Mapped(_) => p == [INDEX_NAME]
    case Union(types) => exists u | u in types :: DeclaresPath(u, p)
    case Intersection(types) => exists u | u in types :: DeclaresPath(u, p)
    case _ => false
  }

  predicate ElementDeclares(e: TypeElement, p: Path)
    decreases e, 0
  {
    match e
    case IndexSignature(_) => p == [INDEX_NAME]
    case Property(key, _, annotation) =>
      p != [] && MemberName(key) == Some(p[0]) &&
        (p[1..] == [] || (annotation.Some? && DeclaresPath(annotation.value, p[1..])))
    case Method(key, _, _, _) => p != [] && MemberName(key) == Some(p[0]) && p[1..] == []
    case OtherElement => false
  }

  /** Optional or not, exactly the declared paths are recorded: no merge and no mode loses one. */
  lemma {:induction false} RecordedIffDeclared(t: TypeNode, p: Path)
    ensures p in Resolve(t) <==> DeclaresPath(t, p)
    decreases t, 1
  {
    match Peel(t, AsWritten).node
    case Literal(elements) => LiteralRecordsDeclared(elements, Peel(t, AsWritten).mode, p);
    case Union(types) => SomeConstituentDeclares(types, p);
    case Intersection(types) => SomeConstituentDeclares(types, p);
    case _ =>
  }

  lemma {:induction false} SomeConstituentDeclares(types: seq<TypeNode>, p: Path)
    ensures Declares(ResolveEach(types), p) <==> exists u :: u in types && DeclaresPath(u, p)
    decreases types, 0
  {
    var maps := ResolveEach(types);
    forall u | u in types ensures p in Resolve(u) <==> DeclaresPath(u, p) {
      RecordedIffDeclared(u, p);
    }
    if m :| m in maps && p in m {
      var i :| 0 <= i < |maps| && maps[i] == m;
      assert types[i] in types;
    }
    if u :| u in types && DeclaresPath(u, p) {
      var i :| 0 <= i < |types| && types[i] == u;
      assert maps[i] in maps;
    }
  }

  lemma {:induction false} LiteralRecordsDeclared(elements: seq<TypeElement>, mode: ForcedMode, p: Path)
    ensures p in LiteralMembers(elements, mode) <==> exists e :: e in elements && ElementDeclares(e, p)
    decreases elements, 0
  {
    if elements != [] {
      var rest, last := elements[..|elements| - 1], elements[|elements| - 1];
      LiteralRecordsDeclared(rest, mode, p);
      ElementRecordsDeclared(last, mode, p);
      assert elements == rest + [last];
    }
  }

  lemma {:induction false} ElementRecordsDeclared(e: TypeElement, mode: ForcedMode, p: Path)
    ensures p in ElementMembers(e, mode) <==> ElementDeclares(e, p)
    decreases e, 0
  {
    if p == [] {
      return;
    }
    assert p == [p[0]] + p[1..];
    match e
    case Property(key, _, annotation) =>
      if annotation.Some? {
        RecordedIffDeclared(annotation.value, p[1..]);
      }
      assert MemberName(key) == Some(p[0]) && p[1..] == [] ==> p == [p[0]];
    case Method(key, _, _, _) =>
      assert MemberName(key) == Some(p[0]) && p[1..] == [] ==> p == [p[0]];
    case _ =>
  }

  /** Of several elements that record a path, the last one says whether it is optional. */
  lemma {:induction false} LastElementDecides(elements: seq<TypeElement>, mode: ForcedMode, i: nat, p: Path)
    requires i < |elements| && p in ElementMembers(elements[i], mode)
    requires forall j :: i < j < |elements| ==> p !in ElementMembers(elements[j], mode)
    ensures p in LiteralMembers(elements, mode) &&
      LiteralMembers(elements, mode)[p] == ElementMembers(elements[i], mode)[p]
    decreases |elements|
  {
    if i < |elements| - 1 {
      LastElementDecides(elements[..|elements| - 1], mode, i, p);
    }
  }

  lemma {:induction false} LastRecorder(elements: seq<TypeElement>, mode: ForcedMode, p: Path) returns (i: nat)
    requires p in LiteralMembers(elements, mode)
    ensures i < |elements| && p in ElementMembers(elements[i], mode)
    ensures forall j :: i < j < |elements| ==> p !in ElementMembers(elements[j], mode)
    ensures LiteralMembers(elements, mode)[p] == ElementMembers(elements[i], mode)[p]
    decreases |elements|
  {
    var n := |elements| - 1;
    i := n;
    if p !in ElementMembers(elements[n], mode) {
      var rest := elements[..n];
      i := LastRecorder(rest, mode, p);
      assert rest[i] == elements[i] && forall j :: 0 <= j < n ==> rest[j] == elements[j];
    }
  }

  lemma {:induction false} Recorded(elements: seq<TypeElement>, mode: ForcedMode, i: nat, p: Path)
    requires i < |elements| && p in ElementMembers(elements[i], mode)
    ensures p in LiteralMembers(elements, mode)
    decreases |elements|
  {
    if i < |elements| - 1 {
      Recorded(elements[..|elements| - 1], mode, i, p);
    }
  }

  // ---------- classes ----------

  /** The element the source treats a class member as; it does not look into the type of an
      accessor, and static members are like any others. */
  function RecordedElement(member: ClassElement): TypeElement {
    if Hidden(member) then OtherElement else
    match member
    case Field(key, _, _, optional, annotation) => Property(key, optional, annotation)
    case Accessor(key, _, _, _) => Property(key, false, None)
    case ClassMethod(key, _, _, optional, params, result) => Method(key, optional, params, result)
    case _ => OtherElement
  }

  function RecordedElements(members: seq<ClassElement>): seq<TypeElement> {
    seq(|members|, i requires 0 <= i < |members| => RecordedElement(members[i]))
  }

  /** What a class member is on the instances of the class: a static one is nothing. */
  function InstanceElement(member: ClassElement): TypeElement {
    if OnClassItself(member) then OtherElement else RecordedElement(member)
  }

  function InstanceElements(members: seq<ClassElement>): seq<TypeElement> {
    seq(|members|, i requires 0 <= i < |members| => InstanceElement(members[i]))
  }

  /** The type a declaration declares. */
  function TypeOf(d: Declaration): TypeNode {
    match d
    case Alias(body) => body
    case Interface(elements) => Literal(elements)
    case Class(members) => Literal(InstanceElements(members))
  }

  lemma RecordedElementMembers(member: ClassElement)
    ensures ElementMembers(RecordedElement(member), AsWritten) == ClassElementMembers(member)
  {
    match member
    case Accessor(key, _, _, _) =>
      assert MemberName(key).Some? ==>
        map[[MemberName(key).value] := false] + map[] == map[[MemberName(key).value] := false];
    case _ =>
  }

  lemma {:induction false} ClassIsRecordedLiteral(members: seq<ClassElement>)
    ensures ClassMembers(members) == LiteralMembers(RecordedElements(members), AsWritten)
    decreases |members|
  {
    if members != [] {
      var n := |members| - 1;
      ClassIsRecordedLiteral(members[..n]);
      var recorded := RecordedElements(members);
      assert recorded[..n] == RecordedElements(members[..n]);
      RecordedElementMembers(members[n]);
    }
  }

  predicate Records(member: ClassElement, p: Path) {
    p in ClassElementMembers(member)
  }

  /** Member `i` is the last that records `p`. */
  predicate LastToRecord(members: seq<ClassElement>, i: int, p: Path) {
    0 <= i < |members| && Records(members[i], p) && forall j :: i < j < |members| ==> !Records(members[j], p)
  }

  /** Member `k` is the last instance member that records `p`. */
  predicate LastInstanceToRecord(members: seq<ClassElement>, k: int, p: Path) {
    0 <= k < |members| && Records(members[k], p) && !OnClassItself(members[k]) &&
    forall j :: k < j < |members| && Records(members[j], p) ==> OnClassItself(members[j])
  }

  ghost predicate StaticShadowed(members: seq<ClassElement>, i: int, p: Path)
    requires LastToRecord(members, i, p)
  {
    exists k :: LastInstanceToRecord(members, k, p) &&
      ClassElementMembers(members[k])[p] == ClassElementMembers(members[i])[p]
  }

  /** Each path that a static member has the last word on belongs to an instance member as well,
      with the same optionality. In particular when no static member is visible. */
  ghost predicate StaticsShadowed(members: seq<ClassElement>) {
    forall i, p :: LastToRecord(members, i, p) && OnClassItself(members[i]) ==> StaticShadowed(members, i, p)
  }

  lemma InstanceRecords(members: seq<ClassElement>, j: nat, p: Path)
    requires j < |members|
    ensures p in ElementMembers(RecordedElements(members)[j], AsWritten) <==> Records(members[j], p)
    ensures p in ElementMembers(InstanceElements(members)[j], AsWritten) <==>
      Records(members[j], p) && !OnClassItself(members[j])
    ensures Records(members[j], p) ==>
      ElementMembers(RecordedElements(members)[j], AsWritten)[p] == ClassElementMembers(members[j])[p]
    ensures Records(members[j], p) && !OnClassItself(members[j]) ==>
      ElementMembers(InstanceElements(members)[j], AsWritten)[p] == ClassElementMembers(members[j])[p]
  {
    RecordedElementMembers(members[j]);
  }

  lemma ClassRecorder(members: seq<ClassElement>, p: Path) returns (i: nat)
    requires p in ClassMembers(members)
    ensures LastToRecord(members, i, p) && ClassMembers(members)[p] == ClassElementMembers(members[i])[p]
  {
    ClassIsRecordedLiteral(members);
    i := LastRecorder(RecordedElements(members), AsWritten, p);
    forall j | 0 <= j < |members| { InstanceRecords(members, j, p); }
  }

  lemma ClassRecords(members: seq<ClassElement>, i: int, p: Path)
    requires LastToRecord(members, i, p)
    ensures p in ClassMembers(members) && ClassMembers(members)[p] == ClassElementMembers(members[i])[p]
  {
    ClassIsRecordedLiteral(members);
    forall j | 0 <= j < |members| { InstanceRecords(members, j, p); }
    LastElementDecides(RecordedElements(members), AsWritten, i, p);
  }

  lemma InstanceRecorder(members: seq<ClassElement>, p: Path) returns (k: nat)
    requires p in LiteralMembers(InstanceElements(members), AsWritten)
    ensures LastInstanceToRecord(members, k, p)
    ensures LiteralMembers(InstanceElements(members), AsWritten)[p] == ClassElementMembers(members[k])[p]
  {
    k := LastRecorder(InstanceElements(members), AsWritten, p);
    forall j | 0 <= j < |members| { InstanceRecords(members, j, p); }
  }

  lemma InstanceRecordsLast(members: seq<ClassElement>, k: int, p: Path)
    requires LastInstanceToRecord(members, k, p)
    ensures p in LiteralMembers(InstanceElements(members), AsWritten)
    ensures LiteralMembers(InstanceElements(members), AsWritten)[p] == ClassElementMembers(members[k])[p]
  {
    forall j | 0 <= j < |members| { InstanceRecords(members, j, p); }
    LastElementDecides(InstanceElements(members), AsWritten, k, p);
  }

  lemma InstancePathRecorded(members: seq<ClassElement>, k: int, p: Path)
    requires LastInstanceToRecord(members, k, p)
    ensures p in ClassMembers(members)
  {
    ClassIsRecordedLiteral(members);
    InstanceRecords(members, k, p);
    Recorded(RecordedElements(members), AsWritten, k, p);
  }

  /** The paths of a class under the guard. */
  lemma ShadowedPath(members: seq<ClassElement>, p: Path)
    requires StaticsShadowed(members)
    ensures p in ClassMembers(members) <==> p in LiteralMembers(InstanceElements(members), AsWritten)
    ensures p in ClassMembers(members) ==>
      ClassMembers(members)[p] == LiteralMembers(InstanceElements(members), AsWritten)[p]
  {
    if p in ClassMembers(members) {
      var i := ClassRecorder(members, p);
      var k := i;
      if OnClassItself(members[i]) {
        assert StaticShadowed(members, i, p);
        k :| LastInstanceToRecord(members, k, p) &&
          ClassElementMembers(members[k])[p] == ClassElementMembers(members[i])[p];
      }
      InstanceRecordsLast(members, k, p);
    } else if p in LiteralMembers(InstanceElements(members), AsWritten) {
      var k := InstanceRecorder(members, p);
      InstancePathRecorded(members, k, p);
    }
  }

  /** A class is recorded as the literal of its visible instance members exactly when its static
      members add nothing to it. */
  lemma ClassAsInstanceIff(members: seq<ClassElement>)
    ensures ClassMembers(members) == LiteralMembers(InstanceElements(members), AsWritten) <==> StaticsShadowed(members)
  {
    var instance := LiteralMembers(InstanceElements(members), AsWritten);
    if StaticsShadowed(members) {
      forall p ensures p in ClassMembers(members) <==> p in instance
               ensures p in ClassMembers(members) ==> ClassMembers(members)[p] == instance[p]
      {
        ShadowedPath(members, p);
      }
    }
    if ClassMembers(members) == instance {
      forall i, p | LastToRecord(members, i, p) && OnClassItself(members[i]) ensures StaticShadowed(members, i, p) {
        ClassRecords(members, i, p);
        var k := InstanceRecorder(members, p);
      }
    }
  }

  /** What a declaration must satisfy for its record to be that of the type it declares. */
  ghost predicate StaticsAddNothing(d: Declaration) {
    d.Class? ==> StaticsShadowed(d.members)
  }

  /** All three kinds of declaration are recorded as the type they declare, classes under the
      guard and only under it. */
  lemma RecordedAsDeclared(d: Declaration)
    ensures DeclarationMembers(d) == Resolve(TypeOf(d)) <==> StaticsAddNothing(d)
  {
    match d
    case Class(members) => ClassAsInstanceIff(members);
    case _ =>
  }

  // ---------- the source's loops ----------

  lemma BelowStep(name: string, own: bool, nested: MemberMap, pending: set<Path>, child: Path)
    requires child in pending && child in nested
    ensures Below(name, own, nested - (pending - {child})) ==
      Below(name, own, nested - pending)[[name] + child := own || nested[child]]
  {
    var after := Below(name, own, nested - (pending - {child}));
    var before := Below(name, own, nested - pending);
    assert ([name] + child)[1..] == child;
    forall p ensures p in after <==> p in before || p == [name] + child {
      if p != [] && p[0] == name && p[1..] == child {
        assert p == [name] + child;
      }
    }
  }

  lemma BelowNothing(name: string, own: bool, nested: MemberMap)
    ensures Below(name, own, nested - nested.Keys) == map[]
  {
    assert nested - nested.Keys == map[];
  }

  lemma BelowEverything(name: string, own: bool, nested: MemberMap)
    ensures Below(name, own, nested - {}) == Below(name, own, nested)
  {
    assert nested - {} == nested;
  }

  lemma UpdateSum(a: MemberMap, b: MemberMap, k: Path, v: bool)
    ensures a + b[k := v] == (a + b)[k := v]
  {}

  /** The loop over the nested entries of one member. */
  method SetNested(before: MemberMap, name: string, own: bool, nested: MemberMap) returns (result: MemberMap)
    ensures result == before + Below(name, own, nested)
  {
    result := before;
    var pending := nested.Keys;
    BelowNothing(name, own, nested);
    while pending != {}
      invariant pending <= nested.Keys
      invariant result == before + Below(name, own, nested - pending)
      decreases pending
    {
      var child :| child in pending;
      BelowStep(name, own, nested, pending, child);
      UpdateSum(before, Below(name, own, nested - pending), [name] + child, own || nested[child]);
      result := result[[name] + child := own || nested[child]];
      pending := pending - {child};
    }
    BelowEverything(name, own, nested);
  }

  lemma MapSumAssociative(a: MemberMap, b: MemberMap, c: MemberMap)
    ensures (a + b) + c == a + (b + c)
    ensures (a + b) + map[] == a + b
  {}

  /** The body of the property branch, shared by literals, interfaces and classes. */
  method SetProperty(before: MemberMap, key: PropertyName, own: bool,
                     annotation: Option<TypeNode>)
    returns (result: MemberMap)
    ensures result == before + NamedMember(key, own, annotation)
    decreases annotation, 1
  {
    match MemberName(key) {
      case None => result := before;
      case Some(name) =>
        result := before + map[[name] := own];
        if annotation.Some? {
          var nested := ResolveLocalMembers(annotation.value);
          MapSumAssociative(before, map[[name] := own], Below(name, own, nested));
          result := SetNested(result, name, own, nested);
        } else {
          MapSumAssociative(before, map[[name] := own], map[]);
        }
    }
  }

  method SetBare(before: MemberMap, key: PropertyName, own: bool) returns (result: MemberMap)
    ensures result == before + BareMember(key, own)
  {
    match MemberName(key) {
      case None => result := before;
      case Some(name) => result := before[[name] := own];
    }
  }

  method CollectTypeElementMembers(elements: seq<TypeElement>, mode: ForcedMode) returns (result: MemberMap)
    ensures result == LiteralMembers(elements, mode)
    decreases elements, 0
  {
    result := map[];
    for i := 0 to |elements|
      invariant result == LiteralMembers(elements[..i], mode)
    {
      assert elements[..i + 1][..i] == elements[..i];
      result := SetElement(result, elements[i], mode);
    }
    assert elements[..|elements|] == elements;
  }

  method SetElement(before: MemberMap, element: TypeElement, mode: ForcedMode) returns (result: MemberMap)
    ensures result == before + ElementMembers(element, mode)
    decreases element, 0
  {
    match element {
      case IndexSignature(_) => result := before[[INDEX_NAME] := true];
      case Property(key, optional, annotation) =>
        result := SetProperty(before, key, IsOptional(mode, optional), annotation);
      case Method(key, optional, _, _) => result := SetBare(before, key, IsOptional(mode, optional));
      case OtherElement => result := before;
    }
  }

  method ResolveLocalMembers(t: TypeNode) returns (result: MemberMap)
    ensures result == Resolve(t)
    decreases t, 2
  {
    var peeled := PeelWrappers(t, AsWritten);
    match peeled.node {
      case Literal(elements) => result := CollectTypeElementMembers(elements, peeled.mode);
      case Mapped(_) => result := map[[INDEX_NAME] := true];
      case Intersection(types) =>
        var maps := ResolveAll(types);
        result := MergeIntersectionMaps(maps);
      case Union(types) =>
        var maps := ResolveAll(types);
        result := MergeUnionMaps(maps);
      case _ => result := map[];
    }
  }

  method ResolveAll(types: seq<TypeNode>) returns (maps: seq<MemberMap>)
    ensures maps == ResolveEach(types)
    decreases types, 0
  {
    maps := [];
    for i := 0 to |types|
      invariant |maps| == i && forall j :: 0 <= j < i ==> maps[j] == Resolve(types[j])
    {
      var m := ResolveLocalMembers(types[i]);
      maps := maps + [m];
    }
  }

  method CollectClassMembers(members: seq<ClassElement>) returns (result: MemberMap)
    ensures result == ClassMembers(members)
  {
    result := map[];
    for i := 0 to |members|
      invariant result == ClassMembers(members[..i])
    {
      assert members[..i + 1][..i] == members[..i];
      var member := members[i];
      if Hidden(member) {
        continue;
      }
      match member {
        case Field(key, _, _, optional, annotation) => result := SetProperty(result, key, optional, annotation);
        case Accessor(key, _, _, _) => result := SetBare(result, key, false);
        case ClassMethod(key, _, _, optional, _, _) => result := SetBare(result, key, optional);
        case _ =>
      }
    }
    assert members[..|members|] == members;
  }
}
