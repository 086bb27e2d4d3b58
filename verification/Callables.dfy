/** Records of callables and of classes, read off the declarations themselves. */
module Callables {
  import opened Syntax
  import opened MemberMaps
  import opened MemberResolution
  import opened Occurrences
  import opened Inventory
  import opened InlineAgreement

  // ---------- callables ----------

  /** The text of a name that can be referred to: its own, or a computed one in brackets. */
  predicate IsCalled(key: PropertyName, name: string) {
    match key
    case Plain(text) => name == text
    case Computed(expression) => name == "[" + expression + "]"
    case Private(_) => false
  }

  predicate ClassDeclares(m: ClassElement, member: string, params: seq<Param>, result: Option<TypeNode>) {
    match m
    case Constructor(isPrivate, ps) => !isPrivate && member == "constructor" && ps == params && result == None
    case ClassMethod(key, isPrivate, _, _, ps, r) => !isPrivate && IsCalled(key, member) && ps == params && r == result
    case _ => false
  }

  /** A function, interface method, visible class method or visible constructor of this key is
      declared with these parameters and this result; a constructor declares no result. */
  predicate DeclaresCallable(surface: Surface, callable: CallableKey, params: seq<Param>, result: Option<TypeNode>) {
    match callable
    case TopLevel(name) => FunctionDeclaration(name, params, result) in surface.functions
    case Member(owner, member) =>
      owner in surface.declarations &&
      match surface.declarations[owner]
      case Alias(_) => false
      case Interface(elements) =>
        exists e | e in elements :: e.Method? && IsCalled(e.key, member) && e.params == params && e.result == result
      case Class(members) =>
        exists m | m in members :: ClassDeclares(m, member, params, result)
  }

  lemma CalledIff(key: PropertyName, name: string)
    ensures IsCalled(key, name) <==> MemberName(key) == Some(name)
  {}

  lemma ElementDeclares(e: TypeElement, member: string, s: Signature)
    ensures s in ElementSignature(e, member) <==>
      e.Method? && IsCalled(e.key, member) && e.params == s.params && e.result == s.result
  {
    if e.Method? {
      CalledIff(e.key, member);
    }
  }

  lemma ClassElementDeclares(m: ClassElement, member: string, s: Signature)
    ensures s in ClassElementSignature(m, member) <==> ClassDeclares(m, member, s.params, s.result)
  {
    if m.ClassMethod? {
      CalledIff(m.key, member);
    }
  }

  /** The signatures of a callable are its declarations. */
  lemma SignatureIffDeclared(surface: Surface, callable: CallableKey, s: Signature)
    ensures s in SignaturesOf(surface, callable) <==> DeclaresCallable(surface, callable, s.params, s.result)
  {
    match callable
    case TopLevel(name) =>
      FunctionSignature(surface.functions, name, s);
      assert FunctionDeclaration(name, s.params, s.result) in surface.functions <==>
        exists f :: f in surface.functions && f.name == name && s == Signature(f.params, f.result) by
      {
        if f :| f in surface.functions && f.name == name && s == Signature(f.params, f.result) {
          assert f == FunctionDeclaration(name, s.params, s.result);
        }
      }
    case Member(owner, member) =>
      if owner in surface.declarations {
        match surface.declarations[owner] {
          case Alias(_) =>
          case Interface(elements) =>
            InterfaceSignature(elements, member, s);
            forall e { ElementDeclares(e, member, s); }
          case Class(members) =>
            ClassSignature(members, member, s);
            forall m { ClassElementDeclares(m, member, s); }
        }
      }
  }

  /** The gate of a later report lets through exactly what this one declares. */
  lemma CallableIffDeclared(surface: Surface, callable: CallableKey)
    ensures SignaturesOf(surface, callable) != [] <==> exists ps, r :: DeclaresCallable(surface, callable, ps, r)
  {
    if SignaturesOf(surface, callable) != [] {
      var s := SignaturesOf(surface, callable)[0];
      SignatureIffDeclared(surface, callable, s);
      assert DeclaresCallable(surface, callable, s.params, s.result);
    }
    if ps, r :| DeclaresCallable(surface, callable, ps, r) {
      SignatureIffDeclared(surface, callable, Signature(ps, r));
    }
  }

  // ---------- inline entries ----------

  /** The type has members of its own. */
  ghost predicate HasMembers(t: TypeNode) {
    exists p :: DeclaresPath(t, p)
  }

  lemma HasMembersIff(t: TypeNode)
    ensures HasMembers(t) <==> Resolve(t) != map[]
  {
    if Resolve(t) != map[] {
      var p :| p in Resolve(t);
      RecordedIffDeclared(t, p);
    }
    if p :| DeclaresPath(t, p) {
      RecordedIffDeclared(t, p);
    }
  }

  /** Somewhere the callable is declared to return this type. */
  ghost predicate Returns(surface: Surface, callable: CallableKey, t: TypeNode) {
    exists ps :: DeclaresCallable(surface, callable, ps, Some(t))
  }

  lemma ReturnedIff(surface: Surface, callable: CallableKey, m: MemberMap)
    ensures m in ReturnedLiterals(SignaturesOf(surface, callable)) <==>
      exists t :: Returns(surface, callable, t) && HasMembers(t) && m == Resolve(t)
  {
    if m in ReturnedLiterals(SignaturesOf(surface, callable)) {
      var s :| s in SignaturesOf(surface, callable) && s.result.Some? && Resolve(s.result.value) != map[] &&
               m == Resolve(s.result.value);
      SignatureIffDeclared(surface, callable, s);
      HasMembersIff(s.result.value);
      assert DeclaresCallable(surface, callable, s.params, Some(s.result.value));
      assert Returns(surface, callable, s.result.value);
    }
    if t :| Returns(surface, callable, t) && HasMembers(t) && m == Resolve(t) {
      var ps :| DeclaresCallable(surface, callable, ps, Some(t));
      SignatureIffDeclared(surface, callable, Signature(ps, Some(t)));
      HasMembersIff(t);
    }
  }

  /** A return entry exists iff some declaration of the callable returns a type with members. */
  lemma ReturnEntryIffDeclared(view: View, callable: CallableKey)
    ensures EntryAt(view, OfResult(callable)).Some? <==>
      exists t :: Returns(view.surface, callable, t) && HasMembers(t)
  {
    ResultEntryIff(view, callable);
    var literals := ReturnedLiterals(SignaturesOf(view.surface, callable));
    if m :| m in literals {
      ReturnedIff(view.surface, callable, m);
    }
    if t :| Returns(view.surface, callable, t) && HasMembers(t) {
      ReturnedIff(view.surface, callable, Resolve(t));
    }
  }

  /** It has the paths that any of these types declares, and requires one iff each of those that
      declare it requires it. */
  lemma ReturnEntryPaths(view: View, callable: CallableKey, path: Path)
    requires EntryAt(view, OfResult(callable)).Some?
    ensures var entry := EntryAt(view, OfResult(callable)).value;
            !entry.contravariant &&
            (path in entry.members <==> exists t :: Returns(view.surface, callable, t) && DeclaresPath(t, path)) &&
            (path in Required(entry.members) <==>
              (exists t :: Returns(view.surface, callable, t) && DeclaresPath(t, path)) &&
              forall t :: Returns(view.surface, callable, t) && DeclaresPath(t, path) ==> path in Required(Resolve(t)))
  {
    ResultEntryIff(view, callable);
    ResultEntryRequiredIff(view, callable, path);
    var literals := ReturnedLiterals(SignaturesOf(view.surface, callable));
    forall m | m in literals && path in m
      ensures exists t :: Returns(view.surface, callable, t) && DeclaresPath(t, path) && m == Resolve(t)
    {
      ReturnedIff(view.surface, callable, m);
      var t :| Returns(view.surface, callable, t) && HasMembers(t) && m == Resolve(t);
      RecordedIffDeclared(t, path);
    }
    forall t | Returns(view.surface, callable, t) && DeclaresPath(t, path)
      ensures Resolve(t) in literals && path in Resolve(t)
    {
      RecordedIffDeclared(t, path);
      assert HasMembers(t);
      ReturnedIff(view.surface, callable, Resolve(t));
    }
  }

  /** Some declaration of the callable takes a parameter of this key and type. */
  ghost predicate TakesParam(surface: Surface, callable: CallableKey, k: string, p: Param) {
    exists ps, r, j: int :: DeclaresCallable(surface, callable, ps, r) && 0 <= j < |ps| && ps[j] == p &&
      ParameterKey(p, j) == k
  }

  lemma TakenIff(surface: Surface, callable: CallableKey, k: string, p: Param)
    ensures p in LiteralParams(SignaturesOf(surface, callable), k) <==>
      TakesParam(surface, callable, k, p) && p.annotation.Some? && HasMembers(p.annotation.value)
  {
    if p.annotation.Some? {
      HasMembersIff(p.annotation.value);
    }
    if p in LiteralParams(SignaturesOf(surface, callable), k) {
      var s, j :| s in SignaturesOf(surface, callable) && 0 <= j < |s.params| && LiteralAt(s.params, j, k) &&
        p == s.params[j];
      SignatureIffDeclared(surface, callable, s);
      assert DeclaresCallable(surface, callable, s.params, s.result);
    }
    if TakesParam(surface, callable, k, p) && p.annotation.Some? && HasMembers(p.annotation.value) {
      var ps, r, j: int :|
        DeclaresCallable(surface, callable, ps, r) && 0 <= j < |ps| && ps[j] == p && ParameterKey(p, j) == k;
      SignatureIffDeclared(surface, callable, Signature(ps, r));
      assert LiteralAt(ps, j, k);
      assert Signature(ps, r).params[j] in LiteralParams(SignaturesOf(surface, callable), k);
    }
  }

  /** A parameter of the key with a type that has members. */
  ghost predicate TakesLiteral(surface: Surface, callable: CallableKey, k: string, p: Param) {
    TakesParam(surface, callable, k, p) && p.annotation.Some? && HasMembers(p.annotation.value)
  }

  /** A parameter entry exists iff some declaration takes such a parameter, and is hard iff there
      is no before or the callable existed, and one of them carries no `?`. */
  lemma ParameterEntryIffDeclared(view: View, callable: CallableKey, k: string)
    ensures var entry := EntryAt(view, OfParameter(callable, k));
            (entry.Some? <==> exists p :: TakesLiteral(view.surface, callable, k, p)) &&
            (entry.Some? ==> (entry.value.contravariant <==>
              (view.existing == None || callable in view.existing.value) &&
              exists p :: TakesLiteral(view.surface, callable, k, p) && !p.optional))
  {
    InlineEntryIff(view, callable, k);
    forall p
      ensures p in LiteralParams(SignaturesOf(view.surface, callable), k) <==>
        TakesLiteral(view.surface, callable, k, p) {
      TakenIff(view.surface, callable, k, p);
    }
  }

  /** Some declaration takes such a parameter, and its type declares the path. */
  ghost predicate TakesPath(surface: Surface, callable: CallableKey, k: string, p: Param, path: Path) {
    TakesParam(surface, callable, k, p) && p.annotation.Some? && DeclaresPath(p.annotation.value, path)
  }

  lemma TakesPathIff(surface: Surface, callable: CallableKey, k: string, p: Param, path: Path)
    ensures TakesPath(surface, callable, k, p, path) <==>
      p in LiteralParams(SignaturesOf(surface, callable), k) && path in LiteralMembersOf(p)
    ensures TakesPath(surface, callable, k, p, path) ==> LiteralMembersOf(p) == Resolve(p.annotation.value)
  {
    TakenIff(surface, callable, k, p);
    if p.annotation.Some? {
      RecordedIffDeclared(p.annotation.value, path);
    }
  }

  /** It has the paths that any of these types declares, and requires one iff each of those that
      declare it requires it. */
  lemma ParameterEntryPaths(view: View, callable: CallableKey, k: string, path: Path)
    requires EntryAt(view, OfParameter(callable, k)).Some?
    ensures var members := EntryAt(view, OfParameter(callable, k)).value.members;
            (path in members <==> exists p :: TakesPath(view.surface, callable, k, p, path)) &&
            (path in Required(members) <==>
              (exists p :: TakesPath(view.surface, callable, k, p, path)) &&
              forall p :: TakesPath(view.surface, callable, k, p, path) ==>
                path in Required(Resolve(p.annotation.value)))
  {
    InlineEntryRequiredIff(view, callable, k, path);
    var literals := LiteralParams(SignaturesOf(view.surface, callable), k);
    forall p ensures TakesPath(view.surface, callable, k, p, path) <==> p in literals && path in LiteralMembersOf(p) {
      TakesPathIff(view.surface, callable, k, p, path);
    }
    forall p | TakesPath(view.surface, callable, k, p, path)
      ensures LiteralMembersOf(p) == Resolve(p.annotation.value)
    {
      TakesPathIff(view.surface, callable, k, p, path);
    }
  }

  // ---------- parameter keys ----------

  function DigitValue(c: char): nat {
    if '0' <= c <= '9' then c as int - '0' as int else 0
  }

  /** The number that decimal digits stand for. */
  function Decimal(digits: string): nat {
    if digits == "" then 0 else 10 * Decimal(digits[..|digits| - 1]) + DigitValue(digits[|digits| - 1])
  }

  lemma {:induction false} DigitsRead(n: nat)
    ensures forall c :: c in Digits(n) ==> '0' <= c <= '9'
    ensures Digits(n) != "" && Decimal(Digits(n)) == n
    ensures |Digits(n)| > 1 ==> Digits(n)[0] != '0'
    ensures Digits(n)[0] == '0' ==> n == 0
  {
    if n >= 10 {
      DigitsRead(n / 10);
      var d := Digits(n);
      assert d[..|d| - 1] == Digits(n / 10);
    } else {
      var d := Digits(n);
      assert d[..|d| - 1] == "";
    }
  }

  /** A parameter goes by its name, and a destructured one by its position in decimal. */
  lemma ParameterKeyRead(p: Param, index: nat)
    ensures p.name.Some? ==> ParameterKey(p, index) == p.name.value
    ensures p.name.None? ==>
      var key := ParameterKey(p, index);
      "arg" <= key && (forall c :: c in key[3..] ==> '0' <= c <= '9') && Decimal(key[3..]) == index
  {
    DigitsRead(index);
    if p.name.None? {
      assert ParameterKey(p, index)[3..] == Digits(index);
    }
  }

  // ---------- declarations ----------

  /** The record of a declaration, field by field. */
  lemma RecordOfDeclaration(view: View, name: string)
    ensures RecordAt(view, OfDeclaration(name)).Some? <==> name in view.surface.declarations
    ensures name in view.surface.declarations ==>
      var record, d := RecordAt(view, OfDeclaration(name)).value, view.surface.declarations[name];
      (record.contravariant <==> HardContravariant(view, name)) && record.members == DeclarationMembers(d) &&
      (record.kind == AliasKind <==> d.Alias?) && (record.kind == InterfaceKind <==> d.Interface?) &&
      (record.kind == ClassKind <==> d.Class?)
  {}

  /** What a class element records: fields with what their types declare, accessors and methods
      under their names, and nothing that is private or a constructor. */
  predicate ClassRecordsPath(m: ClassElement, p: Path) {
    p != [] &&
    match m
    case Field(key, isPrivate, _, _, annotation) =>
      !isPrivate && IsCalled(key, p[0]) &&
        (p[1..] == [] || (annotation.Some? && DeclaresPath(annotation.value, p[1..])))
    case Accessor(key, isPrivate, _, _) => !isPrivate && IsCalled(key, p[0]) && p[1..] == []
    case ClassMethod(key, isPrivate, _, _, _, _) => !isPrivate && IsCalled(key, p[0]) && p[1..] == []
    case _ => false
  }

  /** Whether it records the path as optional. */
  predicate RecordsAsOptional(m: ClassElement, p: Path)
    requires ClassRecordsPath(m, p)
  {
    match m
    case Field(_, _, _, optional, annotation) => optional ||
      (p[1..] != [] && p[1..] !in Required(Resolve(annotation.value)))
    case ClassMethod(_, _, _, optional, _, _) => optional
    case _ => false
  }

  lemma ClassElementRecords(m: ClassElement, p: Path)
    ensures Records(m, p) <==> ClassRecordsPath(m, p)
    ensures ClassRecordsPath(m, p) ==> (ClassElementMembers(m)[p] <==> RecordsAsOptional(m, p))
  {
    if p == [] {
      assert !Records(m, p);
      return;
    }
    assert p == [p[0]] + p[1..];
    match m
    case Field(key, _, _, _, annotation) =>
      CalledIff(key, p[0]);
      if annotation.Some? {
        RecordedIffDeclared(annotation.value, p[1..]);
      }
      assert p[1..] == [] ==> p == [p[0]];
    case Accessor(key, _, _, _) =>
      CalledIff(key, p[0]);
      assert p[1..] == [] ==> p == [p[0]];
    case ClassMethod(key, _, _, _, _, _) =>
      CalledIff(key, p[0]);
      assert p[1..] == [] ==> p == [p[0]];
    case _ =>
  }

  predicate IsLastRecord(members: seq<ClassElement>, i: int, p: Path) {
    0 <= i < |members| && ClassRecordsPath(members[i], p) &&
      forall j :: i < j < |members| ==> !ClassRecordsPath(members[j], p)
  }

  lemma RecordedSomewhere(members: seq<ClassElement>, i: nat, p: Path)
    requires i < |members| && Records(members[i], p)
    ensures p in ClassMembers(members)
  {
    ClassIsRecordedLiteral(members);
    InstanceRecords(members, i, p);
    Recorded(RecordedElements(members), AsWritten, i, p);
  }

  /** A class has the paths that its visible elements record, and the last of those that record a
      path says whether it is optional. */
  lemma ClassRecordIff(members: seq<ClassElement>, p: Path)
    ensures p in ClassMembers(members) <==> exists m :: m in members && ClassRecordsPath(m, p)
    ensures forall i | IsLastRecord(members, i, p) ::
      p in ClassMembers(members) && (ClassMembers(members)[p] <==> RecordsAsOptional(members[i], p))
  {
    forall m ensures Records(m, p) <==> ClassRecordsPath(m, p) {
      ClassElementRecords(m, p);
    }
    if p in ClassMembers(members) {
      var i := ClassRecorder(members, p);
      assert members[i] in members;
    }
    if m :| m in members && ClassRecordsPath(m, p) {
      var i :| 0 <= i < |members| && members[i] == m;
      RecordedSomewhere(members, i, p);
    }
    forall i | IsLastRecord(members, i, p)
      ensures p in ClassMembers(members) && (ClassMembers(members)[p] <==> RecordsAsOptional(members[i], p))
    {
      ClassRecords(members, i, p);
      ClassElementRecords(members[i], p);
    }
  }
}
