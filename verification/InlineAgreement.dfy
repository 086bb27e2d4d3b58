/** Inline parameter literals against named parameter types.

    The checker treats `f(options: {...})` and `f(options: Options)` by two separate paths.
    This module says what an inline entry means, and compares it with the record the same
    literal gets once it is given a name.
 */
module InlineAgreement {
  import opened Syntax
  import opened MemberMaps
  import opened MemberResolution
  import opened Occurrences
  import opened VarianceLaws
  import opened Inventory

  /** The members of a parameter's inline literal; nothing for any other parameter. */
  function LiteralMembersOf(p: Param): MemberMap {
    if p.annotation.Some? then Resolve(p.annotation.value) else map[]
  }

  predicate HasLiteral(p: Param) {
    LiteralMembersOf(p) != map[]
  }

  /** Parameter `j` is an inline literal under the parameter key `k`. */
  predicate LiteralAt(params: seq<Param>, j: int, k: string) {
    0 <= j < |params| && HasLiteral(params[j]) && ParameterKey(params[j], j) == k
  }

  /** The parameters under the key `k` that any overload writes as an inline literal. */
  function LiteralParams(overloads: seq<Signature>, k: string): (r: set<Param>)
    ensures forall p :: p in r ==> HasLiteral(p)
  {
    set s, j | s in overloads && 0 <= j < |s.params| && LiteralAt(s.params, j, k) :: s.params[j]
  }

  // ---------- what an inline entry means ----------

  /** What the checker records for one such parameter. */
  function UseFor(p: Param, existed: bool, k: string): LiteralUse {
    LiteralUse(k, LiteralMembersOf(p), existed && !p.optional)
  }

  function UsesFor(params: set<Param>, existed: bool, k: string): set<LiteralUse> {
    set p | p in params :: UseFor(p, existed, k)
  }

  function MapsFor(params: set<Param>): set<MemberMap> {
    set p | p in params :: LiteralMembersOf(p)
  }

  lemma UseIff(overloads: seq<Signature>, existed: bool, k: string, u: LiteralUse)
    ensures u in ForKey(Uses(overloads, existed), k) <==> u in UsesFor(LiteralParams(overloads, k), existed, k)
  {
    InForKey(Uses(overloads, existed), k, u);
    if u in ForKey(Uses(overloads, existed), k) {
      var i, j := UseSite(overloads, existed, u);
      assert overloads[i] in overloads && LiteralAt(overloads[i].params, j, k);
      assert overloads[i].params[j] in LiteralParams(overloads, k);
    }
    if u in UsesFor(LiteralParams(overloads, k), existed, k) {
      var p :| p in LiteralParams(overloads, k) && u == UseFor(p, existed, k);
      var s, j :| s in overloads && 0 <= j < |s.params| && LiteralAt(s.params, j, k) && p == s.params[j];
      var i :| 0 <= i < |overloads| && overloads[i] == s;
      SiteUsed(overloads, existed, i, j);
    }
  }

  lemma MapIff(uses: seq<LiteralUse>, params: set<Param>, existed: bool, k: string, m: MemberMap)
    requires forall u :: u in uses <==> u in UsesFor(params, existed, k)
    ensures m in MapsOf(uses) <==> m in MapsFor(params)
  {
    if m in MapsOf(uses) {
      var i :| 0 <= i < |uses| && uses[i].members == m;
      assert uses[i] in uses;
    }
    if p :| p in params && m == LiteralMembersOf(p) {
      assert UseFor(p, existed, k) in uses;
      var i :| 0 <= i < |uses| && uses[i] == UseFor(p, existed, k);
      assert MapsOf(uses)[i] == m;
    }
  }

  lemma RecordedHardness(uses: seq<LiteralUse>, params: set<Param>, existed: bool, k: string)
    requires forall u :: u in uses <==> u in UsesFor(params, existed, k)
    ensures uses != [] <==> params != {}
    ensures (exists u :: u in uses && u.mandatory) <==> existed && exists p :: p in params && !p.optional
  {
    if uses != [] {
      assert uses[0] in UsesFor(params, existed, k);
    }
    if p :| p in params {
      assert UseFor(p, existed, k) in uses;
    }
    if p :| p in params && !p.optional && existed {
      assert UseFor(p, existed, k) in uses && UseFor(p, existed, k).mandatory;
    }
  }

  lemma RecordedRequired(maps: seq<MemberMap>, params: set<Param>, path: Path)
    requires forall m :: m in maps <==> m in MapsFor(params)
    ensures path in MergeOverloads(maps) <==> exists p :: p in params && path in LiteralMembersOf(p)
    ensures path in Required(MergeOverloads(maps)) <==>
      (exists p :: p in params && path in LiteralMembersOf(p)) &&
      (forall p :: p in params && path in LiteralMembersOf(p) ==> path in Required(LiteralMembersOf(p)))
  {
    RequiredSets(maps, path);
    forall p | p in params ensures LiteralMembersOf(p) in maps {
      assert LiteralMembersOf(p) in MapsFor(params);
    }
  }

  /** There is an entry iff some overload has the literal, and it is hard iff the callable
      existed and some overload does not make the parameter optional. */
  lemma InlineEntryIff(view: View, callable: CallableKey, k: string)
    ensures var params := LiteralParams(SignaturesOf(view.surface, callable), k);
            var entry := EntryAt(view, OfParameter(callable, k));
            (entry.Some? <==> params != {}) &&
            (entry.Some? ==> (entry.value.contravariant <==>
              KeyExisted(view.existing, callable) && exists p :: p in params && !p.optional))
  {
    var overloads, existed := SignaturesOf(view.surface, callable), KeyExisted(view.existing, callable);
    forall u { UseIff(overloads, existed, k, u); }
    RecordedHardness(UsesAt(view, callable, k), LiteralParams(overloads, k), existed, k);
  }

  /** The entry has the paths of all those literals; one is required iff every overload literal
      that has it requires it. */
  lemma InlineEntryRequiredIff(view: View, callable: CallableKey, k: string, path: Path)
    requires EntryAt(view, OfParameter(callable, k)).Some?
    ensures var params := LiteralParams(SignaturesOf(view.surface, callable), k);
            var members := EntryAt(view, OfParameter(callable, k)).value.members;
            (path in members <==> exists p :: p in params && path in LiteralMembersOf(p)) &&
            (path in Required(members) <==>
              (exists p :: p in params && path in LiteralMembersOf(p)) &&
              (forall p :: p in params && path in LiteralMembersOf(p) ==> path in Required(LiteralMembersOf(p))))
  {
    var overloads, existed := SignaturesOf(view.surface, callable), KeyExisted(view.existing, callable);
    forall u { UseIff(overloads, existed, k, u); }
    forall m { MapIff(UsesAt(view, callable, k), LiteralParams(overloads, k), existed, k, m); }
    RecordedRequired(MapsOf(UsesAt(view, callable, k)), LiteralParams(overloads, k), path);
  }

  /** The members of the inline literals that overloads return. */
  function ReturnedLiterals(overloads: seq<Signature>): set<MemberMap> {
    set s | s in overloads && s.result.Some? && Resolve(s.result.value) != map[] :: Resolve(s.result.value)
  }

  predicate ReturnsMap(overloads: seq<Signature>, m: MemberMap) {
    exists s | s in overloads :: m in ResultMap(s)
  }

  lemma ReturnsMapStep(overloads: seq<Signature>, m: MemberMap)
    requires overloads != []
    ensures var rest, last := overloads[..|overloads| - 1], overloads[|overloads| - 1];
            ReturnsMap(overloads, m) <==> ReturnsMap(rest, m) || m in ResultMap(last)
  {
    assert overloads == overloads[..|overloads| - 1] + [overloads[|overloads| - 1]];
  }

  lemma {:induction false} ResultMapSite(overloads: seq<Signature>, m: MemberMap)
    ensures m in ResultMaps(overloads) <==> ReturnsMap(overloads, m)
    decreases |overloads|
  {
    if overloads != [] {
      ResultMapSite(overloads[..|overloads| - 1], m);
      ReturnsMapStep(overloads, m);
    }
  }

  lemma ResultMapIff(overloads: seq<Signature>, m: MemberMap)
    ensures m in ResultMaps(overloads) <==> m in ReturnedLiterals(overloads)
  {
    ResultMapSite(overloads, m);
  }

  lemma NoReturnedLiteral(overloads: seq<Signature>)
    ensures ResultMaps(overloads) == [] <==> ReturnedLiterals(overloads) == {}
  {
    if ResultMaps(overloads) != [] {
      ResultMapIff(overloads, ResultMaps(overloads)[0]);
    }
    if m :| m in ReturnedLiterals(overloads) {
      ResultMapIff(overloads, m);
    }
  }

  lemma MergedLiterals(maps: seq<MemberMap>, literals: set<MemberMap>, path: Path)
    requires forall m :: m in maps <==> m in literals
    ensures path in MergeOverloads(maps) <==> exists m :: m in literals && path in m
    ensures path in Required(MergeOverloads(maps)) <==>
      (exists m :: m in literals && path in m) && forall m :: m in literals && path in m ==> path in Required(m)
  {
    RequiredSets(maps, path);
  }

  /** A return entry exists iff some overload returns a literal, and it is never hard. */
  lemma ResultEntryIff(view: View, callable: CallableKey)
    ensures EntryAt(view, OfResult(callable)).Some? <==> ReturnedLiterals(SignaturesOf(view.surface, callable)) != {}
    ensures EntryAt(view, OfResult(callable)).Some? ==> !EntryAt(view, OfResult(callable)).value.contravariant
  {
    NoReturnedLiteral(SignaturesOf(view.surface, callable));
  }

  /** The entry has the paths of all those literals; one is required iff every literal that has
      it requires it. */
  lemma ResultEntryRequiredIff(view: View, callable: CallableKey, path: Path)
    requires EntryAt(view, OfResult(callable)).Some?
    ensures var literals := ReturnedLiterals(SignaturesOf(view.surface, callable));
            var members := EntryAt(view, OfResult(callable)).value.members;
            (path in members <==> exists m :: m in literals && path in m) &&
            (path in Required(members) <==>
              (exists m :: m in literals && path in m) &&
                forall m :: m in literals && path in m ==> path in Required(m))
  {
    var overloads := SignaturesOf(view.surface, callable);
    forall m { ResultMapIff(overloads, m); }
    MergedLiterals(ResultMaps(overloads), ReturnedLiterals(overloads), path);
  }

  // ---------- naming a literal ----------

  function NamedParam(params: seq<Param>, j: nat, k: string, alias: string): Param
    requires j < |params|
  {
    if LiteralAt(params, j, k) then Param(params[j].name, params[j].optional, Some(Ref(alias, []))) else params[j]
  }

  /** Every inline literal under the key `k` replaced by a reference to `alias`. */
  function NameParams(params: seq<Param>, k: string, alias: string): (r: seq<Param>)
    ensures |r| == |params|
    ensures forall j :: 0 <= j < |params| ==> r[j] == NamedParam(params, j, k, alias)
  {
    seq(|params|, j requires 0 <= j < |params| => NamedParam(params, j, k, alias))
  }

  /** One signature of a callable, with what its own declaration says about being optional. */
  datatype Carrier = Carrier(params: seq<Param>, optional: bool)

  predicate IsCallable(m: ClassElement, member: string) {
    !Hidden(m) && ((m.Constructor? && member == "constructor") || (m.ClassMethod? && MemberName(m.key) == Some(member)))
  }

  function CarriersOf(surface: Surface, callable: CallableKey): set<Carrier> {
    match callable
    case TopLevel(name) => set f | f in surface.functions && f.name == name :: Carrier(f.params, false)
    case Member(owner, member) =>
      if owner !in surface.declarations then {} else
      match surface.declarations[owner]
      case Alias(_) => {}
      case Interface(elements) =>
        set e | e in elements && e.Method? && MemberName(e.key) == Some(member) :: Carrier(e.params, e.optional)
      case Class(members) =>
        set m | m in members && IsCallable(m, member) :: Carrier(m.params, m.ClassMethod? && m.optional)
  }

  function NameElement(e: TypeElement, member: string, k: string, alias: string): TypeElement {
    if e.Method? && MemberName(e.key) == Some(member) then e.(params := NameParams(e.params, k, alias)) else e
  }

  function NameClassElement(m: ClassElement, member: string, k: string, alias: string): ClassElement {
    if IsCallable(m, member) then m.(params := NameParams(m.params, k, alias)) else m
  }

  function NameFunction(f: FunctionDeclaration, name: string, k: string, alias: string): FunctionDeclaration {
    if f.name == name then f.(params := NameParams(f.params, k, alias)) else f
  }

  function NameMember(d: Declaration, member: string, k: string, alias: string): Declaration {
    match d
    case Alias(_) => d
    case Interface(elements) =>
      Interface(seq(|elements|, i requires 0 <= i < |elements| => NameElement(elements[i], member, k, alias)))
    case Class(members) =>
      Class(seq(|members|, i requires 0 <= i < |members| => NameClassElement(members[i], member, k, alias)))
  }

  /** The surface with every inline literal `callable(k)` written as `alias`, declared to be `body`. */
  function NameIn(surface: Surface, callable: CallableKey, k: string, alias: string, body: TypeNode): Surface {
    match callable
    case TopLevel(name) =>
      Surface(surface.declarations[alias := Alias(body)],
              seq(|surface.functions|, i requires 0 <= i < |surface.functions| =>
                  NameFunction(surface.functions[i], name, k, alias)))
    case Member(owner, member) =>
      if owner in surface.declarations
      then
        var named := NameMember(surface.declarations[owner], member, k, alias);
        Surface(surface.declarations[owner := named][alias := Alias(body)], surface.functions)
      else Surface(surface.declarations[alias := Alias(body)], surface.functions)
  }

  /** Some signature that must be there takes the literal in a parameter that must be passed. */
  predicate Demanded(view: View, callable: CallableKey, k: string) {
    KeyExisted(view.existing, callable) &&
    exists c, j | c in CarriersOf(view.surface, callable) && 0 <= j < |c.params| ::
      !c.optional && LiteralAt(c.params, j, k) && !c.params[j].optional
  }

  /** A parameter position of the callable that now refers to `alias`. */
  ghost predicate NewKid(view: View, callable: CallableKey, k: string, alias: string, kid: Kid) {
    kid.flips && kid.node == Ref(alias, []) &&
    exists c, j :: c in CarriersOf(view.surface, callable) && 0 <= j < |c.params| && LiteralAt(c.params, j, k) &&
      kid.strict == (KeyExisted(view.existing, callable) && !c.optional && !c.params[j].optional)
  }

  lemma NamedParamKids(view: View, callable: CallableKey, c: Carrier, k: string, alias: string, kid: Kid)
    requires c in CarriersOf(view.surface, callable)
    requires kid in ParamKids(NameParams(c.params, k, alias), !c.optional && KeyExisted(view.existing, callable))
    ensures kid in ParamKids(c.params, !c.optional && KeyExisted(view.existing, callable)) ||
      NewKid(view, callable, k, alias, kid)
  {
    var params := NameParams(c.params, k, alias);
    var gate := !c.optional && KeyExisted(view.existing, callable);
    var p :| p in params && p.annotation.Some? && kid == Kid(true, gate && !p.optional, p.annotation.value);
    var j :| 0 <= j < |params| && params[j] == p;
    assert p == NamedParam(c.params, j, k, alias);
    if !LiteralAt(c.params, j, k) {
      assert p in c.params;
    }
  }

  lemma NamedParamKidPresent(params: seq<Param>, gate: bool, k: string, alias: string, j: nat)
    requires LiteralAt(params, j, k)
    ensures Kid(true, gate && !params[j].optional, Ref(alias, [])) in ParamKids(NameParams(params, k, alias), gate)
  {
    var p := NamedParam(params, j, k, alias);
    assert p in NameParams(params, k, alias);
  }

  /** Every constituent of the renamed owner was there before or is such a position. */
  lemma NamedMemberKids(view: View, callable: CallableKey, k: string, alias: string, kid: Kid)
    requires callable.Member? && callable.owner in view.surface.declarations
    requires var d := view.surface.declarations[callable.owner];
             kid in DeclarationKids(callable.owner, NameMember(d, callable.member, k, alias), view.existing)
    ensures kid in DeclarationKids(callable.owner, view.surface.declarations[callable.owner], view.existing) ||
            NewKid(view, callable, k, alias, kid)
  {
    var Member(owner, member) := callable;
    match view.surface.declarations[owner]
    case Alias(_) =>
    case Interface(elements) =>
      var named := NameMember(Interface(elements), member, k, alias).elements;
      var e' :| e' in named && kid in ElementKids(e', AsWritten, Some(owner), view.existing);
      var i :| 0 <= i < |named| && named[i] == e';
      var e := elements[i];
      assert e in elements;
      if e' != e && kid !in TypeKids(e.result, !e.optional) {
        NamedParamKids(view, callable, Carrier(e.params, e.optional), k, alias, kid);
      }
      assert kid in ElementKids(e, AsWritten, Some(owner), view.existing) || NewKid(view, callable, k, alias, kid);
    case Class(members) =>
      var named := NameMember(Class(members), member, k, alias).members;
      var m' :| m' in named && kid in ClassElementKids(m', owner, view.existing);
      var i :| 0 <= i < |named| && named[i] == m';
      var m := members[i];
      assert m in members;
      if m' != m && (m.Constructor? || kid !in TypeKids(m.result, !m.optional)) {
        NamedParamKids(view, callable, Carrier(m.params, m.ClassMethod? && m.optional), k, alias, kid);
      }
      assert kid in ClassElementKids(m, owner, view.existing) || NewKid(view, callable, k, alias, kid);
  }

  // ---------- where the alias occurs ----------

  ghost predicate KnownNames(view: View, t: TypeNode) {
    forall i :: i in In(t) ==> i.name in Names(view)
  }

  lemma DeclarationKidNames(view: View, n: string, kid: Kid)
    requires n in view.surface.declarations && kid in DeclarationKids(n, view.surface.declarations[n], view.existing)
    ensures KnownNames(view, kid.node)
  {
    forall i | i in In(kid.node) ensures i.name in Names(view) {
      assert Through(kid, i) in DeclarationOccurrences(view, n) && Through(kid, i).name == i.name;
    }
  }

  lemma FunctionKidNames(view: View, f: FunctionDeclaration, kid: Kid)
    requires f in view.surface.functions && kid in FunctionKids(f, view.existing)
    ensures KnownNames(view, kid.node)
  {
    forall i | i in In(kid.node) ensures i.name in Names(view) {
      assert Through(kid, i) in InKids(FunctionKids(f, view.existing));
      assert Through(kid, i) in FunctionOccurrences(view) && Through(kid, i).name == i.name;
    }
  }

  lemma BareReference(alias: string)
    ensures In(Ref(alias, [])) == {Occurrence(alias, false, true)}
  {
    assert NodeKids(Ref(alias, [])) == {};
  }

  lemma KidDemands(view: View, callable: CallableKey, k: string, alias: string, kid: Kid, o: Occurrence)
    requires alias !in Names(view)
    requires KnownNames(view, kid.node) || NewKid(view, callable, k, alias, kid)
    requires o in InKids({kid}) && o.name == alias && o.strict
    ensures Demanded(view, callable, k)
  {
    BareReference(alias);
  }

  /** The annotation of any parameter of a callable mentions known names only. */
  lemma ParameterNames(view: View, callable: CallableKey, c: Carrier, p: Param)
    requires c in CarriersOf(view.surface, callable) && p in c.params && p.annotation.Some?
    ensures KnownNames(view, p.annotation.value)
  {
    var gate := !c.optional && KeyExisted(view.existing, callable);
    var kid := Kid(true, gate && !p.optional, p.annotation.value);
    assert kid in ParamKids(c.params, gate);
    match callable
    case TopLevel(name) =>
      var f :| f in view.surface.functions && f.name == name && c == Carrier(f.params, false);
      assert kid in FunctionKids(f, view.existing);
      FunctionKidNames(view, f, kid);
    case Member(owner, member) =>
      match view.surface.declarations[owner] {
        case Interface(elements) =>
          var e :| e in elements && e.Method? && MemberName(e.key) == Some(member) &&
            c == Carrier(e.params, e.optional);
          assert kid in ElementKids(e, AsWritten, Some(owner), view.existing);
        case Class(members) =>
          var m :| m in members && IsCallable(m, member) && c == Carrier(m.params, m.ClassMethod? && m.optional);
          assert kid in ClassElementKids(m, owner, view.existing);
      }
      assert kid in DeclarationKids(owner, view.surface.declarations[owner], view.existing);
      DeclarationKidNames(view, owner, kid);
  }

  /** After naming, a mandatory occurrence of the alias is a demand of the callable. */
  lemma DeclarationDemands(view: View, callable: CallableKey, k: string, alias: string, body: TypeNode, n: string,
                           o: Occurrence)
    requires alias !in Names(view) && KnownNames(view, body)
    requires o in DeclarationOccurrences(View(NameIn(view.surface, callable, k, alias, body), view.existing), n)
    requires o.name == alias && o.strict
    ensures Demanded(view, callable, k)
  {
    var named := NameIn(view.surface, callable, k, alias, body);
    var kid, i :| kid in DeclarationKids(n, named.declarations[n], view.existing) && i in In(kid.node) &&
      o == Through(kid, i);
    assert o in InKids({kid});
    if n != alias && callable.Member? && n == callable.owner {
      NamedMemberKids(view, callable, k, alias, kid);
      if kid in DeclarationKids(n, view.surface.declarations[n], view.existing) {
        DeclarationKidNames(view, n, kid);
      }
    } else if n != alias {
      DeclarationKidNames(view, n, kid);
    }
    KidDemands(view, callable, k, alias, kid, o);
  }

  lemma FunctionKidOrigin(view: View, callable: CallableKey, k: string, alias: string, f: FunctionDeclaration, kid: Kid)
    requires callable.TopLevel? && f in view.surface.functions
    requires kid in FunctionKids(NameFunction(f, callable.name, k, alias), view.existing)
    ensures kid in FunctionKids(f, view.existing) || NewKid(view, callable, k, alias, kid)
  {
    var f' := NameFunction(f, callable.name, k, alias);
    if f' != f && kid !in TypeKids(f.result, true) {
      assert Carrier(f.params, false) in CarriersOf(view.surface, callable);
      NamedParamKids(view, callable, Carrier(f.params, false), k, alias, kid);
    }
  }

  lemma FunctionBeforeNaming(surface: Surface, callable: CallableKey, k: string, alias: string, body: TypeNode,
                             f': FunctionDeclaration)
    returns (f: FunctionDeclaration)
    requires f' in NameIn(surface, callable, k, alias, body).functions
    ensures f in surface.functions
    ensures f' == if callable.TopLevel? then NameFunction(f, callable.name, k, alias) else f
  {
    var named := NameIn(surface, callable, k, alias, body).functions;
    var x :| 0 <= x < |named| && named[x] == f';
    f := surface.functions[x];
  }

  lemma FunctionKidDemands(view: View, callable: CallableKey, k: string, alias: string, f: FunctionDeclaration,
                           kid: Kid, o: Occurrence)
    requires alias !in Names(view) && f in view.surface.functions
    requires var named := if callable.TopLevel? then NameFunction(f, callable.name, k, alias) else f;
             kid in FunctionKids(named, view.existing)
    requires o in InKids({kid}) && o.name == alias && o.strict
    ensures Demanded(view, callable, k)
  {
    if callable.TopLevel? {
      FunctionKidOrigin(view, callable, k, alias, f, kid);
    }
    if kid in FunctionKids(f, view.existing) {
      FunctionKidNames(view, f, kid);
    }
    KidDemands(view, callable, k, alias, kid, o);
  }

  lemma FunctionDemands(view: View, callable: CallableKey, k: string, alias: string, body: TypeNode, o: Occurrence)
    requires alias !in Names(view)
    requires o in FunctionOccurrences(View(NameIn(view.surface, callable, k, alias, body), view.existing))
    requires o.name == alias && o.strict
    ensures Demanded(view, callable, k)
  {
    var named := NameIn(view.surface, callable, k, alias, body);
    var f' :| f' in named.functions && o in InKids(FunctionKids(f', view.existing));
    var f := FunctionBeforeNaming(view.surface, callable, k, alias, body, f');
    var kid, i :| kid in FunctionKids(f', view.existing) && i in In(kid.node) && o == Through(kid, i);
    assert o in InKids({kid});
    FunctionKidDemands(view, callable, k, alias, f, kid, o);
  }

  lemma OwnerHasKid(view: View, callable: CallableKey, c: Carrier, k: string, alias: string, kid: Kid)
    requires callable.Member? && c in CarriersOf(view.surface, callable) && !c.optional &&
      KeyExisted(view.existing, callable)
    requires kid in ParamKids(NameParams(c.params, k, alias), true)
    ensures kid in DeclarationKids(callable.owner,
      NameMember(view.surface.declarations[callable.owner], callable.member, k, alias), view.existing)
  {
    var Member(owner, member) := callable;
    match view.surface.declarations[owner]
    case Interface(elements) =>
      var e :| e in elements && e.Method? && MemberName(e.key) == Some(member) && c == Carrier(e.params, e.optional);
      var i :| 0 <= i < |elements| && elements[i] == e;
      var named := NameMember(Interface(elements), member, k, alias).elements;
      assert named[i] in named && kid in ElementKids(named[i], AsWritten, Some(owner), view.existing);
    case Class(members) =>
      var m :| m in members && IsCallable(m, member) && c == Carrier(m.params, m.ClassMethod? && m.optional);
      var i :| 0 <= i < |members| && members[i] == m;
      var named := NameMember(Class(members), member, k, alias).members;
      assert named[i] in named && kid in ClassElementKids(named[i], owner, view.existing);
  }

  lemma DemandIsThere(view: View, callable: CallableKey, k: string, alias: string, body: TypeNode)
    requires alias !in Names(view) && Demanded(view, callable, k)
    ensures StrictlyReaches(View(NameIn(view.surface, callable, k, alias, body), view.existing), alias, true)
  {
    var named := NameIn(view.surface, callable, k, alias, body);
    var va := View(named, view.existing);
    var c, j :| c in CarriersOf(view.surface, callable) && 0 <= j < |c.params| &&
      !c.optional && LiteralAt(c.params, j, k) && !c.params[j].optional;
    var kid := Kid(true, true, Ref(alias, []));
    NamedParamKidPresent(c.params, true, k, alias, j);
    BareReference(alias);
    var o := Occurrence(alias, true, true);
    assert Through(kid, Occurrence(alias, false, true)) == o;
    match callable
    case TopLevel(name) =>
      var f :| f in view.surface.functions && f.name == name && c == Carrier(f.params, false);
      var x :| 0 <= x < |view.surface.functions| && view.surface.functions[x] == f;
      var f' := NameFunction(f, name, k, alias);
      assert named.functions[x] == f' && kid in FunctionKids(f', view.existing);
      assert o in InKids(FunctionKids(f', view.existing)) && f' in named.functions;
      FunctionReached(va, o);
    case Member(owner, member) =>
      OwnerHasKid(view, callable, c, k, alias, kid);
      assert owner in Names(view);
      assert o in DeclarationOccurrences(va, owner);
      SeedReached(va, owner);
      ReachedThrough(va, owner, false, o);
  }

  /** The alias is hard exactly when the callable demands the literal. */
  lemma NamedHardIff(view: View, callable: CallableKey, k: string, alias: string, body: TypeNode)
    requires alias !in Names(view) && KnownNames(view, body)
    ensures HardContravariant(View(NameIn(view.surface, callable, k, alias, body), view.existing), alias) <==>
      Demanded(view, callable, k)
  {
    var va := View(NameIn(view.surface, callable, k, alias, body), view.existing);
    HardIffOddChain(va, alias);
    if Demanded(view, callable, k) {
      DemandIsThere(view, callable, k, alias, body);
    }
    if StrictlyReaches(va, alias, true) {
      var start: Option<string>, links: seq<Occurrence> :|
        Chain(va, start, links) && Strict(links) && End(start, links) == alias && Odd(links);
      var x := |links| - 1;
      var o := links[x];
      assert o in links && o in LinksFrom(va, start, links, x);
      if x > 0 {
        DeclarationDemands(view, callable, k, alias, body, links[x - 1].name, o);
      } else if start.Some? {
        DeclarationDemands(view, callable, k, alias, body, start.value, o);
      } else {
        FunctionDemands(view, callable, k, alias, body, o);
      }
    }
  }

  // ---------- the two records ----------

  lemma {:induction false} InterfaceSignature(elements: seq<TypeElement>, member: string, s: Signature)
    ensures s in InterfaceSignatures(elements, member) <==>
      exists e :: e in elements && s in ElementSignature(e, member)
    decreases |elements|
  {
    if elements != [] {
      var n := |elements| - 1;
      InterfaceSignature(elements[..n], member, s);
      assert elements == elements[..n] + [elements[n]];
    }
  }

  lemma {:induction false} ClassSignature(members: seq<ClassElement>, member: string, s: Signature)
    ensures s in ClassSignatures(members, member) <==> exists m :: m in members && s in ClassElementSignature(m, member)
    decreases |members|
  {
    if members != [] {
      var n := |members| - 1;
      ClassSignature(members[..n], member, s);
      assert members == members[..n] + [members[n]];
    }
  }

  lemma {:induction false} FunctionSignature(functions: seq<FunctionDeclaration>, name: string, s: Signature)
    ensures s in FunctionSignatures(functions, name) <==>
      exists f :: f in functions && f.name == name && s == Signature(f.params, f.result)
    decreases |functions|
  {
    if functions != [] {
      var n := |functions| - 1;
      FunctionSignature(functions[..n], name, s);
      assert functions == functions[..n] + [functions[n]];
    }
  }

  /** Overloads and carriers are the same signatures. */
  lemma CarrierOfSignature(surface: Surface, callable: CallableKey, s: Signature) returns (c: Carrier)
    requires s in SignaturesOf(surface, callable)
    ensures c in CarriersOf(surface, callable) && c.params == s.params
  {
    match callable
    case TopLevel(name) =>
      FunctionSignature(surface.functions, name, s);
      c := Carrier(s.params, false);
    case Member(owner, member) =>
      match surface.declarations[owner] {
        case Interface(elements) =>
          InterfaceSignature(elements, member, s);
          var e :| e in elements && s in ElementSignature(e, member);
          c := Carrier(e.params, e.optional);
        case Class(members) =>
          ClassSignature(members, member, s);
          var m :| m in members && s in ClassElementSignature(m, member);
          c := Carrier(m.params, m.ClassMethod? && m.optional);
      }
  }

  lemma SignatureOfCarrier(surface: Surface, callable: CallableKey, c: Carrier) returns (s: Signature)
    requires c in CarriersOf(surface, callable)
    ensures s in SignaturesOf(surface, callable) && c.params == s.params
  {
    match callable
    case TopLevel(name) =>
      var f :| f in surface.functions && f.name == name && c == Carrier(f.params, false);
      s := Signature(f.params, f.result);
      FunctionSignature(surface.functions, name, s);
    case Member(owner, member) =>
      match surface.declarations[owner] {
        case Interface(elements) =>
          var e :| e in elements && e.Method? && MemberName(e.key) == Some(member) &&
            c == Carrier(e.params, e.optional);
          s := Signature(e.params, e.result);
          InterfaceSignature(elements, member, s);
        case Class(members) =>
          var m :| m in members && IsCallable(m, member) && c == Carrier(m.params, m.ClassMethod? && m.optional);
          s := Signature(m.params, if m.Constructor? then None else m.result);
          ClassSignature(members, member, s);
      }
  }

  lemma CarriedParam(surface: Surface, callable: CallableKey, k: string, p: Param)
    ensures p in LiteralParams(SignaturesOf(surface, callable), k) <==>
      exists c, j :: c in CarriersOf(surface, callable) && 0 <= j < |c.params| && LiteralAt(c.params, j, k) &&
        c.params[j] == p
  {
    var overloads := SignaturesOf(surface, callable);
    if p in LiteralParams(overloads, k) {
      var s, j :| s in overloads && 0 <= j < |s.params| && LiteralAt(s.params, j, k) && p == s.params[j];
      var c := CarrierOfSignature(surface, callable, s);
      assert LiteralAt(c.params, j, k);
    }
    if c, j :|
      c in CarriersOf(surface, callable) && 0 <= j < |c.params| && LiteralAt(c.params, j, k) && c.params[j] == p
    {
      var s := SignatureOfCarrier(surface, callable, c);
      assert LiteralAt(s.params, j, k);
    }
  }

  lemma SharedMapMerges(maps: seq<MemberMap>, m: MemberMap)
    requires maps != [] && forall x :: x in maps ==> x == m
    ensures MergeOverloads(maps) == m
  {
    assert maps[0] in maps;
    forall k ensures Declares(maps, k) <==> k in m {}
  }

  /** All inline literals of the callable under `k` are the same type. */
  ghost predicate SharedLiteral(view: View, callable: CallableKey, k: string, body: TypeNode) {
    var params := LiteralParams(SignaturesOf(view.surface, callable), k);
    params != {} && forall p :: p in params ==> p.annotation == Some(body)
  }

  /** The callable existed and some of the literal's parameters carries no `?`: all that the
      inline path asks for. */
  ghost predicate PassedByCallers(view: View, callable: CallableKey, k: string) {
    KeyExisted(view.existing, callable) &&
      exists p :: p in LiteralParams(SignaturesOf(view.surface, callable), k) && !p.optional
  }

  lemma DemandIsInlineHard(view: View, callable: CallableKey, k: string)
    requires Demanded(view, callable, k)
    ensures KeyExisted(view.existing, callable) &&
      exists p :: p in LiteralParams(SignaturesOf(view.surface, callable), k) && !p.optional
  {
    var c, j :| c in CarriersOf(view.surface, callable) && 0 <= j < |c.params| &&
      !c.optional && LiteralAt(c.params, j, k) && !c.params[j].optional;
    CarriedParam(view.surface, callable, k, c.params[j]);
  }

  /** Inline entry and alias record have the same members. They agree on being hard exactly
      when a literal that callers pass is demanded by a signature that must be there; the
      inline path does not look at the optionality of the method itself. */
  lemma NamedAgreesWithInline(view: View, callable: CallableKey, k: string, alias: string, body: TypeNode)
    requires alias !in Names(view) && SharedLiteral(view, callable, k, body)
    ensures var inline := EntryAt(view, OfParameter(callable, k));
            var named := RecordAt(View(NameIn(view.surface, callable, k, alias, body), view.existing),
              OfDeclaration(alias));
            inline.Some? && named.Some? && named.value.members == inline.value.members &&
            (named.value.contravariant == inline.value.contravariant <==>
              (PassedByCallers(view, callable, k) ==> Demanded(view, callable, k)))
  {
    var overloads := SignaturesOf(view.surface, callable);
    var params, uses := LiteralParams(overloads, k), UsesAt(view, callable, k);
    var existed := KeyExisted(view.existing, callable);
    InlineEntryIff(view, callable, k);
    forall u { UseIff(overloads, existed, k, u); }
    forall m | m in MapsOf(uses) ensures m == Resolve(body) {
      MapIff(uses, params, existed, k, m);
    }
    SharedMapMerges(MapsOf(uses), Resolve(body));
    var p :| p in params;
    CarriedParam(view.surface, callable, k, p);
    var c, j :| c in CarriersOf(view.surface, callable) && 0 <= j < |c.params| && LiteralAt(c.params, j, k) &&
      c.params[j] == p;
    ParameterNames(view, callable, c, p);
    NamedHardIff(view, callable, k, alias, body);
    if Demanded(view, callable, k) {
      DemandIsInlineHard(view, callable, k);
    }
  }

  /** For functions, constructors and methods without a question mark the two paths agree. */
  lemma NamedEqualsInline(view: View, callable: CallableKey, k: string, alias: string, body: TypeNode)
    requires alias !in Names(view) && SharedLiteral(view, callable, k, body)
    requires forall c :: c in CarriersOf(view.surface, callable) ==> !c.optional
    ensures var inline := EntryAt(view, OfParameter(callable, k));
            inline.Some? &&
            RecordAt(View(NameIn(view.surface, callable, k, alias, body), view.existing), OfDeclaration(alias))
            == Some(inline.value.(kind := AliasKind))
  {
    NamedAgreesWithInline(view, callable, k, alias, body);
    InlineEntryIff(view, callable, k);
    var params := LiteralParams(SignaturesOf(view.surface, callable), k);
    if p :| p in params && !p.optional {
      CarriedParam(view.surface, callable, k, p);
    }
  }

  lemma OnlySignature(surface: Surface, owner: string, m: string, p: Param)
    requires owner in surface.declarations &&
      surface.declarations[owner] == Interface([Method(Plain(m), true, [p], None)])
    ensures SignaturesOf(surface, Member(owner, m)) == [Signature([p], None)]
    ensures CarriersOf(surface, Member(owner, m)) == {Carrier([p], true)}
  {
    var e := Method(Plain(m), true, [p], None);
    assert [e][..0] == [] && e in [e];
    assert InterfaceSignatures([e], m) == InterfaceSignatures([e][..0], m) + ElementSignature(e, m);
  }

  lemma OnlyLiteral(p: Param, o: string)
    requires HasLiteral(p) && p.name == Some(o)
    ensures LiteralParams([Signature([p], None)], o) == {p}
  {
    var s := Signature([p], None);
    assert s in [s] && LiteralAt(s.params, 0, o);
  }

  /** They disagree on `interface I { m?(o: {...}): void }`: the inline entry is hard, the alias
      record is not. */
  lemma OptionalMethodDisagrees(owner: string, m: string, o: string, body: TypeNode, alias: string, view: View)
    requires Resolve(body) != map[] && alias !in Names(view)
    requires var e := Method(Plain(m), true, [Param(Some(o), false, Some(body))], None);
             view.surface == Surface(map[owner := Interface([e])], [])
    requires view.existing == Some({Member(owner, m)})
    ensures var inline := EntryAt(view, OfParameter(Member(owner, m), o));
            var named := RecordAt(View(NameIn(view.surface, Member(owner, m), o, alias, body), view.existing),
              OfDeclaration(alias));
            inline.Some? && named.Some? && inline.value.contravariant && !named.value.contravariant
  {
    var callable := Member(owner, m);
    var p := Param(Some(o), false, Some(body));
    OnlySignature(view.surface, owner, m, p);
    OnlyLiteral(p, o);
    assert SharedLiteral(view, callable, o, body) && PassedByCallers(view, callable, o) && !Demanded(view, callable, o);
    InlineEntryIff(view, callable, o);
    NamedAgreesWithInline(view, callable, o, alias, body);
  }
}
