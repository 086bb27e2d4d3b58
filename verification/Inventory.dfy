/** The inventory of one report body: a record for every named declaration, and one for every
    object literal written inline in a parameter or return position. */
module Inventory {
  import opened Syntax
  import opened MemberMaps
  import opened MemberResolution
  import opened Occurrences
  import opened ContravariantWalk

  datatype DeclarationKind = AliasKind | InterfaceKind | ClassKind | InlineLiteral

  /** `Name`, `callable(param)` and `callable(=>)`. */
  datatype DeclarationKey =
    | OfDeclaration(name: string)
    | OfParameter(callable: CallableKey, parameter: string)
    | OfResult(callable: CallableKey)

  datatype Record = Record(kind: DeclarationKind, contravariant: bool, members: MemberMap)

  type SurfaceInventory = map<DeclarationKey, Record>

  datatype Signature = Signature(params: seq<Param>, result: Option<TypeNode>)

  type Groups = map<CallableKey, seq<Signature>>

  // ---------- callables ----------

  function FunctionSignatures(functions: seq<FunctionDeclaration>, name: string): seq<Signature> {
    if functions == [] then []
    else
      var rest, f := FunctionSignatures(functions[..|functions| - 1], name), functions[|functions| - 1];
      if f.name == name then rest + [Signature(f.params, f.result)] else rest
  }

  function ElementSignature(e: TypeElement, member: string): seq<Signature> {
    if e.Method? && MemberName(e.key) == Some(member) then [Signature(e.params, e.result)] else []
  }

  function InterfaceSignatures(elements: seq<TypeElement>, member: string): seq<Signature> {
    if elements == [] then []
    else InterfaceSignatures(elements[..|elements| - 1], member) + ElementSignature(elements[|elements| - 1], member)
  }

  /** Only what is visible outside the class; a constructor has no result type. */
  function ClassElementSignature(m: ClassElement, member: string): seq<Signature> {
    if Hidden(m) then []
    else if m.Constructor? && member == "constructor" then [Signature(m.params, None)]
    else if m.ClassMethod? && MemberName(m.key) == Some(member) then [Signature(m.params, m.result)]
    else []
  }

  function ClassSignatures(members: seq<ClassElement>, member: string): seq<Signature> {
    if members == [] then []
    else ClassSignatures(members[..|members| - 1], member) + ClassElementSignature(members[|members| - 1], member)
  }

  function DeclaredSignatures(d: Declaration, member: string): seq<Signature> {
    match d
    case Alias(_) => []
    case Interface(elements) => InterfaceSignatures(elements, member)
    case Class(members) => ClassSignatures(members, member)
  }

  /** All overloads of a callable, in order. */
  function SignaturesOf(surface: Surface, key: CallableKey): seq<Signature> {
    match key
    case TopLevel(name) => FunctionSignatures(surface.functions, name)
    case Member(owner, member) =>
      if owner in surface.declarations then DeclaredSignatures(surface.declarations[owner], member) else []
  }

  function GroupAt(groups: Groups, key: CallableKey): seq<Signature> {
    if key in groups then groups[key] else []
  }

  predicate NoEmptyGroup(groups: Groups) {
    forall key | key in groups :: groups[key] != []
  }

  method PushCallableSignature(before: Groups, key: CallableKey, signature: Signature) returns (groups: Groups)
    requires NoEmptyGroup(before)
    ensures groups == before[key := GroupAt(before, key) + [signature]] && NoEmptyGroup(groups)
  {
    var existing := if key in before then before[key] else [];
    groups := before[key := existing + [signature]];
  }

  method CollectFunctionCallables(functions: seq<FunctionDeclaration>) returns (groups: Groups)
    ensures NoEmptyGroup(groups)
    ensures forall key :: GroupAt(groups, key) == if key.TopLevel? then FunctionSignatures(functions, key.name) else []
  {
    groups := map[];
    for i := 0 to |functions|
      invariant NoEmptyGroup(groups)
      invariant forall key ::
        GroupAt(groups, key) == if key.TopLevel? then FunctionSignatures(functions[..i], key.name) else []
    {
      assert functions[..i + 1][..i] == functions[..i];
      groups := PushCallableSignature(groups, TopLevel(functions[i].name),
        Signature(functions[i].params, functions[i].result));
    }
    assert functions[..|functions|] == functions;
  }

  /** The signatures an owner contributes under `key`. */
  function Owned(owner: string, key: CallableKey, signatures: string -> seq<Signature>): seq<Signature> {
    if key.Member? && key.owner == owner then signatures(key.member) else []
  }

  function WithInterface(before: Groups, owner: string, elements: seq<TypeElement>, key: CallableKey): seq<Signature> {
    GroupAt(before, key) + Owned(owner, key, member => InterfaceSignatures(elements, member))
  }

  function WithClass(before: Groups, owner: string, members: seq<ClassElement>, key: CallableKey): seq<Signature> {
    GroupAt(before, key) + Owned(owner, key, member => ClassSignatures(members, member))
  }

  lemma WithInterfaceStep(before: Groups, owner: string, elements: seq<TypeElement>, i: nat, key: CallableKey)
    requires i < |elements|
    ensures WithInterface(before, owner, elements[..i + 1], key) ==
      WithInterface(before, owner, elements[..i], key) +
        Owned(owner, key, member => ElementSignature(elements[i], member))
  {
    assert elements[..i + 1][..i] == elements[..i];
  }

  lemma WithClassStep(before: Groups, owner: string, members: seq<ClassElement>, i: nat, key: CallableKey)
    requires i < |members|
    ensures WithClass(before, owner, members[..i + 1], key) ==
      WithClass(before, owner, members[..i], key) +
        Owned(owner, key, member => ClassElementSignature(members[i], member))
  {
    assert members[..i + 1][..i] == members[..i];
  }

  method PushElement(before: Groups, owner: string, e: TypeElement) returns (groups: Groups)
    requires NoEmptyGroup(before)
    ensures NoEmptyGroup(groups)
    ensures forall key ::
      GroupAt(groups, key) == GroupAt(before, key) + Owned(owner, key, member => ElementSignature(e, member))
  {
    groups := before;
    if e.Method? && MemberName(e.key).Some? {
      groups := PushCallableSignature(groups, Member(owner, MemberName(e.key).value), Signature(e.params, e.result));
    }
  }

  method PushInterface(before: Groups, owner: string, elements: seq<TypeElement>) returns (groups: Groups)
    requires NoEmptyGroup(before)
    ensures NoEmptyGroup(groups)
    ensures forall key :: GroupAt(groups, key) == WithInterface(before, owner, elements, key)
  {
    groups := before;
    for i := 0 to |elements|
      invariant NoEmptyGroup(groups)
      invariant forall key :: GroupAt(groups, key) == WithInterface(before, owner, elements[..i], key)
    {
      groups := PushElement(groups, owner, elements[i]);
      forall key { WithInterfaceStep(before, owner, elements, i, key); }
    }
    assert elements[..|elements|] == elements;
  }

  method PushClassElement(before: Groups, owner: string, m: ClassElement) returns (groups: Groups)
    requires NoEmptyGroup(before)
    ensures NoEmptyGroup(groups)
    ensures forall key ::
      GroupAt(groups, key) == GroupAt(before, key) + Owned(owner, key, member => ClassElementSignature(m, member))
  {
    groups := before;
    if Hidden(m) {
      return;
    }
    match m {
      case Constructor(_, params) =>
        groups := PushCallableSignature(groups, Member(owner, "constructor"), Signature(params, None));
      case ClassMethod(key, _, _, _, params, result) =>
        if MemberName(key).Some? {
          groups := PushCallableSignature(groups, Member(owner, MemberName(key).value), Signature(params, result));
        }
      case _ =>
    }
  }

  method PushClass(before: Groups, owner: string, members: seq<ClassElement>) returns (groups: Groups)
    requires NoEmptyGroup(before)
    ensures NoEmptyGroup(groups)
    ensures forall key :: GroupAt(groups, key) == WithClass(before, owner, members, key)
  {
    groups := before;
    for i := 0 to |members|
      invariant NoEmptyGroup(groups)
      invariant forall key :: GroupAt(groups, key) == WithClass(before, owner, members[..i], key)
    {
      groups := PushClassElement(groups, owner, members[i]);
      forall key { WithClassStep(before, owner, members, i, key); }
    }
    assert members[..|members|] == members;
  }

  function MemberSignatures(declarations: map<string, Declaration>, key: CallableKey): seq<Signature> {
    if key.Member? && key.owner in declarations then DeclaredSignatures(declarations[key.owner], key.member) else []
  }

  /** Methods of interfaces and classes, and constructors, grouped by `Owner.member`. */
  method CollectMemberCallables(declarations: map<string, Declaration>) returns (groups: Groups)
    ensures NoEmptyGroup(groups)
    ensures forall key :: GroupAt(groups, key) == MemberSignatures(declarations, key)
  {
    groups := map[];
    var pending := declarations.Keys;
    while pending != {}
      invariant pending <= declarations.Keys && NoEmptyGroup(groups)
      invariant forall key: CallableKey ::
        key.Member? && key.owner !in pending ==> GroupAt(groups, key) == MemberSignatures(declarations, key)
      invariant forall key: CallableKey :: key.TopLevel? || key.owner in pending ==> GroupAt(groups, key) == []
      decreases pending
    {
      var owner :| owner in pending;
      pending := pending - {owner};
      match declarations[owner] {
        case Alias(_) =>
        case Interface(elements) => groups := PushInterface(groups, owner, elements);
        case Class(members) => groups := PushClass(groups, owner, members);
      }
    }
  }

  method CollectCallables(surface: Surface) returns (groups: Groups)
    ensures NoEmptyGroup(groups)
    ensures forall key :: GroupAt(groups, key) == SignaturesOf(surface, key)
  {
    var functions := CollectFunctionCallables(surface.functions);
    var members := CollectMemberCallables(surface.declarations);
    groups := functions + members;
    forall key ensures GroupAt(groups, key) == SignaturesOf(surface, key) {
      assert GroupAt(members, key) == MemberSignatures(surface.declarations, key);
      assert GroupAt(functions, key) == if key.TopLevel? then FunctionSignatures(surface.functions, key.name) else [];
    }
  }

  /** The keys that gate the head inventory when this surface is the base. */
  method CollectExistingCallableKeys(surface: Surface) returns (keys: set<CallableKey>)
    ensures forall key :: key in keys <==> SignaturesOf(surface, key) != []
  {
    var groups := CollectCallables(surface);
    keys := groups.Keys;
    forall key ensures key in keys <==> SignaturesOf(surface, key) != [] {
      assert GroupAt(groups, key) == SignaturesOf(surface, key);
    }
  }

  // ---------- inline literals ----------

  function Digits(n: nat): string {
    var last := [['0', '1', '2', '3', '4', '5', '6', '7', '8', '9'][n % 10]];
    if n < 10 then last else Digits(n / 10) + last
  }

  function ParameterKey(p: Param, index: nat): string {
    if p.name.Some? then p.name.value else "arg" + Digits(index)
  }

  /** One overload's inline literal for a parameter key. */
  datatype LiteralUse = LiteralUse(key: string, members: MemberMap, mandatory: bool)

  function UseOf(p: Param, index: nat, existed: bool): seq<LiteralUse> {
    if p.annotation.None? || Resolve(p.annotation.value) == map[] then []
    else [LiteralUse(ParameterKey(p, index), Resolve(p.annotation.value), existed && !p.optional)]
  }

  function UsesOf(params: seq<Param>, existed: bool): seq<LiteralUse> {
    if params == [] then []
    else UsesOf(params[..|params| - 1], existed) + UseOf(params[|params| - 1], |params| - 1, existed)
  }

  /** The inline parameter literals of all overloads, in order. */
  function Uses(overloads: seq<Signature>, existed: bool): seq<LiteralUse> {
    if overloads == [] then []
    else Uses(overloads[..|overloads| - 1], existed) + UsesOf(overloads[|overloads| - 1].params, existed)
  }

  function ForKey(uses: seq<LiteralUse>, key: string): seq<LiteralUse> {
    if uses == [] then []
    else
      var rest, u := ForKey(uses[..|uses| - 1], key), uses[|uses| - 1];
      if u.key == key then rest + [u] else rest
  }

  function MapsOf(uses: seq<LiteralUse>): (maps: seq<MemberMap>)
    ensures |maps| == |uses| && forall i :: 0 <= i < |uses| ==> maps[i] == uses[i].members
  {
    if uses == [] then [] else MapsOf(uses[..|uses| - 1]) + [uses[|uses| - 1].members]
  }

  function ResultMap(s: Signature): seq<MemberMap> {
    if s.result.None? || Resolve(s.result.value) == map[] then [] else [Resolve(s.result.value)]
  }

  function ResultMaps(overloads: seq<Signature>): seq<MemberMap> {
    if overloads == [] then [] else ResultMaps(overloads[..|overloads| - 1]) + ResultMap(overloads[|overloads| - 1])
  }

  function ParameterRecord(uses: seq<LiteralUse>): Record {
    Record(InlineLiteral, exists u | u in uses :: u.mandatory, MergeOverloads(MapsOf(uses)))
  }

  function ResultRecord(maps: seq<MemberMap>): Record {
    Record(InlineLiteral, false, MergeOverloads(maps))
  }

  function Lookup(entries: SurfaceInventory, key: DeclarationKey): Option<Record> {
    if key in entries then Some(entries[key]) else None
  }

  function UsesAt(view: View, callable: CallableKey, parameter: string): seq<LiteralUse> {
    ForKey(Uses(SignaturesOf(view.surface, callable), KeyExisted(view.existing, callable)), parameter)
  }

  /** The inline entry under a key, from the overloads of its callable. */
  function EntryAt(view: View, key: DeclarationKey): Option<Record> {
    match key
    case OfDeclaration(_) => None
    case OfParameter(callable, parameter) =>
      var uses := UsesAt(view, callable, parameter);
      if uses == [] then None else Some(ParameterRecord(uses))
    case OfResult(callable) =>
      var maps := ResultMaps(SignaturesOf(view.surface, callable));
      if maps == [] then None else Some(ResultRecord(maps))
  }

  type UseGroups = map<string, seq<LiteralUse>>

  function UsesIn(groups: UseGroups, key: string): seq<LiteralUse> {
    if key in groups then groups[key] else []
  }

  lemma {:induction false} ForKeySum(a: seq<LiteralUse>, b: seq<LiteralUse>, key: string)
    ensures ForKey(a + b, key) == ForKey(a, key) + ForKey(b, key)
  {
    if b == [] {
      assert a + b == a;
    } else {
      var n := |b| - 1;
      assert (a + b)[..|a + b| - 1] == a + b[..n];
      ForKeySum(a, b[..n], key);
    }
  }

  /** The uses under `key` once those of one parameter list have been added. */
  function WithUses(before: UseGroups, params: seq<Param>, existed: bool, key: string): seq<LiteralUse> {
    UsesIn(before, key) + ForKey(UsesOf(params, existed), key)
  }

  lemma UsesExtend(before: UseGroups, params: seq<Param>, index: nat, existed: bool, key: string)
    requires index < |params|
    ensures WithUses(before, params[..index + 1], existed, key) ==
      WithUses(before, params[..index], existed, key) + ForKey(UseOf(params[index], index, existed), key)
  {
    assert params[..index + 1][..index] == params[..index];
    ForKeySum(UsesOf(params[..index], existed), UseOf(params[index], index, existed), key);
  }

  lemma OneUse(p: Param, index: nat, existed: bool, key: string)
    ensures ForKey(UseOf(p, index, existed), key) ==
      if ParameterKey(p, index) == key then UseOf(p, index, existed) else []
  {
    var uses := UseOf(p, index, existed);
    if uses != [] {
      assert uses[..0] == [];
    }
  }

  method PushUse(before: UseGroups, parameter: Param, index: nat, existed: bool) returns (groups: UseGroups)
    requires forall key :: key in before ==> before[key] != []
    ensures forall key :: key in groups ==> groups[key] != []
    ensures forall key :: UsesIn(groups, key) == UsesIn(before, key) + ForKey(UseOf(parameter, index, existed), key)
  {
    forall key { OneUse(parameter, index, existed, key); }
    groups := before;
    if parameter.annotation.None? {
      return;
    }
    var localMembers := ResolveLocalMembers(parameter.annotation.value);
    if localMembers == map[] {
      return;
    }
    var key := ParameterKey(parameter, index);
    var existing := if key in groups then groups[key] else [];
    groups := groups[key := existing + [LiteralUse(key, localMembers, existed && !parameter.optional)]];
  }

  method CollectParameterUses(before: UseGroups, params: seq<Param>, existed: bool) returns (groups: UseGroups)
    requires forall key :: key in before ==> before[key] != []
    ensures forall key :: UsesIn(groups, key) == WithUses(before, params, existed, key)
    ensures forall key :: key in groups ==> groups[key] != []
  {
    groups := before;
    for index := 0 to |params|
      invariant forall key :: UsesIn(groups, key) == WithUses(before, params[..index], existed, key)
      invariant forall key :: key in groups ==> groups[key] != []
    {
      ghost var previous := groups;
      groups := PushUse(groups, params[index], index, existed);
      forall key ensures UsesIn(groups, key) == WithUses(before, params[..index + 1], existed, key) {
        UsesExtend(before, params, index, existed, key);
        assert UsesIn(previous, key) == WithUses(before, params[..index], existed, key);
      }
    }
    assert params[..|params|] == params;
  }

  method CollectUses(overloads: seq<Signature>, existed: bool) returns (groups: UseGroups, results: seq<MemberMap>)
    ensures forall key :: UsesIn(groups, key) == ForKey(Uses(overloads, existed), key)
    ensures forall key :: key in groups ==> groups[key] != []
    ensures results == ResultMaps(overloads)
  {
    groups, results := map[], [];
    for i := 0 to |overloads|
      invariant forall key :: UsesIn(groups, key) == ForKey(Uses(overloads[..i], existed), key)
      invariant forall key :: key in groups ==> groups[key] != []
      invariant results == ResultMaps(overloads[..i])
    {
      assert overloads[..i + 1][..i] == overloads[..i];
      var overload := overloads[i];
      ghost var before := groups;
      groups := CollectParameterUses(groups, overload.params, existed);
      forall key ensures UsesIn(groups, key) == ForKey(Uses(overloads[..i + 1], existed), key) {
        ForKeySum(Uses(overloads[..i], existed), UsesOf(overload.params, existed), key);
        assert UsesIn(before, key) == ForKey(Uses(overloads[..i], existed), key);
      }
      if overload.result.Some? {
        var localMembers := ResolveLocalMembers(overload.result.value);
        if localMembers != map[] {
          results := results + [localMembers];
        }
      }
    }
    assert overloads[..|overloads|] == overloads;
  }

  predicate NonEmptyMaps(maps: seq<MemberMap>) {
    forall m | m in maps :: m != map[]
  }

  lemma MergedNotEmpty(maps: seq<MemberMap>)
    requires maps != [] && NonEmptyMaps(maps)
    ensures MergeOverloads(maps) != map[]
  {
    assert maps[0] in maps && maps[0] != map[];
    var k :| k in maps[0];
    assert k in MergeOverloads(maps);
  }

  lemma {:induction false} InForKey(uses: seq<LiteralUse>, key: string, u: LiteralUse)
    ensures u in ForKey(uses, key) <==> u in uses && u.key == key
    decreases |uses|
  {
    if uses != [] {
      var n := |uses| - 1;
      InForKey(uses[..n], key, u);
      assert uses == uses[..n] + [uses[n]];
    }
  }

  /** Overload `i` carries an inline literal at parameter `j`. */
  predicate CarriesLiteral(overloads: seq<Signature>, i: nat, j: nat) {
    i < |overloads| && j < |overloads[i].params| && overloads[i].params[j].annotation.Some? &&
    Resolve(overloads[i].params[j].annotation.value) != map[]
  }

  function UseAt(overloads: seq<Signature>, existed: bool, i: nat, j: nat): LiteralUse
    requires CarriesLiteral(overloads, i, j)
  {
    UseOf(overloads[i].params[j], j, existed)[0]
  }

  lemma {:induction false} ParameterSite(params: seq<Param>, existed: bool, u: LiteralUse) returns (j: nat)
    requires u in UsesOf(params, existed)
    ensures j < |params| && u in UseOf(params[j], j, existed)
    decreases |params|
  {
    j := |params| - 1;
    if u in UsesOf(params[..j], existed) {
      j := ParameterSite(params[..j], existed, u);
    }
  }

  lemma {:induction false} UseSite(overloads: seq<Signature>, existed: bool, u: LiteralUse) returns (i: nat, j: nat)
    requires u in Uses(overloads, existed)
    ensures CarriesLiteral(overloads, i, j) && u == UseAt(overloads, existed, i, j)
    decreases |overloads|
  {
    var n := |overloads| - 1;
    if u in Uses(overloads[..n], existed) {
      i, j := UseSite(overloads[..n], existed, u);
    } else {
      i := n;
      j := ParameterSite(overloads[n].params, existed, u);
    }
  }

  lemma {:induction false} UsesNotEmpty(overloads: seq<Signature>, existed: bool, key: string)
    ensures NonEmptyMaps(MapsOf(ForKey(Uses(overloads, existed), key)))
    ensures NonEmptyMaps(ResultMaps(overloads))
    decreases |overloads|
  {
    forall u | u in ForKey(Uses(overloads, existed), key) ensures u.members != map[] {
      InForKey(Uses(overloads, existed), key, u);
      var i, j := UseSite(overloads, existed, u);
    }
    var maps := MapsOf(ForKey(Uses(overloads, existed), key));
    forall m | m in maps ensures m != map[] {
      var i :| 0 <= i < |maps| && maps[i] == m;
      assert ForKey(Uses(overloads, existed), key)[i] in ForKey(Uses(overloads, existed), key);
    }
    if overloads != [] {
      UsesNotEmpty(overloads[..|overloads| - 1], existed, key);
    }
  }

  lemma {:induction false} ParameterUsed(params: seq<Param>, existed: bool, j: nat, u: LiteralUse)
    requires j < |params| && u in UseOf(params[j], j, existed)
    ensures u in UsesOf(params, existed)
    decreases |params|
  {
    var n := |params| - 1;
    if j == n {
      assert UseOf(params[n], n, existed) == UseOf(params[j], j, existed);
    } else {
      assert params[..n][j] == params[j];
      ParameterUsed(params[..n], existed, j, u);
    }
  }

  lemma {:induction false} SiteUsed(overloads: seq<Signature>, existed: bool, i: nat, j: nat)
    requires CarriesLiteral(overloads, i, j)
    ensures UseAt(overloads, existed, i, j) in Uses(overloads, existed)
    decreases |overloads|
  {
    var n, u := |overloads| - 1, UseAt(overloads, existed, i, j);
    if i == n {
      var params := overloads[n].params;
      assert overloads[i] == overloads[n] && u in UseOf(params[j], j, existed);
      ParameterUsed(params, existed, j, u);
    } else {
      var rest := overloads[..n];
      assert rest[i] == overloads[i];
      assert CarriesLiteral(rest, i, j) && UseAt(rest, existed, i, j) == u;
      SiteUsed(rest, existed, i, j);
    }
  }

  // ---------- the source's loops ----------

  /** The entry under `key` once the given parameter names of one callable have been added. */
  function WithParameters(before: SurfaceInventory, callable: CallableKey, groups: UseGroups, done: set<string>,
                          key: DeclarationKey): Option<Record>
    requires done <= groups.Keys
  {
    if key.OfParameter? && key.callable == callable && key.parameter in done
    then Some(ParameterRecord(groups[key.parameter])) else Lookup(before, key)
  }

  /** Nothing is recorded for an empty aggregate, which non-empty literals never give. */
  method AggregateUses(uses: seq<LiteralUse>) returns (record: Option<Record>)
    requires uses != [] && NonEmptyMaps(MapsOf(uses))
    ensures record == Some(ParameterRecord(uses))
  {
    var merged := MergeOverloadAggregate(MapsOf(uses));
    MergedNotEmpty(MapsOf(uses));
    if merged == map[] {
      return None;
    }
    record := Some(Record(InlineLiteral, exists u | u in uses :: u.mandatory, merged));
  }

  method AddParameterEntries(before: SurfaceInventory, callable: CallableKey,
                             groups: UseGroups)
    returns (entries: SurfaceInventory)
    requires forall k :: k in groups ==> groups[k] != [] && NonEmptyMaps(MapsOf(groups[k]))
    ensures forall key :: Lookup(entries, key) == WithParameters(before, callable, groups, groups.Keys, key)
  {
    entries := before;
    var pending := groups.Keys;
    while pending != {}
      invariant pending <= groups.Keys
      invariant forall key ::
        Lookup(entries, key) == WithParameters(before, callable, groups, groups.Keys - pending, key)
      decreases pending
    {
      var parameterName :| parameterName in pending;
      pending := pending - {parameterName};
      var record := AggregateUses(groups[parameterName]);
      ghost var previous := entries;
      if record.Some? {
        entries := entries[OfParameter(callable, parameterName) := record.value];
      }
      forall key ensures Lookup(entries, key) == WithParameters(before, callable, groups, groups.Keys - pending, key) {
        assert Lookup(previous, key) ==
          WithParameters(before, callable, groups, groups.Keys - pending - {parameterName}, key);
      }
    }
  }

  method AddResultEntry(before: SurfaceInventory, callable: CallableKey,
                        maps: seq<MemberMap>)
    returns (entries: SurfaceInventory)
    requires NonEmptyMaps(maps)
    ensures entries == if maps == [] then before else before[OfResult(callable) := ResultRecord(maps)]
  {
    entries := before;
    if |maps| > 0 {
      var merged := MergeOverloadAggregate(maps);
      MergedNotEmpty(maps);
      if merged != map[] {
        entries := entries[OfResult(callable) := Record(InlineLiteral, false, merged)];
      }
    }
  }

  predicate Concerns(key: DeclarationKey, callables: set<CallableKey>) {
    !key.OfDeclaration? && key.callable in callables
  }

  /** No entry of this callable has been made yet. */
  predicate Untouched(entries: SurfaceInventory, callable: CallableKey) {
    forall key | key in entries :: !Concerns(key, {callable})
  }

  lemma UsesDecide(view: View, before: SurfaceInventory, callable: CallableKey, uses: UseGroups, parameter: string)
    requires UsesIn(uses, parameter) == UsesAt(view, callable, parameter) &&
      (parameter in uses ==> uses[parameter] != [])
    requires Untouched(before, callable)
    ensures WithParameters(before, callable, uses, uses.Keys, OfParameter(callable, parameter)) ==
      EntryAt(view, OfParameter(callable, parameter))
  {
    assert Lookup(before, OfParameter(callable, parameter)) == None;
  }

  /** The entry under `key` once all entries of the given callables have been made. */
  function WithCallables(view: View, before: SurfaceInventory, callables: set<CallableKey>,
                         key: DeclarationKey): Option<Record> {
    if Concerns(key, callables) then EntryAt(view, key) else Lookup(before, key)
  }

  /** Both entries of one callable. */
  method AddCallable(view: View, before: SurfaceInventory, callable: CallableKey,
                     overloads: seq<Signature>)
    returns (entries: SurfaceInventory)
    requires overloads == SignaturesOf(view.surface, callable)
    requires Untouched(before, callable)
    ensures forall key :: Lookup(entries, key) == WithCallables(view, before, {callable}, key)
  {
    var existed := KeyExisted(view.existing, callable);
    var parameterUses, resultMaps := CollectUses(overloads, existed);
    UsesNotEmpty(overloads, existed, "");
    forall k | k in parameterUses ensures NonEmptyMaps(MapsOf(parameterUses[k])) {
      UsesNotEmpty(overloads, existed, k);
      assert UsesIn(parameterUses, k) == ForKey(Uses(overloads, existed), k);
    }
    entries := AddParameterEntries(before, callable, parameterUses);
    ghost var withParameters := entries;
    entries := AddResultEntry(entries, callable, resultMaps);
    forall key ensures Lookup(entries, key) == WithCallables(view, before, {callable}, key) {
      assert Lookup(withParameters, key) == WithParameters(before, callable, parameterUses, parameterUses.Keys, key);
      if key.OfParameter? && key.callable == callable {
        assert UsesIn(parameterUses, key.parameter) == ForKey(Uses(overloads, existed), key.parameter);
        UsesDecide(view, before, callable, parameterUses, key.parameter);
      } else if key == OfResult(callable) {
        assert Lookup(before, key) == None;
      }
    }
  }

  method CollectInlineLiteralEntries(view: View, groups: Groups) returns (entries: SurfaceInventory)
    requires forall c :: GroupAt(groups, c) == SignaturesOf(view.surface, c)
    ensures forall key :: Lookup(entries, key) == EntryAt(view, key)
  {
    entries := map[];
    var pending := groups.Keys;
    while pending != {}
      invariant pending <= groups.Keys
      invariant forall key :: Lookup(entries, key) == WithCallables(view, map[], groups.Keys - pending, key)
      decreases pending
    {
      var callable :| callable in pending;
      pending := pending - {callable};
      assert groups[callable] == GroupAt(groups, callable);
      forall key | key in entries ensures !Concerns(key, {callable}) {
        assert Lookup(entries, key) == WithCallables(view, map[], groups.Keys - pending - {callable}, key);
      }
      ghost var previous := entries;
      entries := AddCallable(view, entries, callable, groups[callable]);
      forall key ensures Lookup(entries, key) == WithCallables(view, map[], groups.Keys - pending, key) {
        assert Lookup(previous, key) == WithCallables(view, map[], groups.Keys - pending - {callable}, key);
      }
    }
    forall key ensures Lookup(entries, key) == EntryAt(view, key) {
      if !key.OfDeclaration? && key.callable !in groups {
        assert GroupAt(groups, key.callable) == [];
        assert SignaturesOf(view.surface, key.callable) == [];
      }
    }
  }

  // ---------- the inventory ----------

  function KindOf(d: Declaration): DeclarationKind {
    match d
    case Alias(_) => AliasKind
    case Interface(_) => InterfaceKind
    case Class(_) => ClassKind
  }

  /** What the inventory of a view must hold under a key. */
  ghost function RecordAt(view: View, key: DeclarationKey): Option<Record> {
    if key.OfDeclaration? then
      if key.name in view.surface.declarations then
        var d := view.surface.declarations[key.name];
        Some(Record(KindOf(d), HardContravariant(view, key.name), DeclarationMembers(d)))
      else None
    else EntryAt(view, key)
  }

  method ResolveDeclaration(d: Declaration) returns (members: MemberMap)
    ensures members == DeclarationMembers(d)
  {
    match d {
      case Alias(body) => members := ResolveLocalMembers(body);
      case Interface(elements) => members := CollectTypeElementMembers(elements, AsWritten);
      case Class(classMembers) => members := CollectClassMembers(classMembers);
    }
  }

  /** Fails when there is nothing to inventory, which the source takes for a changed format. */
  method BuildSurfaceInventory(view: View) returns (result: Option<SurfaceInventory>)
    ensures result.None? ==> forall key :: RecordAt(view, key) == None
    ensures result.Some? ==> result.value != map[] && forall key :: Lookup(result.value, key) == RecordAt(view, key)
  {
    var contravariantNames := ComputeContravariantNames(view);
    var named: SurfaceInventory := map[];
    var pending := view.surface.declarations.Keys;
    while pending != {}
      invariant pending <= view.surface.declarations.Keys
      invariant forall key: DeclarationKey ::
        key.OfDeclaration? && key.name !in pending ==> Lookup(named, key) == RecordAt(view, key)
      invariant forall key: DeclarationKey :: !key.OfDeclaration? || key.name in pending ==> Lookup(named, key) == None
      decreases pending
    {
      var name :| name in pending;
      pending := pending - {name};
      var d := view.surface.declarations[name];
      var members := ResolveDeclaration(d);
      named := named[OfDeclaration(name) := Record(KindOf(d), name in contravariantNames, members)];
    }
    var groups := CollectCallables(view.surface);
    var entries := CollectInlineLiteralEntries(view, groups);
    var inventory := named + entries;
    forall key ensures Lookup(inventory, key) == RecordAt(view, key) {
      assert Lookup(entries, key) == EntryAt(view, key);
      assert key.OfDeclaration? ==> Lookup(named, key) == RecordAt(view, key);
      assert !key.OfDeclaration? ==> Lookup(named, key) == None;
    }
    if inventory == map[] {
      return None;
    }
    return Some(inventory);
  }
}
