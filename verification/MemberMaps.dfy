/** Maps from a member path to "is optional", and the three ways the checker merges them. */
module MemberMaps {

  /** A member path such as `a.b`, kept as its list of names. */
  type Path = seq<string>

  /** From a path to whether it is optional. */
  type MemberMap = map<Path, bool>

  /** The keys a map marks required. */
  function Required(m: MemberMap): set<Path> {
    set k | k in m && !m[k]
  }

  predicate Declares(maps: seq<MemberMap>, k: Path) {
    exists m | m in maps :: k in m
  }

  /** Absence in a constituent counts as optional. */
  predicate OptionalInSome(maps: seq<MemberMap>, k: Path) {
    exists m | m in maps :: k !in m || m[k]
  }

  predicate OptionalInAll(maps: seq<MemberMap>, k: Path) {
    forall m | m in maps :: k in m ==> m[k]
  }

  /** Only the overloads that have the key vote. */
  predicate OptionalWhereDeclared(maps: seq<MemberMap>, k: Path) {
    exists m | m in maps :: k in m && m[k]
  }

  function KeysOf(maps: seq<MemberMap>): (keys: set<Path>)
    ensures forall k :: k in keys <==> Declares(maps, k)
  {
    set m, k | m in maps && k in m :: k
  }

  function MergeUnion(maps: seq<MemberMap>): MemberMap {
    map k | k in KeysOf(maps) :: OptionalInSome(maps, k)
  }

  function MergeIntersection(maps: seq<MemberMap>): MemberMap {
    map k | k in KeysOf(maps) :: OptionalInAll(maps, k)
  }

  function MergeOverloads(maps: seq<MemberMap>): MemberMap {
    map k | k in KeysOf(maps) :: OptionalWhereDeclared(maps, k)
  }

  // ---------- the source's loops ----------

  lemma OneMore(maps: seq<MemberMap>, i: nat, k: Path)
    requires i < |maps|
    ensures Declares(maps[..i + 1], k) <==> Declares(maps[..i], k) || k in maps[i]
    ensures OptionalInAll(maps[..i + 1], k) <==> OptionalInAll(maps[..i], k) && (k in maps[i] ==> maps[i][k])
  {
    assert maps[..i + 1] == maps[..i] + [maps[i]];
  }

  /** The key collection that opens both `mergeUnion` and `mergeOverloadAggregate`. */
  method CollectKeys(maps: seq<MemberMap>) returns (all: set<Path>)
    ensures all == KeysOf(maps)
  {
    all := {};
    for i := 0 to |maps|
      invariant all == KeysOf(maps[..i])
    {
      var pending := maps[i].Keys;
      while pending != {}
        invariant pending <= maps[i].Keys
        invariant all == KeysOf(maps[..i]) + (maps[i].Keys - pending)
        decreases pending
      {
        var key :| key in pending;
        all := all + {key};
        pending := pending - {key};
      }
      forall k ensures Declares(maps[..i + 1], k) <==> Declares(maps[..i], k) || k in maps[i] {
        OneMore(maps, i, k);
      }
    }
    assert maps[..|maps|] == maps;
  }

  method MergeUnionMaps(maps: seq<MemberMap>) returns (result: MemberMap)
    ensures result == MergeUnion(maps)
  {
    var all := CollectKeys(maps);
    result := map[];
    var pending := all;
    while pending != {}
      invariant pending <= all
      invariant result.Keys == all - pending
      invariant forall k :: k in result ==> result[k] == OptionalInSome(maps, k)
      decreases pending
    {
      var key :| key in pending;
      var optional := exists m | m in maps :: if key in m then m[key] else true;
      result := result[key := optional];
      pending := pending - {key};
    }
  }

  /** The inner loop of `mergeIntersection`: one constituent folded into the result so far. */
  method FoldIn(before: MemberMap, m: MemberMap) returns (result: MemberMap)
    ensures result.Keys == before.Keys + m.Keys
    ensures forall k :: k in result ==> result[k] == ((k in before ==> before[k]) && (k in m ==> m[k]))
  {
    result := before;
    var pending := m.Keys;
    while pending != {}
      invariant pending <= m.Keys
      invariant result.Keys == before.Keys + (m.Keys - pending)
      invariant forall k :: k in result && k in pending ==> k in before && result[k] == before[k]
      invariant forall k :: k in result && k !in pending ==>
        result[k] == ((k in before ==> before[k]) && (k in m ==> m[k]))
      decreases pending
    {
      var key :| key in pending;
      result := result[key := if key in result then result[key] && m[key] else m[key]];
      pending := pending - {key};
    }
  }

  method MergeIntersectionMaps(maps: seq<MemberMap>) returns (result: MemberMap)
    ensures result == MergeIntersection(maps)
  {
    result := map[];
    for i := 0 to |maps|
      invariant result.Keys == KeysOf(maps[..i])
      invariant forall k :: k in result ==> result[k] == OptionalInAll(maps[..i], k)
    {
      result := FoldIn(result, maps[i]);
      forall k ensures Declares(maps[..i + 1], k) <==> Declares(maps[..i], k) || k in maps[i]
               ensures OptionalInAll(maps[..i + 1], k) <==> OptionalInAll(maps[..i], k) && (k in maps[i] ==> maps[i][k])
      {
        OneMore(maps, i, k);
      }
      forall k | k in result
        ensures result[k] == OptionalInAll(maps[..i + 1], k)
      {
        if !Declares(maps[..i], k) {
          assert OptionalInAll(maps[..i], k);
        }
      }
    }
    assert maps[..|maps|] == maps;
  }

  method MergeOverloadAggregate(maps: seq<MemberMap>) returns (result: MemberMap)
    ensures result == MergeOverloads(maps)
  {
    var all := CollectKeys(maps);
    result := map[];
    var pending := all;
    while pending != {}
      invariant pending <= all
      invariant result.Keys == all - pending
      invariant forall k :: k in result ==> result[k] == OptionalWhereDeclared(maps, k)
      decreases pending
    {
      var key :| key in pending;
      var optional := exists m | m in maps :: key in m && m[key];
      result := result[key := optional];
      pending := pending - {key};
    }
  }

  // ---------- what the merges mean ----------

  /** Required sets: intersection unites them, union intersects them with absence voting
      against, overloads intersect them among the overloads that have the key. */
  lemma RequiredSets(maps: seq<MemberMap>, k: Path)
    ensures k in Required(MergeIntersection(maps)) <==> exists m :: m in maps && k in Required(m)
    ensures k in Required(MergeUnion(maps)) <==> maps != [] && forall m :: m in maps ==> k in Required(m)
    ensures k in Required(MergeOverloads(maps)) <==>
      (exists m :: m in maps && k in m) && forall m :: m in maps && k in m ==> k in Required(m)
  {
    if maps != [] && forall m :: m in maps ==> k in Required(m) {
      assert maps[0] in maps && k in maps[0];
    }
  }

  /** The union by position. */
  lemma RequiredInUnion(maps: seq<MemberMap>, k: Path)
    ensures k in Required(MergeUnion(maps)) <==> maps != [] && forall i :: 0 <= i < |maps| ==> k in Required(maps[i])
  {
    RequiredSets(maps, k);
    forall m | m in maps ensures exists i :: 0 <= i < |maps| && maps[i] == m {}
  }

  lemma RequiredInIntersection(maps: seq<MemberMap>, k: Path)
    ensures k in Required(MergeIntersection(maps)) <==> exists i :: 0 <= i < |maps| && k in Required(maps[i])
  {
    RequiredSets(maps, k);
    forall m | m in maps ensures exists i :: 0 <= i < |maps| && maps[i] == m {}
  }

  lemma EqualUnions(a: seq<MemberMap>, b: seq<MemberMap>)
    requires forall k :: Declares(a, k) <==> Declares(b, k)
    requires forall k :: OptionalInSome(a, k) <==> OptionalInSome(b, k)
    ensures MergeUnion(a) == MergeUnion(b)
  {
    assert KeysOf(a) == KeysOf(b);
  }

  lemma EqualIntersections(a: seq<MemberMap>, b: seq<MemberMap>)
    requires forall k :: Declares(a, k) <==> Declares(b, k)
    requires forall k :: OptionalInAll(a, k) <==> OptionalInAll(b, k)
    ensures MergeIntersection(a) == MergeIntersection(b)
  {
    assert KeysOf(a) == KeysOf(b);
  }

  lemma EqualOverloads(a: seq<MemberMap>, b: seq<MemberMap>)
    requires forall k :: Declares(a, k) <==> Declares(b, k)
    requires forall k :: OptionalWhereDeclared(a, k) <==> OptionalWhereDeclared(b, k)
    ensures MergeOverloads(a) == MergeOverloads(b)
  {
    assert KeysOf(a) == KeysOf(b);
  }

  lemma SameVotes(a: seq<MemberMap>, b: seq<MemberMap>, k: Path)
    requires forall m :: m in a <==> m in b
    ensures Declares(a, k) <==> Declares(b, k)
    ensures OptionalInSome(a, k) <==> OptionalInSome(b, k)
    ensures OptionalInAll(a, k) <==> OptionalInAll(b, k)
    ensures OptionalWhereDeclared(a, k) <==> OptionalWhereDeclared(b, k)
  {}

  /** None of the merges depends on the order of its operands. */
  lemma PermutationInvariant(a: seq<MemberMap>, b: seq<MemberMap>)
    requires multiset(a) == multiset(b)
    ensures MergeUnion(a) == MergeUnion(b)
    ensures MergeIntersection(a) == MergeIntersection(b)
    ensures MergeOverloads(a) == MergeOverloads(b)
  {
    forall m ensures m in a <==> m in b {
      assert m in a <==> m in multiset(a);
      assert m in b <==> m in multiset(b);
    }
    forall k { SameVotes(a, b, k); }
    EqualUnions(a, b);
    EqualIntersections(a, b);
    EqualOverloads(a, b);
  }

  function Concat<T>(groups: seq<seq<T>>): seq<T> {
    if groups == [] then [] else groups[0] + Concat(groups[1..])
  }

  function EachUnion(groups: seq<seq<MemberMap>>): seq<MemberMap> {
    if groups == [] then [] else [MergeUnion(groups[0])] + EachUnion(groups[1..])
  }

  function EachIntersection(groups: seq<seq<MemberMap>>): seq<MemberMap> {
    if groups == [] then [] else [MergeIntersection(groups[0])] + EachIntersection(groups[1..])
  }

  function EachOverloads(groups: seq<seq<MemberMap>>): seq<MemberMap> {
    if groups == [] then [] else [MergeOverloads(groups[0])] + EachOverloads(groups[1..])
  }

  lemma OverConcat(a: seq<MemberMap>, b: seq<MemberMap>, k: Path)
    ensures Declares(a + b, k) <==> Declares(a, k) || Declares(b, k)
    ensures OptionalInSome(a + b, k) <==> OptionalInSome(a, k) || OptionalInSome(b, k)
    ensures OptionalInAll(a + b, k) <==> OptionalInAll(a, k) && OptionalInAll(b, k)
    ensures OptionalWhereDeclared(a + b, k) <==> OptionalWhereDeclared(a, k) || OptionalWhereDeclared(b, k)
  {
    assert forall m :: m in a + b <==> m in a || m in b;
  }

  lemma OneMap(m: MemberMap, k: Path)
    ensures Declares([m], k) <==> k in m
    ensures OptionalInSome([m], k) <==> k !in m || m[k]
    ensures OptionalInAll([m], k) <==> (k in m ==> m[k])
    ensures OptionalWhereDeclared([m], k) <==> k in m && m[k]
  {
    assert m in [m];
  }

  lemma {:induction false} FlattenAt(groups: seq<seq<MemberMap>>, k: Path)
    ensures Declares(EachIntersection(groups), k) <==> Declares(Concat(groups), k)
    ensures OptionalInAll(EachIntersection(groups), k) <==> OptionalInAll(Concat(groups), k)
    ensures Declares(EachOverloads(groups), k) <==> Declares(Concat(groups), k)
    ensures OptionalWhereDeclared(EachOverloads(groups), k) <==> OptionalWhereDeclared(Concat(groups), k)
    ensures Declares(EachUnion(groups), k) <==> Declares(Concat(groups), k)
    ensures [] !in groups ==> (OptionalInSome(EachUnion(groups), k) <==> OptionalInSome(Concat(groups), k))
  {
    if groups != [] {
      var g, rest := groups[0], groups[1..];
      FlattenAt(rest, k);
      OverConcat(g, Concat(rest), k);
      OverConcat([MergeIntersection(g)], EachIntersection(rest), k);
      OverConcat([MergeOverloads(g)], EachOverloads(rest), k);
      OverConcat([MergeUnion(g)], EachUnion(rest), k);
      OneMap(MergeIntersection(g), k);
      OneMap(MergeOverloads(g), k);
      OneMap(MergeUnion(g), k);
      if [] !in groups {
        assert g in groups && g[0] in g;
        assert forall h :: h in rest ==> h in groups;
        assert !Declares(g, k) ==> OptionalInSome(g, k);
      }
    }
  }

  /** Flattening nested groups changes no result; for unions the groups must be non-empty,
      because an empty group merges to a map in which every key is absent. */
  lemma FlatteningInvariant(groups: seq<seq<MemberMap>>)
    ensures MergeIntersection(EachIntersection(groups)) == MergeIntersection(Concat(groups))
    ensures MergeOverloads(EachOverloads(groups)) == MergeOverloads(Concat(groups))
    ensures [] !in groups ==> MergeUnion(EachUnion(groups)) == MergeUnion(Concat(groups))
  {
    forall k { FlattenAt(groups, k); }
    EqualIntersections(EachIntersection(groups), Concat(groups));
    EqualOverloads(EachOverloads(groups), Concat(groups));
    if [] !in groups {
      EqualUnions(EachUnion(groups), Concat(groups));
    }
  }

  /** The non-emptiness is needed: a key every real constituent requires becomes optional. */
  lemma EmptyGroupWeakensUnion(k: Path)
    ensures var groups := [[map[k := false]], []];
            k in Required(MergeUnion(Concat(groups))) && k !in Required(MergeUnion(EachUnion(groups)))
  {
    var m: MemberMap := map[k := false];
    var none: seq<MemberMap> := [];
    var groups := [[m], none];
    var rest := groups[1..];
    assert rest == [none] && rest[1..] == [];
    assert Concat(rest) == none + Concat(rest[1..]) && Concat(groups) == [m] + Concat(rest);
    assert Concat(groups) == [m];
    assert EachUnion(rest) == [MergeUnion(none)] + EachUnion(rest[1..]);
    assert EachUnion(groups) == [MergeUnion([m])] + EachUnion(rest);
    assert MergeUnion(none) == map[] && EachUnion(groups)[1] == map[];
    OneMap(m, k);
    RequiredSets([m], k);
    assert k !in Required(EachUnion(groups)[1]);
    RequiredSets(EachUnion(groups), k);
  }
}
