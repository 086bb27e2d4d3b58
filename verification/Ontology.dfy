/** The walk over custom meta-edges that gives a transitive relation its meaning. */
module Ontology {

  datatype MetaEdge = MetaEdge(name: string, transitive: bool)

  /** What an endpoint of a relation names; an IRI endpoint is its own name. */
  datatype Kind = Kind(name: string)

  datatype Relation = Relation(metaEdge: MetaEdge, from: Kind, to: Kind)

  /** One relation under the meta-edge of this name leads from `a` to `b`. */
  predicate Related(ontology: seq<Relation>, name: string, a: Kind, b: Kind) {
    exists r | r in ontology :: r.metaEdge.name == name && r.from == a && r.to == b
  }

  /** A path of one or more relations. */
  ghost predicate Path(ontology: seq<Relation>, name: string, kinds: seq<Kind>) {
    |kinds| >= 2 && forall i :: 0 <= i < |kinds| - 1 ==> Related(ontology, name, kinds[i], kinds[i + 1])
  }

  ghost predicate Reaches(ontology: seq<Relation>, name: string, a: Kind, b: Kind) {
    exists kinds :: Path(ontology, name, kinds) && kinds[0] == a && kinds[|kinds| - 1] == b
  }

  lemma OneStep(ontology: seq<Relation>, name: string, a: Kind, b: Kind)
    requires Related(ontology, name, a, b)
    ensures Reaches(ontology, name, a, b)
  {
    assert Path(ontology, name, [a, b]);
  }

  lemma OneMoreStep(ontology: seq<Relation>, name: string, a: Kind, b: Kind, c: Kind)
    requires Reaches(ontology, name, a, b) && Related(ontology, name, b, c)
    ensures Reaches(ontology, name, a, c)
  {
    var kinds :| Path(ontology, name, kinds) && kinds[0] == a && kinds[|kinds| - 1] == b;
    var longer := kinds + [c];
    forall i | 0 <= i < |longer| - 1 ensures Related(ontology, name, longer[i], longer[i + 1]) {
      if i < |kinds| - 1 {
        assert longer[i + 1] == kinds[i + 1];
      }
    }
    assert Path(ontology, name, longer);
  }

  /** A set that is closed under the relation is never left. */
  lemma {:induction false} NeverLeaves(ontology: seq<Relation>, name: string, closed: set<Kind>, kinds: seq<Kind>,
                                       i: nat)
    requires Path(ontology, name, kinds) && kinds[0] in closed && i < |kinds|
    requires forall a, b :: a in closed && Related(ontology, name, a, b) ==> b in closed
    ensures kinds[i] in closed
  {
    if i > 0 {
      NeverLeaves(ontology, name, closed, kinds, i - 1);
      assert Related(ontology, name, kinds[i - 1], kinds[i - 1 + 1]);
    }
  }

  function DirectPairs(ontology: seq<Relation>, name: string): (pairs: seq<(Kind, Kind)>)
    ensures forall a, b :: (a, b) in pairs <==> Related(ontology, name, a, b)
  {
    if ontology == [] then []
    else
      var r := ontology[0];
      (if r.metaEdge.name == name then [(r.from, r.to)] else []) + DirectPairs(ontology[1..], name)
  }

  function Targets(pairs: seq<(Kind, Kind)>): set<Kind> {
    set p | p in pairs :: p.1
  }

  /** Everything seen is the start or reachable from it. */
  ghost predicate Discovered(ontology: seq<Relation>, name: string, start: Kind, visited: set<Kind>) {
    start in visited && forall k :: k in visited && k != start ==> Reaches(ontology, name, start, k)
  }

  lemma Discover(ontology: seq<Relation>, name: string, start: Kind, visited: set<Kind>, current: Kind, to: Kind)
    requires Discovered(ontology, name, start, visited) && current in visited && Related(ontology, name, current, to)
    ensures Discovered(ontology, name, start, visited + {to})
  {
    if current == start {
      OneStep(ontology, name, start, to);
    } else {
      OneMoreStep(ontology, name, start, current, to);
    }
  }

  /** Everything one relation away from `done` has been seen. */
  ghost predicate Expanded(ontology: seq<Relation>, name: string, done: set<Kind>, visited: set<Kind>) {
    forall k, b :: k in done && Related(ontology, name, k, b) ==> b in visited
  }

  lemma ExpandOne(ontology: seq<Relation>, name: string, done: set<Kind>, visited: set<Kind>, current: Kind,
                  pairs: seq<(Kind, Kind)>)
    requires Expanded(ontology, name, done, visited) && pairs == DirectPairs(ontology, name)
    requires forall j :: 0 <= j < |pairs| && pairs[j].0 == current ==> pairs[j].1 in visited
    ensures Expanded(ontology, name, done + {current}, visited)
  {
    forall b | Related(ontology, name, current, b) ensures b in visited {
      assert (current, b) in pairs;
    }
  }

  lemma Exhausted(ontology: seq<Relation>, name: string, start: Kind, visited: set<Kind>, target: Kind)
    requires start in visited && Expanded(ontology, name, visited, visited) && target !in visited
    ensures !Reaches(ontology, name, start, target)
  {
    if kinds :| Path(ontology, name, kinds) && kinds[0] == start && kinds[|kinds| - 1] == target {
      NeverLeaves(ontology, name, visited, kinds, |kinds| - 1);
    }
  }

  /** What has been seen is either dealt with or waiting. */
  ghost predicate Frontier(visited: set<Kind>, done: set<Kind>, queue: seq<Kind>) {
    forall k :: k in visited <==> k in done || k in queue
  }

  lemma Dequeue(visited: set<Kind>, done: set<Kind>, queue: seq<Kind>)
    requires Frontier(visited, done, queue) && queue != []
    ensures Frontier(visited, done + {queue[0]}, queue[1..])
  {
    assert queue == [queue[0]] + queue[1..];
  }

  lemma Enqueue(visited: set<Kind>, done: set<Kind>, queue: seq<Kind>, k: Kind)
    requires Frontier(visited, done, queue)
    ensures Frontier(visited + {k}, done, queue + [k])
  {}

  /** One pass over the pairs for one kind: stops at the target, queues what is new. */
  method ScanPairs(ghost ontology: seq<Relation>, ghost name: string, directPairs: seq<(Kind, Kind)>,
                   ghost start: Kind, target: Kind,
                   current: Kind, seen: set<Kind>, waiting: seq<Kind>, ghost done: set<Kind>)
    returns (found: bool, visited: set<Kind>, queue: seq<Kind>)
    requires directPairs == DirectPairs(ontology, name)
    requires Discovered(ontology, name, start, seen) && Frontier(seen, done, waiting) && current in seen
    requires target !in seen || target == start
    ensures found ==> target != start && Reaches(ontology, name, start, target)
    ensures !found ==> target !in visited || target == start
    ensures !found ==> Discovered(ontology, name, start, visited) && Frontier(visited, done, queue)
    ensures seen <= visited <= seen + Targets(directPairs) && (visited == seen ==> queue == waiting)
    ensures !found ==> forall j :: 0 <= j < |directPairs| && directPairs[j].0 == current ==> directPairs[j].1 in visited
  {
    visited, queue := seen, waiting;
    for i := 0 to |directPairs|
      invariant Discovered(ontology, name, start, visited) && Frontier(visited, done, queue)
      invariant target !in visited || target == start
      invariant seen <= visited <= seen + Targets(directPairs) && (visited == seen ==> queue == waiting)
      invariant forall j :: 0 <= j < i && directPairs[j].0 == current ==> directPairs[j].1 in visited
    {
      var (from, to) := directPairs[i];
      if from != current || to in visited {
        continue;
      }
      assert (from, to) in directPairs && to in Targets(directPairs);
      Discover(ontology, name, start, visited, current, to);
      if to == target {
        return true, visited, queue;
      }
      Enqueue(visited, done, queue, to);
      visited := visited + {to};
      queue := queue + [to];
    }
    found := false;
  }

  /** For a transitive meta-edge and distinct kinds: is there a path? For equal kinds the
      transitive walk answers no, even on a cycle, because it starts out having seen the kind. */
  method RelatesVia(ontology: seq<Relation>, metaEdge: MetaEdge, fromKind: Kind, toKind: Kind) returns (related: bool)
    ensures !metaEdge.transitive ==>
      (related <==> exists r | r in ontology ::
        r.metaEdge.name == metaEdge.name && r.from == fromKind && r.to == toKind)
    ensures metaEdge.transitive ==>
      (related <==> fromKind != toKind && Reaches(ontology, metaEdge.name, fromKind, toKind))
  {
    var directPairs := DirectPairs(ontology, metaEdge.name);
    if !metaEdge.transitive {
      return (fromKind, toKind) in directPairs;
    }
    var visited, queue := {fromKind}, [fromKind];
    ghost var done := {};
    while queue != []
      invariant Discovered(ontology, metaEdge.name, fromKind, visited)
      invariant Frontier(visited, done, queue) && Expanded(ontology, metaEdge.name, done, visited)
      invariant toKind !in visited || toKind == fromKind
      decreases Targets(directPairs) + {fromKind} - visited, |queue|
    {
      Dequeue(visited, done, queue);
      var current := queue[0];
      queue := queue[1..];
      related, visited, queue := ScanPairs(ontology, metaEdge.name, directPairs, fromKind, toKind, current, visited,
        queue, done + {current});
      if related {
        return;
      }
      ExpandOne(ontology, metaEdge.name, done, visited, current, directPairs);
      done := done + {current};
    }
    assert done == visited;
    if toKind != fromKind {
      Exhausted(ontology, metaEdge.name, fromKind, visited, toKind);
    }
    related := false;
  }

  /** Relations under the meta-edge of this name that lead from `a` to `b`, each starting where the
      one before ends. */
  ghost predicate Trail(ontology: seq<Relation>, name: string, a: Kind, b: Kind, trail: seq<Relation>) {
    trail != [] && trail[0].from == a && trail[|trail| - 1].to == b &&
    (forall i :: 0 <= i < |trail| ==> trail[i] in ontology && trail[i].metaEdge.name == name) &&
    forall i :: 0 <= i < |trail| - 1 ==> trail[i].to == trail[i + 1].from
  }

  lemma {:induction false} PathOfTrail(ontology: seq<Relation>, name: string, a: Kind, b: Kind, trail: seq<Relation>)
    requires Trail(ontology, name, a, b, trail)
    ensures Reaches(ontology, name, a, b)
    decreases |trail|
  {
    var n := |trail| - 1;
    var last := trail[n];
    if n == 0 {
      OneStep(ontology, name, a, b);
    } else {
      PathOfTrail(ontology, name, a, last.from, trail[..n]);
      OneMoreStep(ontology, name, a, last.from, b);
    }
  }

  lemma {:induction false} TrailOfPath(ontology: seq<Relation>, name: string,
                                       kinds: seq<Kind>)
    returns (trail: seq<Relation>)
    requires Path(ontology, name, kinds)
    ensures Trail(ontology, name, kinds[0], kinds[|kinds| - 1], trail)
    decreases |kinds|
  {
    var n := |kinds| - 1;
    assert Related(ontology, name, kinds[n - 1], kinds[n - 1 + 1]);
    var r :| r in ontology && r.metaEdge.name == name && r.from == kinds[n - 1] && r.to == kinds[n];
    if n == 1 {
      trail := [r];
    } else {
      var shorter := kinds[..n];
      forall i | 0 <= i < |shorter| - 1 ensures Related(ontology, name, shorter[i], shorter[i + 1]) {
        assert Related(ontology, name, kinds[i], kinds[i + 1]);
      }
      var rest := TrailOfPath(ontology, name, shorter);
      trail := rest + [r];
    }
  }

  /** A path of kinds is a trail of relations, in the direction the relations are declared. */
  lemma ReachesIffTrail(ontology: seq<Relation>, name: string, a: Kind, b: Kind)
    ensures Reaches(ontology, name, a, b) <==> exists trail :: Trail(ontology, name, a, b, trail)
  {
    if Reaches(ontology, name, a, b) {
      var kinds :| Path(ontology, name, kinds) && kinds[0] == a && kinds[|kinds| - 1] == b;
      var trail := TrailOfPath(ontology, name, kinds);
    }
    if trail :| Trail(ontology, name, a, b, trail) {
      PathOfTrail(ontology, name, a, b, trail);
    }
  }

  /** On a cycle the walk's answer and reachability part: every kind on it reaches itself. */
  lemma CycleReachesItself(a: Kind, b: Kind, name: string)
    ensures var loop := [Relation(MetaEdge(name, true), a, b), Relation(MetaEdge(name, true), b, a)];
            Reaches(loop, name, a, a)
  {
    var loop := [Relation(MetaEdge(name, true), a, b), Relation(MetaEdge(name, true), b, a)];
    assert loop[0] in loop && loop[1] in loop;
    OneStep(loop, name, a, b);
    OneMoreStep(loop, name, a, b, a);
  }
}
