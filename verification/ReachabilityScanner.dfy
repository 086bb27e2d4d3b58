/** The scanner with its process-wide caches. Whatever the caches hold from earlier walks, a
    walk returns what a cold, cache-free walk returns. */
module ReachabilityScanner {
  import opened Syntax
  import opened ModuleGraph
  import opened BreadthFirst

  lemma ScanStep(tree: Tree, request: Request, current: string, edges: seq<Edge>, i: nat, s: Search)
    requires WellFormed(tree) && Tame(tree, s) && current in s.visited && i < |edges|
    ensures ScanEdges(tree, request, current, edges[i..], s) ==
      if !Skipped(request, edges[i]) && IsDrizzle(edges[i].specifier) then Found(edges[i], s)
      else ScanEdges(tree, request, current, edges[i + 1..], ScanEdge(tree, request, current, edges[i], s))
  {
    assert edges[i..][0] == edges[i] && edges[i..][1..] == edges[i + 1..];
  }

  /** One turn of the loop over the queue. */
  lemma RunStep(tree: Tree, request: Request, s: Search, popped: Search, edges: seq<Edge>, scan: Scan)
    requires WellFormed(tree) && Tame(tree, s) && s.queue != []
    requires popped == s.(queue := s.queue[1..]) && edges == EdgesFor(tree, request, s.queue[0])
    requires scan == ScanEdges(tree, request, s.queue[0], edges, popped)
    ensures Run(tree, request, s) ==
      match scan
      case Found(e, found) => FindingAt(tree, request, s.queue[0], e, found)
      case Scanned(next) => Run(tree, request, next)
    ensures Tame(tree, scan.search) && s.visited <= scan.search.visited
    ensures scan.search.visited == s.visited ==> scan.search.queue == popped.queue
  {}

  lemma SeveranceStep(tree: Tree, file: string, edges: seq<Edge>, i: nat)
    requires i < |edges|
    ensures ApplySeverance(tree, file, edges[..i + 1]) ==
      ApplySeverance(tree, file, edges[..i]) + if Severs(tree, file, edges[i]) then [] else [edges[i]]
    decreases i
  {
    var prefix := edges[..i + 1];
    if i > 0 {
      SeveranceStep(tree, file, edges[1..], i - 1);
      assert prefix[1..] == edges[1..][..i] && edges[..i][1..] == edges[1..][..i - 1];
    }
  }

  class Scanner {
    const tree: Tree
    var rawEdgeCache: map<string, seq<Edge>>
    var sourceCache: map<(string, string), Option<string>>
    var distCache: map<(string, string), Option<string>>

    /** Every cached answer is the answer the tree gives, failed resolutions included. */
    ghost predicate Valid()
      reads this
    {
      WellFormed(tree) &&
      (forall f :: f in rawEdgeCache ==> f in tree.edges && rawEdgeCache[f] == tree.edges[f]) &&
      (forall k: (string, string) :: k in sourceCache ==> sourceCache[k] == Resolve(tree, Source, k.0, k.1)) &&
      (forall k: (string, string) :: k in distCache ==> distCache[k] == Resolve(tree, Dist, k.0, k.1))
    }

    constructor (tree: Tree)
      requires WellFormed(tree)
      ensures Valid() && this.tree == tree
      ensures rawEdgeCache == map[] && sourceCache == map[] && distCache == map[]
    {
      this.tree := tree;
      rawEdgeCache, sourceCache, distCache := map[], map[], map[];
    }

    method RawEdgesFor(file: string) returns (edges: seq<Edge>)
      requires Valid() && file in tree.edges
      modifies this`rawEdgeCache
      ensures Valid() && edges == tree.edges[file]
      ensures rawEdgeCache == old(rawEdgeCache)[file := edges]
    {
      if file in rawEdgeCache {
        edges := rawEdgeCache[file];
        assert rawEdgeCache == rawEdgeCache[file := edges];
        return;
      }
      edges := tree.edges[file];
      rawEdgeCache := rawEdgeCache[file := edges];
    }

    method ResolveRelative(grain: Grain, file: string, specifier: string) returns (resolved: Option<string>)
      requires Valid()
      modifies this`sourceCache, this`distCache
      ensures Valid() && resolved == Resolve(tree, grain, file, specifier)
    {
      var key := (file, specifier);
      if grain.Source? {
        if key in sourceCache {
          return sourceCache[key];
        }
        resolved := Resolve(tree, Source, file, specifier);
        sourceCache := sourceCache[key := resolved];
      } else {
        if key in distCache {
          return distCache[key];
        }
        resolved := Resolve(tree, Dist, file, specifier);
        distCache := distCache[key := resolved];
      }
    }

    /** The filter of `applySeverance`; it resolves through the source cache. */
    method Sever(file: string, edges: seq<Edge>, severed: set<string>) returns (kept: seq<Edge>)
      requires Valid()
      modifies this`sourceCache, this`distCache
      ensures Valid() && kept == if file in severed then ApplySeverance(tree, file, edges) else edges
    {
      if file !in severed {
        return edges;
      }
      kept := [];
      for i := 0 to |edges|
        invariant Valid() && kept == ApplySeverance(tree, file, edges[..i])
      {
        SeveranceStep(tree, file, edges, i);
        var e := edges[i];
        if IsDrizzle(e.specifier) {
          continue;
        }
        if IsRelative(e.specifier) {
          var resolved := ResolveRelative(Source, file, e.specifier);
          if resolved.Some? && DRIZZLE_BACKEND <= resolved.value {
            continue;
          }
        }
        kept := kept + [e];
      }
      assert edges[..|edges|] == edges;
    }

    method CurrentEdges(request: Request, file: string) returns (edges: seq<Edge>)
      requires Valid() && file in tree.edges
      modifies this
      ensures Valid() && edges == EdgesFor(tree, request, file)
    {
      var cached := RawEdgesFor(file);
      if request.grain.Source? {
        edges := Sever(file, cached, request.severed);
      } else {
        edges := cached;
      }
    }

    /** The inner loop: the edges of one file, up to the first followed Drizzle specifier. */
    method ScanFile(request: Request, current: string, edges: seq<Edge>, ghost s: Search,
                    queue0: seq<string>, visited0: set<string>, parent0: map<string, Parent>)
      returns (hit: Option<Edge>, queue: seq<string>, visited: set<string>, parent: map<string, Parent>,
        ghost t: Search)
      requires Valid() && Tame(tree, s) && current in s.visited
      requires s.queue == queue0 && s.visited == visited0 && s.parent == parent0
      modifies this`sourceCache, this`distCache
      ensures Valid()
      ensures t.queue == queue && t.visited == visited && t.parent == parent
      ensures ScanEdges(tree, request, current, edges, s) == if hit.Some? then Found(hit.value, t) else Scanned(t)
    {
      queue, visited, parent, t := queue0, visited0, parent0, s;
      assert edges[0..] == edges;
      var i := 0;
      while i < |edges|
        invariant 0 <= i <= |edges| && Valid() && Tame(tree, t) && current in visited
        invariant t.queue == queue && t.visited == visited && t.parent == parent
        invariant ScanEdges(tree, request, current, edges[i..], t) == ScanEdges(tree, request, current, edges, s)
      {
        ScanStep(tree, request, current, edges, i, t);
        var e := edges[i];
        i := i + 1;
        if request.mode.Load? && e.kind.Dynamic? {
          continue;
        }
        if IsDrizzle(e.specifier) {
          hit := Some(e);
          return;
        }
        if !IsRelative(e.specifier) {
          continue;
        }
        var resolved := ResolveRelative(request.grain, current, e.specifier);
        if resolved.Some? && resolved.value !in visited {
          t := Enqueue(t, current, resolved.value, e.kind);
          visited := visited + {resolved.value};
          parent := parent[resolved.value := Parent(current, e.kind)];
          queue := queue + [resolved.value];
        }
      }
      assert edges[|edges|..] == [];
      hit := None;
    }

    /** `buildChain`. */
    method ChainTo(root: string, hitFile: string, last: Hop, parent: map<string, Parent>,
                   ghost s: Search)
      returns (chain: seq<Hop>)
      requires Tame(tree, s) && s.parent == parent && hitFile in s.visited
      ensures chain == BuildChain(tree, s, root, hitFile, [last])
    {
      chain := [last];
      var current := hitFile;
      while current != root
        invariant current in s.visited
        invariant BuildChain(tree, s, root, current, chain) == BuildChain(tree, s, root, hitFile, [last])
        decreases s.depth[current]
      {
        if current !in parent {
          break;
        }
        var entry := parent[current];
        chain := [Hop(entry.from, current, entry.kind)] + chain;
        current := entry.from;
      }
    }

    method Walk(request: Request) returns (finding: Finding)
      requires Valid() && request.root in tree.edges
      modifies this
      ensures Valid() && finding == ColdWalk(tree, request)
    {
      var visited, parent, queue := {request.root}, map[], [request.root];
      ghost var s := Start(request);
      while queue != []
        invariant Valid() && Tame(tree, s)
        invariant s.queue == queue && s.visited == visited && s.parent == parent
        invariant Run(tree, request, s) == ColdWalk(tree, request)
        decreases tree.edges.Keys - visited, |queue|
      {
        var current := queue[0];
        queue := queue[1..];
        var edges := CurrentEdges(request, current);
        ghost var before, popped := s, s.(queue := queue);
        var hit;
        hit, queue, visited, parent, s := ScanFile(request, current, edges, popped, queue, visited, parent);
        RunStep(tree, request, before, popped, edges, if hit.Some? then Found(hit.value, s) else Scanned(s));
        if hit.Some? {
          var chain := ChainTo(request.root, current, Hop(current, hit.value.specifier, hit.value.kind), parent, s);
          return Dirty(request, hit.value.specifier, chain);
        }
      }
      finding := Clean(request);
    }

    /** Any number of walks, with any mix of roots, grains, modes and severed modules, one after
        the other on the same caches. */
    method WalkAll(requests: seq<Request>) returns (findings: seq<Finding>)
      requires Valid() && forall r :: r in requests ==> r.root in tree.edges
      modifies this
      ensures Valid() && |findings| == |requests|
      ensures forall i :: 0 <= i < |requests| ==> findings[i] == ColdWalk(tree, requests[i])
    {
      findings := [];
      for i := 0 to |requests|
        invariant Valid() && |findings| == i
        invariant forall j :: 0 <= j < i ==> findings[j] == ColdWalk(tree, requests[j])
      {
        var finding := Walk(requests[i]);
        findings := findings + [finding];
      }
    }
  }

  /** One walk from scratch: the verdict is dirty exactly when Drizzle is reached, and the chain
      is then a shortest one. */
  method ScanRoot(tree: Tree, request: Request) returns (finding: Finding)
    requires Answerable(tree, request)
    ensures Correct(tree, request, finding)
  {
    var scanner := new Scanner(tree);
    finding := scanner.Walk(request);
    WalkIsCorrect(tree, request);
  }
}
