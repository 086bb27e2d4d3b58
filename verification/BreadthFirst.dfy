/** The breadth-first search as a function of the tree and the request alone, and the proof
    that it is correct and that its chain is the shortest there is. */
module BreadthFirst {
  import opened Syntax
  import opened ModuleGraph

  datatype Parent = Parent(from: string, kind: EdgeKind)

  /** `depth` is not in the source: it records how far from the root a file was found. */
  datatype Search =
    Search(queue: seq<string>, visited: set<string>, parent: map<string, Parent>, depth: map<string, nat>)

  datatype Scan = Found(edge: Edge, search: Search) | Scanned(search: Search)

  /** What the search needs to keep going at all. */
  ghost predicate Tame(tree: Tree, s: Search) {
    s.visited == s.depth.Keys && s.visited <= tree.edges.Keys && (forall f :: f in s.queue ==> f in s.visited) &&
    forall f {:trigger s.parent[f]} ::
      f in s.parent ==> f in s.visited && s.parent[f].from in s.visited && s.depth[s.parent[f].from] < s.depth[f]
  }

  /** The edges a severed file keeps, in order. */
  function ApplySeverance(tree: Tree, file: string, edges: seq<Edge>): seq<Edge> {
    if edges == [] then []
    else (if Severs(tree, file, edges[0]) then [] else [edges[0]]) + ApplySeverance(tree, file, edges[1..])
  }

  function EdgesFor(tree: Tree, request: Request, file: string): seq<Edge>
    requires file in tree.edges
  {
    if request.grain.Source? && file in request.severed then ApplySeverance(tree, file, tree.edges[file])
    else tree.edges[file]
  }

  function Enqueue(s: Search, current: string, target: string, kind: EdgeKind): Search
    requires current in s.depth
  {
    Search(s.queue + [target], s.visited + {target},
           s.parent[target := Parent(current, kind)], s.depth[target := s.depth[current] + 1])
  }

  predicate Skipped(request: Request, e: Edge) {
    request.mode.Load? && e.kind.Dynamic?
  }

  /** The effect of one edge that is not a followed Drizzle specifier. */
  function ScanEdge(tree: Tree, request: Request, current: string, e: Edge, s: Search): (t: Search)
    requires WellFormed(tree) && Tame(tree, s) && current in s.visited
    ensures Tame(tree, t) && s.visited <= t.visited
    ensures t.visited == s.visited ==> t.queue == s.queue
  {
    if Skipped(request, e) || !IsRelative(e.specifier) then s
    else
      var resolved := Resolve(tree, request.grain, current, e.specifier);
      if resolved.Some? && resolved.value !in s.visited then Enqueue(s, current, resolved.value, e.kind) else s
  }

  /** The loop over the edges of one file. */
  function ScanEdges(tree: Tree, request: Request, current: string, edges: seq<Edge>, s: Search): (r: Scan)
    requires WellFormed(tree) && Tame(tree, s) && current in s.visited
    ensures Tame(tree, r.search) && s.visited <= r.search.visited && current in r.search.visited
    ensures r.search.visited == s.visited ==> r.search.queue == s.queue
    decreases edges
  {
    if edges == [] then Scanned(s)
    else if !Skipped(request, edges[0]) && IsDrizzle(edges[0].specifier) then Found(edges[0], s)
    else ScanEdges(tree, request, current, edges[1..], ScanEdge(tree, request, current, edges[0], s))
  }

  /** Follows the parent entries back to the root, putting each hop in front. */
  function BuildChain(tree: Tree, s: Search, root: string, current: string, suffix: seq<Hop>): seq<Hop>
    requires Tame(tree, s) && current in s.visited
    decreases s.depth[current]
  {
    if current == root || current !in s.parent then suffix
    else
      var entry := s.parent[current];
      BuildChain(tree, s, root, entry.from, [Hop(entry.from, current, entry.kind)] + suffix)
  }

  function FindingAt(tree: Tree, request: Request, current: string, e: Edge, s: Search): Finding
    requires Tame(tree, s) && current in s.visited
  {
    Dirty(request, e.specifier, BuildChain(tree, s, request.root, current, [Hop(current, e.specifier, e.kind)]))
  }

  /** The loop over the queue. */
  function Run(tree: Tree, request: Request, s: Search): Finding
    requires WellFormed(tree) && Tame(tree, s)
    decreases tree.edges.Keys - s.visited, |s.queue|, 0
  {
    if s.queue == [] then Clean(request)
    else
      var current := s.queue[0];
      Resume(tree, request, current, EdgesFor(tree, request, current), s.(queue := s.queue[1..]))
  }

  /** The rest of a walk that still has `edges` of `current` to scan. */
  function Resume(tree: Tree, request: Request, current: string, edges: seq<Edge>, s: Search): Finding
    requires WellFormed(tree) && Tame(tree, s) && current in s.visited
    decreases tree.edges.Keys - s.visited, |s.queue|, 1
  {
    match ScanEdges(tree, request, current, edges, s)
    case Found(e, found) => FindingAt(tree, request, current, e, found)
    case Scanned(next) => Run(tree, request, next)
  }

  function Start(request: Request): Search {
    Search([request.root], {request.root}, map[], map[request.root := 0])
  }

  /** A walk that starts with nothing cached. */
  function ColdWalk(tree: Tree, request: Request): Finding
    requires Answerable(tree, request)
  {
    Run(tree, request, Start(request))
  }

  // ---------- correctness ----------

  lemma {:induction false} SeveranceFilter(tree: Tree, file: string, edges: seq<Edge>, e: Edge)
    ensures e in ApplySeverance(tree, file, edges) <==> e in edges && !Severs(tree, file, e)
  {
    if edges != [] {
      SeveranceFilter(tree, file, edges[1..], e);
    }
  }

  lemma EdgesForFollows(tree: Tree, request: Request, file: string, e: Edge)
    requires file in tree.edges
    ensures Follows(tree, request, file, e) <==>
      e in EdgesFor(tree, request, file) && !Skipped(request, e)
  {
    SeveranceFilter(tree, file, tree.edges[file], e);
  }

  /** An edge whose target, if it has one, was found no later than one step below `depth`. */
  predicate EdgeDone(tree: Tree, request: Request, file: string, e: Edge, s: Search, depth: nat) {
    Skipped(request, e) ||
    (!IsDrizzle(e.specifier) &&
     (IsRelative(e.specifier) ==>
        var target := Resolve(tree, request.grain, file, e.specifier);
        target.Some? ==> target.value in s.depth && s.depth[target.value] <= depth + 1))
  }

  /** A file that was taken off the queue and scanned without a hit. */
  ghost predicate Settled(tree: Tree, request: Request, file: string, s: Search) {
    file in s.depth && file in tree.edges &&
    forall e :: e in EdgesFor(tree, request, file) ==> EdgeDone(tree, request, file, e, s, s.depth[file])
  }

  /** Parent entries lead back to the root one level at a time. */
  ghost predicate OneLevelUp(s: Search, root: string) {
    root in s.depth && s.depth[root] == 0 && root !in s.parent &&
    (forall f :: f in s.depth && f != root ==> f in s.parent) &&
    forall f {:trigger s.parent[f]} :: f in s.parent ==>
      f in s.depth && s.parent[f].from in s.depth && s.depth[f] == s.depth[s.parent[f].from] + 1
  }

  /** And they do so along followed links. */
  ghost predicate Rooted(tree: Tree, request: Request, s: Search) {
    OneLevelUp(s, request.root) &&
    forall f {:trigger s.parent[f]} :: f in s.parent ==> Link(tree, request, Hop(s.parent[f].from, f, s.parent[f].kind))
  }

  /** The queue holds two levels at most, in order; nothing visited lies deeper. */
  ghost predicate Levelled(s: Search, level: nat) {
    (forall f :: f in s.queue ==> f in s.depth && s.depth[f] >= level) &&
    (forall i, j :: 0 <= i < j < |s.queue| && s.queue[i] in s.depth && s.queue[j] in s.depth ==>
      s.depth[s.queue[i]] <= s.depth[s.queue[j]]) &&
    forall f :: f in s.depth ==> s.depth[f] <= level + 1
  }

  ghost predicate OthersSettled(tree: Tree, request: Request, s: Search, current: set<string>) {
    forall f :: f in s.depth && f !in s.queue && f !in current ==> Settled(tree, request, f, s)
  }

  /** What holds whenever a search is about to look at its queue. */
  ghost predicate Consistent(tree: Tree, request: Request, s: Search, level: nat, current: set<string>) {
    Tame(tree, s) && Rooted(tree, request, s) && Levelled(s, level) && OthersSettled(tree, request, s, current)
  }

  /** The search may gain files but keeps the depths it has. */
  ghost predicate DepthsKept(before: Search, after: Search) {
    forall f :: f in before.depth ==> f in after.depth && after.depth[f] == before.depth[f]
  }

  lemma SettledKept(tree: Tree, request: Request, f: string, before: Search, after: Search)
    requires Settled(tree, request, f, before) && DepthsKept(before, after)
    ensures Settled(tree, request, f, after)
  {}

  lemma EnqueueRooted(tree: Tree, request: Request, current: string, target: string, kind: EdgeKind, s: Search)
    requires current in s.depth && target !in s.depth && Rooted(tree, request, s)
    requires Link(tree, request, Hop(current, target, kind))
    ensures Rooted(tree, request, Enqueue(s, current, target, kind))
  {}

  lemma EnqueueLevelled(current: string, target: string, kind: EdgeKind, s: Search)
    requires current in s.depth && target !in s.depth && Levelled(s, s.depth[current])
    ensures Levelled(Enqueue(s, current, target, kind), s.depth[current])
  {
    var t := Enqueue(s, current, target, kind);
    forall i, j | 0 <= i < j < |t.queue|
      ensures t.queue[i] in t.depth && t.queue[j] in t.depth && t.depth[t.queue[i]] <= t.depth[t.queue[j]]
    {
      assert t.queue[i] in s.queue;
      assert j < |s.queue| ==> t.queue[j] == s.queue[j];
    }
  }

  lemma EnqueueSettled(tree: Tree, request: Request, current: string, target: string, kind: EdgeKind, s: Search)
    requires current in s.depth && target !in s.depth && OthersSettled(tree, request, s, {current})
    ensures OthersSettled(tree, request, Enqueue(s, current, target, kind), {current})
  {
    var t := Enqueue(s, current, target, kind);
    assert DepthsKept(s, t);
    forall f | f in t.depth && f !in t.queue && f !in {current} ensures Settled(tree, request, f, t) {
      assert target in t.queue;
      assert f in s.queue ==> f in t.queue;
      SettledKept(tree, request, f, s, t);
    }
  }

  lemma EnqueueTame(tree: Tree, current: string, target: string, kind: EdgeKind, s: Search)
    requires current in s.depth && target !in s.depth && target in tree.edges && Tame(tree, s)
    ensures Tame(tree, Enqueue(s, current, target, kind))
  {}

  lemma EnqueueConsistent(tree: Tree, request: Request, current: string, e: Edge, target: string, s: Search)
    requires WellFormed(tree) && current in s.depth && Consistent(tree, request, s, s.depth[current], {current})
    requires Follows(tree, request, current, e) && IsRelative(e.specifier)
    requires Resolve(tree, request.grain, current, e.specifier) == Some(target) && target !in s.depth
    ensures Consistent(tree, request, Enqueue(s, current, target, e.kind), s.depth[current], {current})
  {
    assert Link(tree, request, Hop(current, target, e.kind));
    EnqueueTame(tree, current, target, e.kind, s);
    EnqueueRooted(tree, request, current, target, e.kind, s);
    EnqueueLevelled(current, target, e.kind, s);
    EnqueueSettled(tree, request, current, target, e.kind, s);
  }

  lemma ScanEdgeConsistent(tree: Tree, request: Request, current: string, e: Edge, s: Search)
    requires WellFormed(tree) && current in s.depth && Consistent(tree, request, s, s.depth[current], {current})
    requires e in EdgesFor(tree, request, current) && (Skipped(request, e) || !IsDrizzle(e.specifier))
    ensures var t := ScanEdge(tree, request, current, e, s);
            Consistent(tree, request, t, s.depth[current], {current}) && DepthsKept(s, t) &&
            EdgeDone(tree, request, current, e, t, s.depth[current])
  {
    EdgesForFollows(tree, request, current, e);
    var resolved := Resolve(tree, request.grain, current, e.specifier);
    if !Skipped(request, e) && IsRelative(e.specifier) && resolved.Some? && resolved.value !in s.visited {
      EnqueueConsistent(tree, request, current, e, resolved.value, s);
    }
  }

  /** Scanning keeps the search consistent; either it finds a Drizzle specifier among the
      followed edges, or every edge it saw is done with. */
  lemma {:induction false} ScanConsistent(tree: Tree, request: Request, current: string, edges: seq<Edge>, s: Search)
    requires WellFormed(tree) && current in s.depth && Consistent(tree, request, s, s.depth[current], {current})
    requires forall e :: e in edges ==> e in EdgesFor(tree, request, current)
    ensures var r := ScanEdges(tree, request, current, edges, s);
            Consistent(tree, request, r.search, s.depth[current], {current}) && DepthsKept(s, r.search) &&
            (r.Found? ==> Follows(tree, request, current, r.edge) && IsDrizzle(r.edge.specifier)) &&
            (r.Scanned? ==> forall e :: e in edges ==> EdgeDone(tree, request, current, e, r.search, s.depth[current]))
    decreases edges
  {
    if edges == [] {
      return;
    }
    var e, rest := edges[0], edges[1..];
    assert forall x :: x in edges <==> x == e || x in rest;
    EdgesForFollows(tree, request, current, e);
    if Skipped(request, e) || !IsDrizzle(e.specifier) {
      ScanEdgeConsistent(tree, request, current, e, s);
      ScanConsistent(tree, request, current, rest, ScanEdge(tree, request, current, e, s));
    }
  }

  // ---------- the lower bound ----------

  /** While everything nearer than `level` is settled, the first `level` hops of any chain stay
      within what was found, at most one level per hop. */
  lemma {:induction false} ChainStaysShallow(tree: Tree, request: Request, s: Search, level: nat, chain: seq<Hop>,
                                             i: nat)
    requires Rooted(tree, request, s) && DrizzleChain(tree, request, chain)
    requires forall f :: f in s.depth && s.depth[f] < level ==> Settled(tree, request, f, s)
    requires i < |chain| && i <= level
    ensures chain[i].from in s.depth && s.depth[chain[i].from] <= i
  {
    if i > 0 {
      ChainStaysShallow(tree, request, s, level, chain, i - 1);
      var h := chain[i - 1];
      assert Link(tree, request, h) && h.to == chain[i - 1 + 1].from;
      var e :| Follows(tree, request, h.from, e) && e.kind == h.kind && IsRelative(e.specifier) &&
               Resolve(tree, request.grain, h.from, e.specifier) == Some(h.to);
      assert Settled(tree, request, h.from, s);
      EdgesForFollows(tree, request, h.from, e);
    }
  }

  /** Then every chain has more than `level` hops. */
  lemma NoShorterChain(tree: Tree, request: Request, s: Search, level: nat, chain: seq<Hop>)
    requires Rooted(tree, request, s) && DrizzleChain(tree, request, chain)
    requires forall f :: f in s.depth && s.depth[f] < level ==> Settled(tree, request, f, s)
    ensures level < |chain|
  {
    if |chain| <= level {
      var last := chain[|chain| - 1];
      ChainStaysShallow(tree, request, s, level, chain, |chain| - 1);
      assert Settled(tree, request, last.from, s);
      EdgesForFollows(tree, request, last.from, Edge(last.to, last.kind));
      assert false;
    }
  }

  // ---------- the chain that is reported ----------

  lemma ChainInFront(tree: Tree, request: Request, h: Hop, chain: seq<Hop>)
    requires Link(tree, request, h) && ChainFrom(tree, request, h.to, chain)
    ensures ChainFrom(tree, request, h.from, [h] + chain)
  {
    var longer := [h] + chain;
    forall i | 0 <= i < |longer| - 1
      ensures Link(tree, request, longer[i]) && longer[i].to == longer[i + 1].from
    {
      if i > 0 {
        assert longer[i] == chain[i - 1] && longer[i + 1] == chain[i];
        assert Link(tree, request, chain[i - 1]) && chain[i - 1].to == chain[i - 1 + 1].from;
      }
    }
  }

  /** The rebuilt chain is replayable from the root, one hop per level; the missing-parent exit
      is never taken before the root. */
  lemma {:induction false} BuiltChain(tree: Tree, request: Request, s: Search, current: string, suffix: seq<Hop>)
    requires Tame(tree, s) && Rooted(tree, request, s) && current in s.visited
    requires ChainFrom(tree, request, current, suffix)
    ensures DrizzleChain(tree, request, BuildChain(tree, s, request.root, current, suffix))
    decreases s.depth[current]
  {
    if current != request.root {
      var entry := s.parent[current];
      var h := Hop(entry.from, current, entry.kind);
      ChainInFront(tree, request, h, suffix);
      BuiltChain(tree, request, s, entry.from, [h] + suffix);
    }
  }

  lemma {:induction false} BuiltLength(tree: Tree, s: Search, root: string, current: string, suffix: seq<Hop>)
    requires Tame(tree, s) && OneLevelUp(s, root) && current in s.visited && suffix != []
    ensures var chain := BuildChain(tree, s, root, current, suffix);
            |chain| == |suffix| + s.depth[current] && chain[|chain| - 1] == suffix[|suffix| - 1]
    decreases s.depth[current]
  {
    if current != root {
      var entry := s.parent[current];
      BuiltLength(tree, s, root, entry.from, [Hop(entry.from, current, entry.kind)] + suffix);
    }
  }

  // ---------- the theorem ----------

  /** The verdict is dirty exactly when Drizzle is reached, and then by a shortest chain that
      ends in the reported specifier. */
  ghost predicate Correct(tree: Tree, request: Request, finding: Finding) {
    finding.request == request &&
    match finding
    case Clean(_) => !ReachesDrizzle(tree, request)
    case Dirty(_, specifier, chain) => Shortest(tree, request, chain) && chain[|chain| - 1].to == specifier
  }

  lemma NearerSettled(tree: Tree, request: Request, s: Search, current: string)
    requires current in s.depth && Levelled(s, s.depth[current]) && OthersSettled(tree, request, s, {current})
    ensures forall f :: f in s.depth && s.depth[f] < s.depth[current] ==> Settled(tree, request, f, s)
  {}

  lemma FoundIsCorrect(tree: Tree, request: Request, current: string, e: Edge, s: Search)
    requires current in s.depth && Consistent(tree, request, s, s.depth[current], {current})
    requires Follows(tree, request, current, e) && IsDrizzle(e.specifier)
    ensures Correct(tree, request, FindingAt(tree, request, current, e, s))
  {
    var hit := [Hop(current, e.specifier, e.kind)];
    assert ChainFrom(tree, request, current, hit);
    BuiltChain(tree, request, s, current, hit);
    BuiltLength(tree, s, request.root, current, hit);
    forall other | DrizzleChain(tree, request, other) ensures 1 + s.depth[current] <= |other| {
      NearerSettled(tree, request, s, current);
      NoShorterChain(tree, request, s, s.depth[current], other);
    }
  }

  lemma NothingLeft(tree: Tree, request: Request, s: Search)
    requires Rooted(tree, request, s) && OthersSettled(tree, request, s, {}) && s.queue == []
    ensures !ReachesDrizzle(tree, request)
  {
    forall chain ensures !DrizzleChain(tree, request, chain) {
      if DrizzleChain(tree, request, chain) {
        NoShorterChain(tree, request, s, |chain|, chain);
      }
    }
  }

  lemma PopConsistent(tree: Tree, request: Request, s: Search, level: nat)
    requires Consistent(tree, request, s, level, {}) && s.queue != []
    ensures Consistent(tree, request, s.(queue := s.queue[1..]), level, {s.queue[0]})
  {
    var current, popped := s.queue[0], s.(queue := s.queue[1..]);
    assert s.queue == [current] + popped.queue;
    forall f | f in popped.depth && f !in popped.queue && f !in {current} ensures Settled(tree, request, f, popped) {
      assert f !in s.queue;
      SettledKept(tree, request, f, s, popped);
    }
  }

  lemma AdvanceConsistent(tree: Tree, request: Request, s: Search, current: string, level: nat)
    requires current in s.depth && Consistent(tree, request, s, s.depth[current], {current})
    requires forall e :: e in EdgesFor(tree, request, current) ==>
      EdgeDone(tree, request, current, e, s, s.depth[current])
    requires level == if s.queue == [] then s.depth[current] else s.depth[s.queue[0]]
    ensures Consistent(tree, request, s, level, {})
  {
    assert Settled(tree, request, current, s);
    forall f | f in s.queue ensures s.depth[f] >= level {
      var i :| 0 <= i < |s.queue| && s.queue[i] == f;
      assert s.queue[0] in s.queue;
    }
  }

  lemma {:induction false} RunIsCorrect(tree: Tree, request: Request, s: Search, level: nat)
    requires WellFormed(tree) && Consistent(tree, request, s, level, {})
    requires s.queue != [] ==> s.depth[s.queue[0]] == level
    ensures Correct(tree, request, Run(tree, request, s))
    decreases tree.edges.Keys - s.visited, |s.queue|
  {
    if s.queue == [] {
      NothingLeft(tree, request, s);
      return;
    }
    var current := s.queue[0];
    var popped := s.(queue := s.queue[1..]);
    PopConsistent(tree, request, s, level);
    var edges := EdgesFor(tree, request, current);
    ScanConsistent(tree, request, current, edges, popped);
    match ScanEdges(tree, request, current, edges, popped)
    case Found(e, found) => FoundIsCorrect(tree, request, current, e, found);
    case Scanned(next) =>
      var nextLevel := if next.queue == [] then level else next.depth[next.queue[0]];
      AdvanceConsistent(tree, request, next, current, nextLevel);
      RunIsCorrect(tree, request, next, nextLevel);
  }

  lemma WalkIsCorrect(tree: Tree, request: Request)
    requires Answerable(tree, request)
    ensures Correct(tree, request, ColdWalk(tree, request))
  {
    RunIsCorrect(tree, request, Start(request), 0);
  }
}
