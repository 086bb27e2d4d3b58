/** The module graph a reachability walk sees, and what it means to reach Drizzle. */
module ModuleGraph {
  import opened Syntax

  datatype EdgeKind = Static | Dynamic

  /** `Load` follows static edges only; `Deferred` follows both kinds. */
  datatype WalkMode = Load | Deferred

  datatype Grain = Source | Dist

  datatype Edge = Edge(specifier: string, kind: EdgeKind)

  /** The edges of every readable file in source order, and for each grain what a relative
      specifier in a file resolves to, if anything. */
  datatype Tree = Tree(
    edges: map<string, seq<Edge>>,
    source: map<(string, string), string>,
    dist: map<(string, string), string>)

  datatype Request = Request(entrypoint: string, root: string, grain: Grain, mode: WalkMode, severed: set<string>)

  datatype Hop = Hop(from: string, to: string, kind: EdgeKind)

  datatype Finding =
    | Clean(request: Request)
    | Dirty(request: Request, specifier: string, chain: seq<Hop>)

  predicate IsDrizzle(specifier: string) {
    "drizzle-orm" <= specifier || "drizzle-kit" <= specifier || "drizzle-" <= specifier || "@drizzle-team/" <= specifier
  }

  predicate IsRelative(specifier: string) {
    "." <= specifier
  }

  function Resolve(tree: Tree, grain: Grain, file: string, specifier: string): Option<string> {
    var table := if grain.Source? then tree.source else tree.dist;
    if (file, specifier) in table then Some(table[(file, specifier)]) else None
  }

  /** Resolution only ever lands on a file that exists. */
  predicate WellFormed(tree: Tree) {
    (forall k | k in tree.source :: tree.source[k] in tree.edges) &&
    (forall k | k in tree.dist :: tree.dist[k] in tree.edges)
  }

  predicate Answerable(tree: Tree, request: Request) {
    WellFormed(tree) && request.root in tree.edges
  }

  const DRIZZLE_BACKEND := "src/backend/drizzle/"

  /** Whether severing a file drops this edge of it. */
  predicate Severs(tree: Tree, file: string, e: Edge) {
    IsDrizzle(e.specifier) ||
    (IsRelative(e.specifier) &&
     var target := Resolve(tree, Source, file, e.specifier);
     target.Some? && DRIZZLE_BACKEND <= target.value)
  }

  /** Whether a walk follows this edge of `file`. */
  predicate Follows(tree: Tree, request: Request, file: string, e: Edge) {
    file in tree.edges && e in tree.edges[file] &&
    !(request.grain.Source? && file in request.severed && Severs(tree, file, e)) &&
    !(request.mode.Load? && e.kind.Dynamic?)
  }

  /** A hop from a file to the file one of its followed edges resolves to. */
  ghost predicate Link(tree: Tree, request: Request, h: Hop) {
    exists e :: Follows(tree, request, h.from, e) && e.kind == h.kind && IsRelative(e.specifier) &&
                Resolve(tree, request.grain, h.from, e.specifier) == Some(h.to)
  }

  /** A hop from a file to a Drizzle specifier among its followed edges. */
  predicate Hit(tree: Tree, request: Request, h: Hop) {
    Follows(tree, request, h.from, Edge(h.to, h.kind)) && IsDrizzle(h.to)
  }

  /** A stretch of hops from `start` that ends in a Drizzle hit. */
  ghost predicate ChainFrom(tree: Tree, request: Request, start: string, chain: seq<Hop>) {
    chain != [] && chain[0].from == start &&
    (forall i :: 0 <= i < |chain| - 1 ==> Link(tree, request, chain[i]) && chain[i].to == chain[i + 1].from) &&
    Hit(tree, request, chain[|chain| - 1])
  }

  /** A replayable chain from the root to a Drizzle specifier. */
  ghost predicate DrizzleChain(tree: Tree, request: Request, chain: seq<Hop>) {
    ChainFrom(tree, request, request.root, chain)
  }

  ghost predicate ReachesDrizzle(tree: Tree, request: Request) {
    exists chain :: DrizzleChain(tree, request, chain)
  }

  ghost predicate Shortest(tree: Tree, request: Request, chain: seq<Hop>) {
    DrizzleChain(tree, request, chain) &&
    forall other :: DrizzleChain(tree, request, other) ==> |chain| <= |other|
  }

  // ---------- mode ----------

  predicate AllStatic(chain: seq<Hop>) {
    forall h | h in chain :: h.kind.Static?
  }

  /** A chain serves `Load` exactly if it serves `Deferred` and every hop of it is static. */
  lemma LoadChainIff(tree: Tree, request: Request, chain: seq<Hop>)
    ensures DrizzleChain(tree, request.(mode := Load), chain) <==>
      DrizzleChain(tree, request.(mode := Deferred), chain) && AllStatic(chain)
  {
    var load, deferred := request.(mode := Load), request.(mode := Deferred);
    forall f, e ensures Follows(tree, load, f, e) <==> Follows(tree, deferred, f, e) && e.kind.Static? {}
    forall h ensures Link(tree, load, h) <==> Link(tree, deferred, h) && h.kind.Static? {}
    if DrizzleChain(tree, load, chain) {
      forall h | h in chain ensures h.kind.Static? {
        var i :| 0 <= i < |chain| && chain[i] == h;
        assert i < |chain| - 1 ==> Link(tree, load, chain[i]);
      }
    }
    if AllStatic(chain) {
      forall i | 0 <= i < |chain| ensures chain[i].kind.Static? {
        assert chain[i] in chain;
      }
    }
  }

  // ---------- severance ----------

  /** Severing more leaves fewer chains. */
  lemma SeveringMoreKeepsChain(tree: Tree, request: Request, more: set<string>, chain: seq<Hop>)
    requires request.severed <= more
    requires DrizzleChain(tree, request.(severed := more), chain)
    ensures DrizzleChain(tree, request, chain)
  {
    var stricter := request.(severed := more);
    forall f, e | Follows(tree, stricter, f, e) ensures Follows(tree, request, f, e) {}
    forall i | 0 <= i < |chain| - 1 ensures Link(tree, request, chain[i]) {
      assert Link(tree, stricter, chain[i]);
      var e :| Follows(tree, stricter, chain[i].from, e) && e.kind == chain[i].kind && IsRelative(e.specifier) &&
               Resolve(tree, request.grain, chain[i].from, e.specifier) == Some(chain[i].to);
      assert Follows(tree, request, chain[i].from, e);
    }
  }
}
