/** How verdicts and shortest chains move when the mode or the severed modules change. */
module ReachabilityLaws {
  import opened ModuleGraph
  import opened BreadthFirst

  /** Dirty under `a` forces dirty under `b`, by a chain that is no longer. */
  predicate NoLonger(a: Finding, b: Finding) {
    a.Dirty? ==> b.Dirty? && |b.chain| <= |a.chain|
  }

  lemma MoreChainsNoLonger(tree: Tree, a: Request, b: Request)
    requires Answerable(tree, a) && Answerable(tree, b)
    requires forall chain :: DrizzleChain(tree, a, chain) ==> DrizzleChain(tree, b, chain)
    ensures NoLonger(ColdWalk(tree, a), ColdWalk(tree, b))
  {
    WalkIsCorrect(tree, a);
    WalkIsCorrect(tree, b);
  }

  /** What runs eagerly also counts as deferred, and an eager chain has no dynamic hop. */
  lemma LoadImpliesDeferred(tree: Tree, request: Request)
    requires Answerable(tree, request)
    ensures var load := ColdWalk(tree, request.(mode := Load));
            NoLonger(load, ColdWalk(tree, request.(mode := Deferred))) && (load.Dirty? ==> AllStatic(load.chain))
  {
    forall chain | DrizzleChain(tree, request.(mode := Load), chain)
      ensures DrizzleChain(tree, request.(mode := Deferred), chain) && AllStatic(chain)
    {
      LoadChainIff(tree, request, chain);
    }
    MoreChainsNoLonger(tree, request.(mode := Load), request.(mode := Deferred));
    WalkIsCorrect(tree, request.(mode := Load));
  }

  /** An entrypoint is clean at load and dirty when deferred exactly if Drizzle is reachable and
      every chain to it has a dynamic hop. */
  lemma DynamicOnlyIff(tree: Tree, request: Request)
    requires Answerable(tree, request)
    ensures ColdWalk(tree, request.(mode := Load)).Clean? && ColdWalk(tree, request.(mode := Deferred)).Dirty? <==>
      ReachesDrizzle(tree, request.(mode := Deferred)) &&
      forall chain: seq<Hop> :: DrizzleChain(tree, request.(mode := Deferred), chain) ==>
        exists h :: h in chain && h.kind.Dynamic?
  {
    WalkIsCorrect(tree, request.(mode := Load));
    WalkIsCorrect(tree, request.(mode := Deferred));
    forall chain ensures DrizzleChain(tree, request.(mode := Load), chain) <==>
      DrizzleChain(tree, request.(mode := Deferred), chain) && AllStatic(chain)
    {
      LoadChainIff(tree, request, chain);
    }
  }

  /** Severing more modules never makes a clean walk dirty and never shortens the chain. */
  lemma SeveranceMonotone(tree: Tree, request: Request, more: set<string>)
    requires Answerable(tree, request) && request.severed <= more
    ensures NoLonger(ColdWalk(tree, request.(severed := more)), ColdWalk(tree, request))
  {
    forall chain | DrizzleChain(tree, request.(severed := more), chain) ensures DrizzleChain(tree, request, chain) {
      SeveringMoreKeepsChain(tree, request, more, chain);
    }
    MoreChainsNoLonger(tree, request.(severed := more), request);
  }

  /** `SIMULATED_SEVERANCE_STAGES`, in order. */
  const STAGES: seq<set<string>> := [
    {},
    {"src/store/claims/axis.ts", "src/backend/migrate-recorded-time.ts", "src/backend/migrate-vectors.ts"},
    {"src/store/claims/axis.ts", "src/backend/migrate-recorded-time.ts", "src/backend/migrate-vectors.ts",
     "src/store/materialize-removals.ts"}
  ]

  /** What each stage severs. */
  lemma StageModules(file: string)
    ensures file !in STAGES[0]
    ensures file in STAGES[1] <==>
      file == "src/store/claims/axis.ts" || file == "src/backend/migrate-recorded-time.ts" ||
      file == "src/backend/migrate-vectors.ts"
    ensures file in STAGES[2] <==> file in STAGES[1] || file == "src/store/materialize-removals.ts"
  {}

  /** So the dirty set shrinks along the stages. */
  lemma StagesShrink(tree: Tree, request: Request, i: nat, j: nat)
    requires Answerable(tree, request) && i <= j < |STAGES|
    ensures NoLonger(ColdWalk(tree, request.(severed := STAGES[j])), ColdWalk(tree, request.(severed := STAGES[i])))
  {
    assert STAGES[i] <= STAGES[j];
    SeveranceMonotone(tree, request.(severed := STAGES[i]), STAGES[j]);
  }

  /** Severing exactly removes hits and links into the Drizzle backend: with every file severed
      a source walk finds nothing. */
  lemma SeveringAllIsClean(tree: Tree, request: Request)
    requires Answerable(tree, request) && request.grain == Source && tree.edges.Keys <= request.severed
    ensures ColdWalk(tree, request).Clean?
  {
    WalkIsCorrect(tree, request);
    forall chain ensures !DrizzleChain(tree, request, chain) {}
  }

  /** Severance is a source-grain notion only: elsewhere verdict and distance ignore it. */
  lemma DistIgnoresSeverance(tree: Tree, request: Request, other: set<string>)
    requires Answerable(tree, request) && request.grain == Dist
    ensures var a, b := ColdWalk(tree, request), ColdWalk(tree, request.(severed := other));
            NoLonger(a, b) && NoLonger(b, a)
  {
    var r := request.(severed := other);
    forall f, e ensures Follows(tree, request, f, e) <==> Follows(tree, r, f, e) {}
    forall h ensures Link(tree, request, h) <==> Link(tree, r, h) {}
    forall chain ensures DrizzleChain(tree, request, chain) <==> DrizzleChain(tree, r, chain) {}
    MoreChainsNoLonger(tree, request, r);
    MoreChainsNoLonger(tree, r, request);
  }
}
