/** The chains of a walk, spelled out on the edge lists and the resolution tables, and what
    severing a file takes from them. */
module Replay {
  import opened Syntax
  import opened ModuleGraph
  import opened BreadthFirst

  /** The four prefixes of the pattern come down to two. */
  lemma DrizzleNames(specifier: string)
    ensures IsDrizzle(specifier) <==> "drizzle-" <= specifier || "@drizzle-team/" <= specifier
  {
    assert "drizzle-orm" <= specifier || "drizzle-kit" <= specifier ==> specifier[..8] == "drizzle-";
  }

  /** Where a specifier leads at a grain. */
  predicate Lands(tree: Tree, grain: Grain, file: string, specifier: string, target: string) {
    match grain
    case Source => (file, specifier) in tree.source && tree.source[(file, specifier)] == target
    case Dist => (file, specifier) in tree.dist && tree.dist[(file, specifier)] == target
  }

  predicate IntoBackend(file: string) {
    "src/backend/drizzle/" <= file
  }

  /** An edge of the file that the mode lets through and severance leaves. */
  predicate Kept(tree: Tree, request: Request, file: string, e: Edge) {
    file in tree.edges && e in tree.edges[file] &&
    (request.mode == Load ==> e.kind == Static) &&
    (request.grain == Source && file in request.severed ==>
       !("drizzle-" <= e.specifier) && !("@drizzle-team/" <= e.specifier) &&
       !("." <= e.specifier && (file, e.specifier) in tree.source && IntoBackend(tree.source[(file, e.specifier)])))
  }

  /** A hop along a kept relative edge. */
  ghost predicate Step(tree: Tree, request: Request, h: Hop) {
    exists e :: Kept(tree, request, h.from, e) && e.kind == h.kind && "." <= e.specifier &&
                Lands(tree, request.grain, h.from, e.specifier, h.to)
  }

  ghost predicate Replays(tree: Tree, request: Request, chain: seq<Hop>) {
    chain != [] && chain[0].from == request.root &&
    (forall i :: 0 <= i < |chain| - 1 ==> Step(tree, request, chain[i]) && chain[i].to == chain[i + 1].from) &&
    var last := chain[|chain| - 1];
    Kept(tree, request, last.from, Edge(last.to, last.kind)) && ("drizzle-" <= last.to || "@drizzle-team/" <= last.to)
  }

  lemma KeptIffFollowed(tree: Tree, request: Request, file: string, e: Edge)
    ensures Kept(tree, request, file, e) <==> Follows(tree, request, file, e)
  {
    DrizzleNames(e.specifier);
  }

  lemma StepIffLink(tree: Tree, request: Request, h: Hop)
    ensures Step(tree, request, h) <==> Link(tree, request, h)
  {
    forall e ensures Kept(tree, request, h.from, e) <==> Follows(tree, request, h.from, e) {
      KeptIffFollowed(tree, request, h.from, e);
    }
    forall e: Edge
      ensures Lands(tree, request.grain, h.from, e.specifier, h.to) <==>
        Resolve(tree, request.grain, h.from, e.specifier) == Some(h.to)
    {}
  }

  lemma ReplaysIff(tree: Tree, request: Request, chain: seq<Hop>)
    ensures DrizzleChain(tree, request, chain) <==> Replays(tree, request, chain)
  {
    forall h ensures Step(tree, request, h) <==> Link(tree, request, h) {
      StepIffLink(tree, request, h);
    }
    if chain != [] {
      var last := chain[|chain| - 1];
      KeptIffFollowed(tree, request, last.from, Edge(last.to, last.kind));
      DrizzleNames(last.to);
    }
  }

  /** The verdict of a walk, spelled out. */
  lemma WalkReplays(tree: Tree, request: Request)
    requires Answerable(tree, request)
    ensures match ColdWalk(tree, request)
            case Clean(_) => forall chain :: !Replays(tree, request, chain)
            case Dirty(_, specifier, chain) =>
              Replays(tree, request, chain) && chain[|chain| - 1].to == specifier &&
              forall other :: Replays(tree, request, other) ==> |chain| <= |other|
  {
    WalkIsCorrect(tree, request);
    forall chain ensures DrizzleChain(tree, request, chain) <==> Replays(tree, request, chain) {
      ReplaysIff(tree, request, chain);
    }
  }

  // ---------- severance ----------

  /** No hop of the chain leaves a severed file for the Drizzle backend or for a Drizzle package. */
  predicate AvoidsSevered(request: Request, chain: seq<Hop>) {
    forall i :: 0 <= i < |chain| && chain[i].from in request.severed ==>
      i < |chain| - 1 && !("src/backend/drizzle/" <= chain[i].to)
  }

  function Unsevered(request: Request): Request {
    request.(severed := {})
  }

  lemma SeveredStep(tree: Tree, request: Request, h: Hop)
    requires request.grain == Source
    ensures Step(tree, request, h) <==>
      Step(tree, Unsevered(request), h) && (h.from in request.severed ==> !("src/backend/drizzle/" <= h.to))
  {
    if Step(tree, request, h) {
      var e :| Kept(tree, request, h.from, e) && e.kind == h.kind && "." <= e.specifier &&
               Lands(tree, request.grain, h.from, e.specifier, h.to);
      assert Kept(tree, Unsevered(request), h.from, e);
    }
    if Step(tree, Unsevered(request), h) && (h.from in request.severed ==> !("src/backend/drizzle/" <= h.to)) {
      var e :| Kept(tree, Unsevered(request), h.from, e) && e.kind == h.kind && "." <= e.specifier &&
               Lands(tree, request.grain, h.from, e.specifier, h.to);
      assert e.specifier[0] == '.';
      assert Kept(tree, request, h.from, e);
    }
  }

  /** At source grain severing takes away exactly the chains with such a hop, and no other. */
  lemma SeveredChainIff(tree: Tree, request: Request, chain: seq<Hop>)
    requires request.grain == Source
    ensures Replays(tree, request, chain) <==> Replays(tree, Unsevered(request), chain) && AvoidsSevered(request, chain)
  {
    forall h ensures Step(tree, request, h) <==>
      Step(tree, Unsevered(request), h) && (h.from in request.severed ==> !("src/backend/drizzle/" <= h.to))
    {
      SeveredStep(tree, request, h);
    }
  }

  lemma CleanIffNoReplay(tree: Tree, request: Request)
    requires Answerable(tree, request)
    ensures ColdWalk(tree, request).Clean? <==> forall chain :: !Replays(tree, request, chain)
  {
    WalkReplays(tree, request);
  }

  /** A chain that there is without severance and that has no such hop. */
  ghost predicate Uncut(tree: Tree, request: Request, chain: seq<Hop>) {
    Replays(tree, Unsevered(request), chain) && AvoidsSevered(request, chain)
  }

  /** So a source walk is clean exactly if every chain there is without severance has such a hop:
      severing cuts these links and leaves the others. */
  lemma CleanUnderSeveranceIff(tree: Tree, request: Request)
    requires Answerable(tree, request) && request.grain == Source
    ensures ColdWalk(tree, request).Clean? <==> forall chain :: !Uncut(tree, request, chain)
  {
    CleanIffNoReplay(tree, request);
    forall chain ensures Replays(tree, request, chain) <==> Uncut(tree, request, chain) {
      SeveredChainIff(tree, request, chain);
    }
  }

  /** A relative link of a severed file that does not lead into the backend is still followed. */
  lemma OtherLinksStay(tree: Tree, request: Request, file: string, e: Edge, target: string)
    requires request.grain == Source && file in request.severed && file in tree.edges && e in tree.edges[file]
    requires (request.mode == Load ==> e.kind == Static) && "." <= e.specifier
    requires Lands(tree, Source, file, e.specifier, target) && !("src/backend/drizzle/" <= target)
    ensures Link(tree, request, Hop(file, target, e.kind))
  {
    assert e.specifier[0] == '.';
    assert Kept(tree, request, file, e);
    StepIffLink(tree, request, Hop(file, target, e.kind));
  }

  /** A severed root is clean when each of its relative links leads into the backend or nowhere. */
  lemma SeveredRootIsClean(tree: Tree, request: Request)
    requires Answerable(tree, request) && request.grain == Source && request.root in request.severed
    requires forall e, target | e in tree.edges[request.root] && "." <= e.specifier ::
      Lands(tree, Source, request.root, e.specifier, target) ==> "src/backend/drizzle/" <= target
    ensures ColdWalk(tree, request).Clean?
  {
    CleanUnderSeveranceIff(tree, request);
    forall chain ensures !Uncut(tree, request, chain) {
      if Replays(tree, Unsevered(request), chain) && |chain| > 1 {
        assert Step(tree, Unsevered(request), chain[0]);
      }
    }
  }
}
