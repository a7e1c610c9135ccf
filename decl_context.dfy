/** Declaration contexts of `DeclContext.h`: the ordered kind enumeration and
    its classification predicates, the contexts themselves as an arena of
    (parent, kind) pairs with the ancestor walk `isChildContextOf`, and the
    lazy-loader state of an iterable declaration context. */
module DeclContexts {
  import opened Wrappers

  // ---------------------------------------------------------------------
  // DeclContextKind
  // ---------------------------------------------------------------------

  datatype DeclContextKind =
    | AbstractClosureExpr
    | Initializer
    | TopLevelCodeDecl
    | AbstractFunctionDecl
    | Module
    | FileUnit
    | NominalTypeDecl
    | ExtensionDecl

  /** The underlying `uint8_t` value of a kind: its declaration position. */
  function Ordinal(k: DeclContextKind): nat {
    match k
    case AbstractClosureExpr => 0
    case Initializer => 1
    case TopLevelCodeDecl => 2
    case AbstractFunctionDecl => 3
    case Module => 4
    case FileUnit => 5
    case NominalTypeDecl => 6
    case ExtensionDecl => 7
  }

  const LastLocalDeclContextKind: DeclContextKind := AbstractFunctionDecl
  const LastDeclContextKind: DeclContextKind := ExtensionDecl

  /** The enumeration is ordered: distinct kinds have distinct values, and
      every kind lies at or before `Last_DeclContextKind`. */
  lemma OrdinalIsOrderEmbedding(a: DeclContextKind, b: DeclContextKind)
    ensures Ordinal(a) == Ordinal(b) ==> a == b
    ensures Ordinal(a) <= Ordinal(LastDeclContextKind)
  {
  }

  /** `isLocalContext`: the kinds ordered at or before
      `Last_LocalDeclContextKind`, which are exactly the four that precede
      `Module`. */
  predicate IsLocalContext(k: DeclContextKind): (b: bool)
    ensures b <==> k == AbstractClosureExpr || k == Initializer || k == TopLevelCodeDecl || k == AbstractFunctionDecl
  {
    Ordinal(k) <= Ordinal(LastLocalDeclContextKind)
  }

  /** `isModuleContext`. */
  predicate IsModuleContext(k: DeclContextKind) {
    k == Module
  }

  /** `isModuleScopeContext`: a module or a file unit. */
  predicate IsModuleScopeContext(k: DeclContextKind) {
    k == Module || k == FileUnit
  }

  /** `isTypeContext`: a nominal type or an extension. */
  predicate IsTypeContext(k: DeclContextKind) {
    k == NominalTypeDecl || k == ExtensionDecl
  }

  /** `isExtensionContext`. */
  predicate IsExtensionContext(k: DeclContextKind) {
    k == ExtensionDecl
  }

  /** Each narrower classification implies the wider one. */
  lemma ClassificationImplications(k: DeclContextKind)
    ensures IsModuleContext(k) ==> IsModuleScopeContext(k)
    ensures IsExtensionContext(k) ==> IsTypeContext(k)
  {
  }

  /** A local context is neither a type context nor of module scope. */
  lemma LocalKindsAreDisjoint(k: DeclContextKind)
    ensures !(IsLocalContext(k) && IsTypeContext(k))
    ensures !(IsLocalContext(k) && IsModuleScopeContext(k))
    ensures !(IsTypeContext(k) && IsModuleScopeContext(k))
  {
  }

  // ---------------------------------------------------------------------
  // The arena of contexts
  // ---------------------------------------------------------------------

  /** A handle to a `DeclContext`. */
  type Handle = nat

  /** `ParentAndKind`: the parent pointer (None for null) and the kind. */
  datatype DeclContextNode = DeclContextNode(parent: Option<Handle>, kind: DeclContextKind)

  type Contexts = map<Handle, DeclContextNode>

  /** Every parent is a context of the arena of strictly lower rank, so
      following parent links always ends. */
  ghost predicate Ranked(ctxs: Contexts, rank: map<Handle, nat>) {
    && ctxs.Keys == rank.Keys
    && forall h :: h in ctxs && ctxs[h].parent.Some? ==>
         ctxs[h].parent.value in ctxs && rank[ctxs[h].parent.value] < rank[h]
  }

  /** The constructor's assertion, kept by every context: a context without
      a parent is a module. */
  ghost predicate OnlyModulesAreRoots(ctxs: Contexts) {
    forall h :: h in ctxs && ctxs[h].parent.None? ==> IsModuleContext(ctxs[h].kind)
  }

  /** The contexts reached from `h` by one or more parent links, nearest
      first: the walk of `isChildContextOf` after its first step. */
  ghost function Ancestors(ctxs: Contexts, rank: map<Handle, nat>, h: Handle): seq<Handle>
    requires Ranked(ctxs, rank) && h in ctxs
    decreases rank[h]
  {
    match ctxs[h].parent
    case None => []
    case Some(p) => [p] + Ancestors(ctxs, rank, p)
  }

  /** Every ancestor is in the arena and ranks below `h`. */
  lemma {:induction false} AncestorsRankBelow(ctxs: Contexts, rank: map<Handle, nat>, h: Handle)
    requires Ranked(ctxs, rank) && h in ctxs
    ensures forall a :: a in Ancestors(ctxs, rank, h) ==> a in ctxs && rank[a] < rank[h]
    decreases rank[h]
  {
    match ctxs[h].parent
    case None =>
    case Some(p) =>
      AncestorsRankBelow(ctxs, rank, p);
  }

  /** No context is its own ancestor. */
  lemma AncestorsIrreflexive(ctxs: Contexts, rank: map<Handle, nat>, h: Handle)
    requires Ranked(ctxs, rank) && h in ctxs
    ensures h !in Ancestors(ctxs, rank, h)
  {
    AncestorsRankBelow(ctxs, rank, h);
  }

  /** The ancestors of `x` depend only on the parent links along its chain:
      two arenas that agree on them give `x` the same ancestors, whatever
      ranks witness their acyclicity. */
  lemma {:induction false} AncestorsAgree(
    c1: Contexts, r1: map<Handle, nat>, c2: Contexts, r2: map<Handle, nat>, x: Handle)
    requires Ranked(c1, r1) && Ranked(c2, r2) && x in c1
    requires forall y :: y == x || y in Ancestors(c1, r1, x) ==> y in c1 && y in c2 && c2[y].parent == c1[y].parent
    ensures Ancestors(c1, r1, x) == Ancestors(c2, r2, x)
    decreases r1[x]
  {
    match c1[x].parent
    case None =>
    case Some(p) =>
      assert Ancestors(c1, r1, x) == [p] + Ancestors(c1, r1, p);
      AncestorsAgree(c1, r1, c2, r2, p);
  }

  /** A parent's ancestor is an ancestor: the relation is transitive. */
  lemma {:induction false} AncestorsTransitive(ctxs: Contexts, rank: map<Handle, nat>, a: Handle, b: Handle, c: Handle)
    requires Ranked(ctxs, rank) && c in ctxs
    requires b in Ancestors(ctxs, rank, c)
    requires b in ctxs && a in Ancestors(ctxs, rank, b)
    ensures a in Ancestors(ctxs, rank, c)
    decreases rank[c]
  {
    match ctxs[c].parent
    case None =>
    case Some(p) =>
      if b != p {
        AncestorsTransitive(ctxs, rank, a, b, p);
      }
  }

  /** Following parent links from any context ends at a module. */
  lemma {:induction false} AncestorChainEndsAtModule(ctxs: Contexts, rank: map<Handle, nat>, h: Handle)
    requires Ranked(ctxs, rank) && OnlyModulesAreRoots(ctxs) && h in ctxs
    ensures var chain := [h] + Ancestors(ctxs, rank, h);
            chain[|chain| - 1] in ctxs && IsModuleContext(ctxs[chain[|chain| - 1]].kind)
    decreases rank[h]
  {
    match ctxs[h].parent
    case None =>
    case Some(p) =>
      AncestorChainEndsAtModule(ctxs, rank, p);
      var tail := [p] + Ancestors(ctxs, rank, p);
      assert [h] + Ancestors(ctxs, rank, h) == [h] + tail;
  }

  /** How far `setParent(h, parent)` must raise the rank of `h` to sit
      above its new parent. */
  ghost function RankShift(rank: map<Handle, nat>, h: Handle, parent: Option<Handle>): nat
    requires h in rank && (parent.Some? ==> parent.value in rank)
  {
    if parent.Some? && rank[parent.value] >= rank[h] then rank[parent.value] + 1 - rank[h] else 0
  }

  /** The ranks after re-parenting `h`: `h` and every context below it move
      up by `delta`, the others keep theirs. */
  ghost function Reranked(ctxs: Contexts, rank: map<Handle, nat>, h: Handle, delta: nat): map<Handle, nat>
    requires Ranked(ctxs, rank)
  {
    map x | x in ctxs :: if x == h || h in Ancestors(ctxs, rank, x) then rank[x] + delta else rank[x]
  }

  /** Re-parenting `h` under a context that is not `h` or below it keeps the
      parent relation acyclic. */
  lemma ReparentKeepsRanked(ctxs: Contexts, rank: map<Handle, nat>, h: Handle, parent: Option<Handle>)
    requires Ranked(ctxs, rank) && h in ctxs
    requires parent.Some? ==> parent.value in ctxs && h != parent.value && h !in Ancestors(ctxs, rank, parent.value)
    ensures Ranked(ctxs[h := DeclContextNode(parent, ctxs[h].kind)],
                   Reranked(ctxs, rank, h, RankShift(rank, h, parent)))
  {
    var c' := ctxs[h := DeclContextNode(parent, ctxs[h].kind)];
    var r' := Reranked(ctxs, rank, h, RankShift(rank, h, parent));
    forall x | x in c' && c'[x].parent.Some?
      ensures c'[x].parent.value in c' && r'[c'[x].parent.value] < r'[x]
    {
      var q := c'[x].parent.value;
      if x != h {
        assert ctxs[x].parent == Some(q);
        assert Ancestors(ctxs, rank, x) == [q] + Ancestors(ctxs, rank, q);
      }
    }
  }

  /** After re-parenting, the ancestors of `h` are its new parent followed
      by that parent's ancestors as they were. */
  lemma ReparentedAncestors(ctxs: Contexts, rank: map<Handle, nat>, h: Handle, parent: Option<Handle>)
    requires Ranked(ctxs, rank) && h in ctxs
    requires parent.Some? ==> parent.value in ctxs && h != parent.value && h !in Ancestors(ctxs, rank, parent.value)
    ensures var c', r' := ctxs[h := DeclContextNode(parent, ctxs[h].kind)],
                          Reranked(ctxs, rank, h, RankShift(rank, h, parent));
            Ranked(c', r') &&
            Ancestors(c', r', h) == if parent.None? then [] else [parent.value] + Ancestors(ctxs, rank, parent.value)
  {
    var c', r' := ctxs[h := DeclContextNode(parent, ctxs[h].kind)],
                  Reranked(ctxs, rank, h, RankShift(rank, h, parent));
    ReparentKeepsRanked(ctxs, rank, h, parent);
    if parent.Some? {
      var p := parent.value;
      AncestorsRankBelow(ctxs, rank, p);
      AncestorsAgree(ctxs, rank, c', r', p);
    }
  }

  /** All the `DeclContext`s of one AST, addressed by handle. */
  class DeclContextArena {
    var contexts: Contexts
    /** The next handle to give out. */
    var nextHandle: Handle
    /** A witness that the parent relation is acyclic. */
    ghost var rank: map<Handle, nat>

    ghost predicate Valid()
      reads this
    {
      && Ranked(contexts, rank)
      && OnlyModulesAreRoots(contexts)
      && forall h :: h in contexts ==> h < nextHandle
    }

    constructor ()
      ensures Valid() && contexts == map[]
    {
      contexts, nextHandle, rank := map[], 0, map[];
    }

    /** `DeclContext(Kind, Parent)`: a new context; the assertion in the
        constructor makes a null parent the caller's error unless the kind
        is `Module`. */
    method NewDeclContext(kind: DeclContextKind, parent: Option<Handle>) returns (h: Handle)
      requires Valid()
      requires parent.Some? ==> parent.value in contexts
      requires parent.None? ==> IsModuleContext(kind)
      modifies this
      ensures Valid()
      ensures h !in old(contexts)
      ensures contexts == old(contexts)[h := DeclContextNode(parent, kind)]
    {
      h := nextHandle;
      rank := rank[h := if parent.Some? then rank[parent.value] + 1 else 0];
      contexts := contexts[h := DeclContextNode(parent, kind)];
      nextHandle := nextHandle + 1;
    }

    /** `getContextKind`. */
    function GetContextKind(h: Handle): DeclContextKind
      reads this
      requires h in contexts
    {
      contexts[h].kind
    }

    /** `getParent`: null only for a module; otherwise a context of the
        arena. */
    function GetParent(h: Handle): (p: Option<Handle>)
      reads this
      requires Valid() && h in contexts
      ensures p.None? ==> IsModuleContext(GetContextKind(h))
      ensures p.Some? ==> p.value in contexts && p.value != h
    {
      contexts[h].parent
    }

    /** `setParent`: changes the parent pointer of `h` and nothing else. The
        caller keeps the tree shape: the new parent is not `h` or one of its
        descendants, and only a module is left without a parent. */
    method SetParent(h: Handle, parent: Option<Handle>)
      requires Valid() && h in contexts
      requires parent.Some? ==> parent.value in contexts
      requires parent.Some? ==> h != parent.value && h !in Ancestors(contexts, rank, parent.value)
      requires parent.None? ==> IsModuleContext(contexts[h].kind)
      modifies this
      ensures Valid()
      ensures contexts == old(contexts)[h := DeclContextNode(parent, old(contexts)[h].kind)]
      ensures forall x :: x in contexts ==> GetContextKind(x) == old(GetContextKind(x))
      ensures nextHandle == old(nextHandle)
      ensures parent.None? ==> Ancestors(contexts, rank, h) == []
      ensures parent.Some? ==>
                Ancestors(contexts, rank, h) == [parent.value] + Ancestors(old(contexts), old(rank), parent.value)
    {
      ReparentKeepsRanked(contexts, rank, h, parent);
      ReparentedAncestors(contexts, rank, h, parent);
      rank := Reranked(contexts, rank, h, RankShift(rank, h, parent));
      contexts := contexts[h := DeclContextNode(parent, contexts[h].kind)];
    }

    /** `isChildContextOf`: true iff `other` is reached from `ctx` by one or
        more parent links; never true of `ctx` itself. */
    method IsChildContextOf(ctx: Handle, other: Handle) returns (b: bool)
      requires Valid() && ctx in contexts
      ensures b <==> other in Ancestors(contexts, rank, ctx)
      ensures ctx == other ==> !b
    {
      if ctx == other {
        AncestorsIrreflexive(contexts, rank, ctx);
        return false;
      }
      var cur: Option<Handle> := Some(ctx);
      while cur.Some?
        invariant cur.Some? ==> cur.value in contexts
        invariant other in Ancestors(contexts, rank, ctx) <==>
                    cur.Some? && (cur.value == other || other in Ancestors(contexts, rank, cur.value))
        decreases if cur.Some? then rank[cur.value] + 1 else 0
      {
        if cur.value == other {
          return true;
        }
        cur := GetParent(cur.value);
      }
      return false;
    }
  }

  // ---------------------------------------------------------------------
  // IterableDeclContext
  // ---------------------------------------------------------------------

  datatype IterableDeclContextKind = IterableNominalTypeDecl | IterableExtensionDecl

  /** A handle to a `LazyMemberLoader`. */
  type LazyMemberLoader = nat

  newtype uint64 = x: int | 0 <= x < 0x1_0000_0000_0000_0000

  /** The kind and lazy-loading state of an iterable declaration context;
      the member list itself is not modelled. */
  class IterableDeclContext {
    const iterableKind: IterableDeclContextKind
    var lazyLoader: Option<LazyMemberLoader>
    var lazyLoaderContextData: uint64

    constructor (kind: IterableDeclContextKind)
      ensures GetIterableContextKind() == kind
      ensures !IsLazy() && lazyLoaderContextData == 0
    {
      iterableKind := kind;
      lazyLoader := None;
      lazyLoaderContextData := 0;
    }

    /** `getIterableContextKind`: the kind given at construction. */
    function GetIterableContextKind(): IterableDeclContextKind {
      iterableKind
    }

    /** `isLazy`: a loader is set. */
    predicate IsLazy()
      reads this
    {
      lazyLoader.Some?
    }

    /** `getLoader`, asserted to be called only on a lazy context. */
    function GetLoader(): LazyMemberLoader
      reads this
      requires IsLazy()
    {
      lazyLoader.value
    }

    /** `getLoaderContextData`, asserted to be called only on a lazy context. */
    function GetLoaderContextData(): uint64
      reads this
      requires IsLazy()
    {
      lazyLoaderContextData
    }

    /** `setLoader`: store the loader (None for null) and its context data. */
    method SetLoader(loader: Option<LazyMemberLoader>, contextData: uint64)
      modifies this
      ensures IsLazy() <==> loader.Some?
      ensures loader.Some? ==> GetLoader() == loader.value && GetLoaderContextData() == contextData
    {
      lazyLoader := loader;
      lazyLoaderContextData := contextData;
    }
  }
}
