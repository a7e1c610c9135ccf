# ARC analysis containers and declaration contexts, in Dafny

This project models two small pieces of the Swift compiler and proves
properties of them.

**ARC analysis (`ARCAnalysis.h`).** The SIL optimizer's ARC analysis answers
questions about reference-count (RC) effects. The model covers three parts:

- the three single-block range scans (`valueHasARCUsesInInstructionRange`, its
  reverse form, and `valueHasARCDecrementOrCheckInInstructionRange`);
- `ConsumedArgToEpilogueReleaseMatcher`, the per-function table from each
  owned argument to the releases in an exit block that balance it;
- `ReleaseTracker`, which collects the users and final releases found for one
  value.

A basic block is a sequence of instruction handles, and an iterator into it is
an index. The effect classifiers `mayUseValue`, `mayDecrementRefCount` and
`mayCheckRefCount` are function parameters left uninterpreted. The alias
analysis they consult is folded into them. The matcher's `SmallMapVector`
becomes an insertion-ordered sequence of `(argument, release list)` entries.
Its invariant is that keys are distinct and no stored list is empty, which is
what makes the source's `*begin()` dereferences defined. The two
`SmallSetVector`s of the tracker become duplicate-free, insertion-ordered
sequences (module `SetVector`).

**Declaration contexts (`DeclContext.h`).** `DeclContextKind` is an ordered
enumeration, and the classification predicates (`isLocalContext`,
`isModuleContext`, `isModuleScopeContext`, `isTypeContext`,
`isExtensionContext`) are functions of the kind. All contexts live in an
arena, a map from handle to a (parent, kind) pair. A ghost rank map witnesses
that the parent relation is acyclic, which is why the walk up the parent chain
in `isChildContextOf` ends. `setParent` only rewrites a parent pointer, and it
re-ranks the moved subtree in ghost code. `IterableDeclContext` carries its
fixed iterable kind and its lazy-loader state.

Where the doc-comment and the code differ, the model follows the code. The
comment on `getParent` (DeclContext.h:198-199) says that a context has a parent
*if and only if* it is not a module. The constructor's assertion
(DeclContext.h:98) checks only one direction: a null parent implies a module.
So the arena's invariant is that one direction, and nothing stops a
module-kind context from having a parent.

`hasBlock()` is the field `hasBlock` of the matcher class. The iterators
`begin`/`end`/`rbegin`/`rend`/`getRange` are the ordered field `argInstMap`
itself.

## Model

| member | source | states |
|---|---|---|
| `ARCAnalysis.ValueHasARCUsesInInstructionRange` | include/swift/SILOptimizer/Analysis/ARCAnalysis.h:81-88 | returns the least index in `[start, end)` whose instruction may use the value, and None exactly when no instruction of the range may use it |
| `ARCAnalysis.ValueHasARCUsesInReverseInstructionRange` | include/swift/SILOptimizer/Analysis/ARCAnalysis.h:90-95 | returns the greatest index in `[start, end)` whose instruction may use the value, and None exactly when none may |
| `ARCAnalysis.ValueHasARCDecrementOrCheckInInstructionRange` | include/swift/SILOptimizer/Analysis/ARCAnalysis.h:97-105 | returns the least index in `(start, end]` whose instruction may decrement the value or check a reference count, and None exactly when there is none |
| `ARCAnalysis.ForwardAndReverseScansAgree` | include/swift/SILOptimizer/Analysis/ARCAnalysis.h:81-95 | the forward and reverse scans of one range fail together, and otherwise the first use is at or before the last |
| `ARCAnalysis.ScansAgreeOnSingleUse` | include/swift/SILOptimizer/Analysis/ARCAnalysis.h:81-95 | when exactly one instruction of `[start, end)` may use the value, both scans return that instruction |
| `ARCAnalysis.Find` | include/swift/SILOptimizer/Analysis/ARCAnalysis.h:146-148 | the map vector's `find` returns the first entry whose key is the argument, and `end()` (None) exactly when no entry has that key |
| `ARCAnalysis.ArgumentsCardinality` | include/swift/SILOptimizer/Analysis/ARCAnalysis.h:119 | with distinct keys, the table holds exactly one entry per argument in it |
| `ARCAnalysis.IsSoleRelease` | include/swift/SILOptimizer/Analysis/ARCAnalysis.h:182-187 | the `count_if` predicate: holds of an entry exactly when its release list is the single instruction `[inst]` |
| `ARCAnalysis.CountSoleReleases` | include/swift/SILOptimizer/Analysis/ARCAnalysis.h:182-188 | the `count_if` is positive exactly when some entry's release list is the single instruction `[inst]`, and it never exceeds the table size |
| `ARCAnalysis.ConsumedArgToEpilogueReleaseMatcher.constructor` | include/swift/SILOptimizer/Analysis/ARCAnalysis.h:136-139 | the new matcher keeps its exit kind (Return when none is given), records whether an exit block was found, and holds exactly that block's matches (the empty table when there is no block) |
| `ARCAnalysis.ConsumedArgToEpilogueReleaseMatcher.Recompute` | include/swift/SILOptimizer/Analysis/ARCAnalysis.h:178-179 | clears and rebuilds the table from the exit block's matches only, so two calls on an unchanged block give the same table, and it keeps the invariant |
| `ARCAnalysis.ConsumedArgToEpilogueReleaseMatcher.GetReleasesForArgument` | include/swift/SILOptimizer/Analysis/ARCAnalysis.h:162-168 | returns the empty list exactly for an argument without an entry, and otherwise exactly the stored list |
| `ARCAnalysis.ConsumedArgToEpilogueReleaseMatcher.GetReleasesForValue` | include/swift/SILOptimizer/Analysis/ARCAnalysis.h:170-176 | returns empty for a value that is not an argument, and otherwise agrees with the argument overload |
| `ARCAnalysis.ConsumedArgToEpilogueReleaseMatcher.GetSingleReleaseForArgument` | include/swift/SILOptimizer/Analysis/ARCAnalysis.h:146-153 | returns null for an argument without an entry and for one with several releases, and otherwise the sole element of its release list |
| `ARCAnalysis.ConsumedArgToEpilogueReleaseMatcher.GetSingleReleaseForValue` | include/swift/SILOptimizer/Analysis/ARCAnalysis.h:155-160 | returns null for a value that is not an argument, and otherwise agrees with the argument overload |
| `ARCAnalysis.ConsumedArgToEpilogueReleaseMatcher.IsSingleReleaseMatchedToArgument` | include/swift/SILOptimizer/Analysis/ARCAnalysis.h:181-189 | true exactly when some entry's release list is `[inst]`, so entries with several releases never match |
| `ARCAnalysis.ConsumedArgToEpilogueReleaseMatcher.SingleReleaseMatchedIffSoleReleaseOfSomeArgument` | include/swift/SILOptimizer/Analysis/ARCAnalysis.h:146-189 | the reverse lookup holds of `inst` exactly when `inst` is the single release returned for some argument |
| `ARCAnalysis.ConsumedArgToEpilogueReleaseMatcher.Size` | include/swift/SILOptimizer/Analysis/ARCAnalysis.h:205 | is the number of distinct arguments with an entry, and those are exactly the arguments with a non-empty release list |
| `ARCAnalysis.ReleaseTracker.constructor` | include/swift/SILOptimizer/Analysis/ARCAnalysis.h:216-218 | starts with both set-vectors empty and stores the caller's acceptability predicate |
| `ARCAnalysis.ReleaseTracker.TrackLastRelease` | include/swift/SILOptimizer/Analysis/ARCAnalysis.h:220 | inserts into the final releases only if absent, keeping order and no duplicates, and leaves the tracked users unchanged |
| `ARCAnalysis.ReleaseTracker.TrackUser` | include/swift/SILOptimizer/Analysis/ARCAnalysis.h:226 | inserts into the tracked users only if absent, keeping order and no duplicates, and leaves the final releases unchanged |
| `ARCAnalysis.ReleaseTracker.IsUserAcceptable` | include/swift/SILOptimizer/Analysis/ARCAnalysis.h:222-224 | returns exactly the caller-supplied predicate's answer and changes no state |
| `ARCAnalysis.ReleaseTracker.GetTrackedUsers` | include/swift/SILOptimizer/Analysis/ARCAnalysis.h:230 | the tracked users, in insertion order and duplicate-free |
| `ARCAnalysis.ReleaseTracker.GetFinalReleases` | include/swift/SILOptimizer/Analysis/ARCAnalysis.h:232-234 | the final releases, in insertion order and duplicate-free |
| `ARCAnalysis.TrackerClient` | include/swift/SILOptimizer/Analysis/ARCAnalysis.h:220-234 | from the tracker's contracts alone: a user tracked twice is stored once, and tracking a release does not disturb the users |
| `SetVector.Insert` | include/swift/SILOptimizer/Analysis/ARCAnalysis.h:211-212 | set-vector insertion: the result holds the old elements and the new one and nothing else, keeps the old sequence as a prefix, grows by at most one, is unchanged for a present element, and keeps the sequence duplicate-free |
| `SetVector.InsertIdempotent` | include/swift/SILOptimizer/Analysis/ARCAnalysis.h:220 | inserting the same instruction twice is the same as inserting it once |
| `DeclContexts.OrdinalIsOrderEmbedding` | include/swift/AST/DeclContext.h:54-66 | distinct kinds have distinct underlying values, and every kind lies at or before `Last_DeclContextKind` |
| `DeclContexts.IsLocalContext` | include/swift/AST/DeclContext.h:114-116 | the `<= Last_LocalDeclContextKind` test holds exactly for AbstractClosureExpr, Initializer, TopLevelCodeDecl and AbstractFunctionDecl |
| `DeclContexts.IsModuleContext` | include/swift/AST/DeclContext.h:119-121 | the header's closed-form test on the kind: the kind is Module |
| `DeclContexts.IsModuleScopeContext` | include/swift/AST/DeclContext.h:125-128 | the header's closed-form test on the kind: Module or FileUnit |
| `DeclContexts.IsTypeContext` | include/swift/AST/DeclContext.h:132-135 | the header's closed-form test on the kind: NominalTypeDecl or ExtensionDecl |
| `DeclContexts.IsExtensionContext` | include/swift/AST/DeclContext.h:138-140 | the header's closed-form test on the kind: ExtensionDecl |
| `DeclContexts.ClassificationImplications` | include/swift/AST/DeclContext.h:119-140 | a module context is a module-scope context, and an extension context is a type context |
| `DeclContexts.LocalKindsAreDisjoint` | include/swift/AST/DeclContext.h:114-135 | no kind is both local and a type context, both local and of module scope, or both of module scope and a type context |
| `DeclContexts.AncestorsRankBelow` | include/swift/AST/DeclContext.h:208-212 | every context reached by parent links is in the arena and ranks strictly lower, so the walk ends |
| `DeclContexts.AncestorsIrreflexive` | include/swift/AST/DeclContext.h:205-206 | no context is reached from itself by one or more parent links |
| `DeclContexts.AncestorsAgree` | include/swift/AST/DeclContext.h:198-202 | a context's ancestors depend only on the parent links along its chain, not on the ranks chosen |
| `DeclContexts.AncestorsTransitive` | include/swift/AST/DeclContext.h:204-212 | an ancestor of an ancestor is an ancestor |
| `DeclContexts.AncestorChainEndsAtModule` | include/swift/AST/DeclContext.h:96-100 | with only modules allowed a null parent, every parent chain ends at a module context |
| `DeclContexts.ReparentKeepsRanked` | include/swift/AST/DeclContext.h:88-90 | re-parenting a context under one that is neither that context nor below it keeps the parent relation acyclic |
| `DeclContexts.ReparentedAncestors` | include/swift/AST/DeclContext.h:88-90 | after re-parenting, the context's ancestors are the new parent followed by that parent's previous ancestors |
| `DeclContexts.DeclContextArena.NewDeclContext` | include/swift/AST/DeclContext.h:96-100 | a fresh context with the given parent and kind, where a null parent is allowed only for a module, and every other context is unchanged |
| `DeclContexts.DeclContextArena.GetContextKind` | include/swift/AST/DeclContext.h:103-105 | the kind stored with the context; `SetParent` is proved to keep it |
| `DeclContexts.DeclContextArena.GetParent` | include/swift/AST/DeclContext.h:198-202 | the parent is null only for a module context, and otherwise is another context of the arena |
| `DeclContexts.DeclContextArena.SetParent` | include/swift/AST/DeclContext.h:88-90 | changes only the parent pointer of one context, so every context keeps the kind it was given, and that context's ancestors become the new parent's chain |
| `DeclContexts.DeclContextArena.IsChildContextOf` | include/swift/AST/DeclContext.h:204-213 | true exactly when `other` is reached from `ctx` by one or more parent links, and never for `ctx` itself |
| `DeclContexts.IterableDeclContext.constructor` | include/swift/AST/DeclContext.h:351-357 | the iterable kind is the one given, fixed from then on, and the context starts without a lazy loader |
| `DeclContexts.IterableDeclContext.GetIterableContextKind` | include/swift/AST/DeclContext.h:355-357 | the kind given at construction, a constant of the object |
| `DeclContexts.IterableDeclContext.IsLazy` | include/swift/AST/DeclContext.h:379-381 | a loader is set (the loader pointer is not null) |
| `DeclContexts.IterableDeclContext.GetLoader` | include/swift/AST/DeclContext.h:367-370 | the stored loader; requires `isLazy`, as the header asserts |
| `DeclContexts.IterableDeclContext.GetLoaderContextData` | include/swift/AST/DeclContext.h:373-376 | the stored context data; requires `isLazy`, as the header asserts |
| `DeclContexts.IterableDeclContext.SetLoader` | include/swift/AST/DeclContext.h:366-384 | afterwards `isLazy` holds exactly when a loader was set, and then `getLoader` and `getLoaderContextData` (both requiring `isLazy`) return what was stored |

## Left out

- The bodies of the effect classifiers (`mayDecrementRefCount`, `mayCheckRefCount`, `mayUseValue`, `mustUseValue`, `mustGuaranteedUseValue`, `mayGuaranteedUseValue`, `canNeverDecrementRefCounts`, `canNeverUseValues`): the header only declares them, and they depend on the SIL instruction set and alias analysis. The scans take them as uninterpreted predicates.
- The shortcut through `canNeverUseValues`/`canNeverDecrementRefCounts` inside the scans: the scan bodies are not in the header, so the scans are modelled by their doc-comment contracts over a plain predicate.
- `findMatchingReleases`, the exit-block search, `isRedundantRelease` and `releaseAllNonTrivials`: their bodies are not in the header. The matcher's constructor and `Recompute` take their outcome as a parameter in place of `RCFI` and `F`: the matches found, or None when the function has no exit block of that kind. The exit kind comes second, so that it can keep the source's default `ExitKind::Return`.
- `getFinalReleasesForValue` and `isARCInertTrapBB`: declared without bodies. They walk the CFG, so they would need an invented algorithm.
- Alias analysis, RC-identity, loop and post-order analyses: external collaborators, folded into the predicate parameters or not used.
- The iterator types of the matcher and the tracker, beyond the ordered sequence they traverse.
- `lookupQualified`, the `getDeclared*Type*` queries, generic parameters and signatures, `getLocalContext`, `getInnermostMethodContext`, `getInnermostTypeContext`, `getParentModule`, `getModuleScopeContext`, `getParentSourceFile`, `getASTContext`, `walkContext`, and dump/print: these are not inlined in the header, or they depend on the wider AST, the type system or I/O.
- The member list of `IterableDeclContext` (`getMembers`, `addMember`, `addMemberSilently`, `loadAllMembers`, `DeclIterator`): not inlined in the header.
- `PointerIntPair` bit-packing, `alignas`, the `KindBits` static assertion and `operator new` with an `ASTContext` allocator: layout and allocation details. `ParentAndKind` is a plain pair.
- DeclContexts.DeclContextArena.SetParent: the source does not check its argument. The model's preconditions (no cycle, and a null parent only for a module) are what the rest of the header relies on: `isChildContextOf` assumes a finite parent chain, and `getParent` assumes its parent comment holds. In the source `setParent` is private and only its friends `Initializer`, `AutoClosureExpr` and `AbstractClosureExpr` call it, on their own contexts. The model's method is public and accepts a context of any kind, so its properties are proved for more callers than the source has.
- DeclContexts.DeclContextArena.GetParent: states one direction of the "parent if and only if not a module" comment: a null parent implies a module. The other direction, that a module has no parent, is not promised. The constructor's assertion checks only the first direction, and nothing in the header stops a module-kind context from being created with a parent.
- DeclContexts.IterableDeclContext.SetLoader: its body is not in the header. The model assigns the two fields as the declaration's comment and the accessors imply.
