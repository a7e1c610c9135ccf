/** The ARC analysis result containers and single-block scans of
    `ARCAnalysis.h`: the three range scans, the argument-to-epilogue-release
    table and the release tracker.

    Instructions and arguments are handles into the function's IR; the
    effect classifiers (`mayUseValue`, `mayDecrementRefCount`,
    `mayCheckRefCount`, …) are passed in as uninterpreted predicates, with
    the alias-analysis argument folded into them. */
module ARCAnalysis {
  import opened Wrappers
  import opened SetVector

  /** A handle to a `SILInstruction`. */
  type Inst = nat

  /** A handle to a `SILArgument`. */
  type Arg = nat

  /** A `SILValue`: a block argument, or any other value (an instruction
      result, undef); only the first is a `SILArgument` under `dyn_cast`. */
  datatype Value = ArgumentValue(arg: Arg) | OtherValue(id: nat)

  /** A basic block's instructions in program order; an iterator into the
      block is an index, and `|block|` is its `end()`. */
  type Block = seq<Inst>

  /** `ReleaseList`: an ordered list of release instructions. */
  type ReleaseList = seq<Inst>

  // ---------------------------------------------------------------------
  // Single-block range scans
  // ---------------------------------------------------------------------

  /** The least index in `[lo, hi)` whose instruction satisfies `p`. */
  function FirstMatch(block: Block, lo: nat, hi: nat, p: Inst -> bool): (r: Option<nat>)
    requires lo <= hi <= |block|
    ensures r.Some? ==> lo <= r.value < hi && p(block[r.value])
    ensures r.Some? ==> forall k :: lo <= k < r.value ==> !p(block[k])
    ensures r.None? ==> forall k :: lo <= k < hi ==> !p(block[k])
    decreases hi - lo
  {
    if lo == hi then None
    else if p(block[lo]) then Some(lo)
    else FirstMatch(block, lo + 1, hi, p)
  }

  /** The greatest index in `[lo, hi)` whose instruction satisfies `p`. */
  function LastMatch(block: Block, lo: nat, hi: nat, p: Inst -> bool): (r: Option<nat>)
    requires lo <= hi <= |block|
    ensures r.Some? ==> lo <= r.value < hi && p(block[r.value])
    ensures r.Some? ==> forall k :: r.value < k < hi ==> !p(block[k])
    ensures r.None? ==> forall k :: lo <= k < hi ==> !p(block[k])
    decreases hi - lo
  {
    if lo == hi then None
    else if p(block[hi - 1]) then Some(hi - 1)
    else LastMatch(block, lo, hi - 1, p)
  }

  /** `valueHasARCUsesInInstructionRange`: the first instruction of
      `[start, end)` that may use `op`, or None. Both ends lie in `block`. */
  function ValueHasARCUsesInInstructionRange(
    op: Value, block: Block, start: nat, end: nat, mayUseValue: (Inst, Value) -> bool): (r: Option<nat>)
    requires start <= end <= |block|
    ensures r.Some? ==> start <= r.value < end && mayUseValue(block[r.value], op)
    ensures r.Some? ==> forall k :: start <= k < r.value ==> !mayUseValue(block[k], op)
    ensures r.None? <==> forall k :: start <= k < end ==> !mayUseValue(block[k], op)
  {
    FirstMatch(block, start, end, (i: Inst) => mayUseValue(i, op))
  }

  /** `valueHasARCUsesInReverseInstructionRange`: the last instruction of
      `[start, end)` that may use `op`, or None. */
  function ValueHasARCUsesInReverseInstructionRange(
    op: Value, block: Block, start: nat, end: nat, mayUseValue: (Inst, Value) -> bool): (r: Option<nat>)
    requires start <= end <= |block|
    ensures r.Some? ==> start <= r.value < end && mayUseValue(block[r.value], op)
    ensures r.Some? ==> forall k :: r.value < k < end ==> !mayUseValue(block[k], op)
    ensures r.None? <==> forall k :: start <= k < end ==> !mayUseValue(block[k], op)
  {
    LastMatch(block, start, end, (i: Inst) => mayUseValue(i, op))
  }

  /** `valueHasARCDecrementOrCheckInInstructionRange`: the first instruction
      of the range `(start, end]` that may decrement `op`'s reference count
      or check a reference count, or None. `end` is an instruction of the
      block, since the range includes it. */
  function ValueHasARCDecrementOrCheckInInstructionRange(
    op: Value, block: Block, start: nat, end: nat,
    mayDecrementRefCount: (Inst, Value) -> bool, mayCheckRefCount: Inst -> bool): (r: Option<nat>)
    requires start <= end < |block|
    ensures r.Some? ==> start < r.value <= end
    ensures r.Some? ==> mayDecrementRefCount(block[r.value], op) || mayCheckRefCount(block[r.value])
    ensures r.Some? ==> forall k :: start < k < r.value ==>
                          !mayDecrementRefCount(block[k], op) && !mayCheckRefCount(block[k])
    ensures r.None? <==> forall k :: start < k <= end ==>
                           !mayDecrementRefCount(block[k], op) && !mayCheckRefCount(block[k])
  {
    FirstMatch(block, start + 1, end + 1, (i: Inst) => mayDecrementRefCount(i, op) || mayCheckRefCount(i))
  }

  /** The forward and reverse scans over one range find a use together or
      not at all, and the first use never comes after the last one. */
  lemma ForwardAndReverseScansAgree(
    op: Value, block: Block, start: nat, end: nat, mayUseValue: (Inst, Value) -> bool)
    requires start <= end <= |block|
    ensures ValueHasARCUsesInInstructionRange(op, block, start, end, mayUseValue).None?
        <==> ValueHasARCUsesInReverseInstructionRange(op, block, start, end, mayUseValue).None?
    ensures ValueHasARCUsesInInstructionRange(op, block, start, end, mayUseValue).Some? ==>
              ValueHasARCUsesInInstructionRange(op, block, start, end, mayUseValue).value
              <= ValueHasARCUsesInReverseInstructionRange(op, block, start, end, mayUseValue).value
  {
  }

  /** With exactly one instruction of `[start, end)` using `op`, the forward
      and the reverse scan both return it. */
  lemma ScansAgreeOnSingleUse(
    op: Value, block: Block, start: nat, end: nat, mayUseValue: (Inst, Value) -> bool, k: nat)
    requires start <= k < end <= |block|
    requires mayUseValue(block[k], op)
    requires forall j :: start <= j < end && j != k ==> !mayUseValue(block[j], op)
    ensures ValueHasARCUsesInInstructionRange(op, block, start, end, mayUseValue) == Some(k)
    ensures ValueHasARCUsesInReverseInstructionRange(op, block, start, end, mayUseValue) == Some(k)
  {
  }

  // ---------------------------------------------------------------------
  // ConsumedArgToEpilogueReleaseMatcher
  // ---------------------------------------------------------------------

  datatype ExitKind = Return | Throw

  /** One entry `std::pair<SILArgument *, ReleaseList>` of the table. */
  datatype ArgReleases = ArgReleases(arg: Arg, releases: ReleaseList)

  /** The `SmallMapVector` from argument to release list, in insertion order. */
  type ArgInstMap = seq<ArgReleases>

  /** Keys of a map vector are distinct. */
  predicate DistinctArguments(m: ArgInstMap) {
    forall i, j :: 0 <= i < j < |m| ==> m[i].arg != m[j].arg
  }

  /** The table's invariant: distinct keys and, since an argument without a
      matching release is left out, no empty release list. */
  predicate WellFormedArgInstMap(m: ArgInstMap) {
    DistinctArguments(m) && forall i :: 0 <= i < |m| ==> m[i].releases != []
  }

  /** The set of arguments that have an entry. */
  function Arguments(m: ArgInstMap): set<Arg> {
    set i | 0 <= i < |m| :: m[i].arg
  }

  /** A map vector holds one entry per distinct key. */
  lemma {:induction false} ArgumentsCardinality(m: ArgInstMap)
    requires DistinctArguments(m)
    ensures |Arguments(m)| == |m|
  {
    if m != [] {
      var rest := m[1..];
      assert DistinctArguments(rest) by {
        forall i, j | 0 <= i < j < |rest| ensures rest[i].arg != rest[j].arg {
          assert rest[i] == m[i + 1] && rest[j] == m[j + 1];
        }
      }
      ArgumentsCardinality(rest);
      assert Arguments(m) == {m[0].arg} + Arguments(rest) by {
        forall a | a in Arguments(m) ensures a in {m[0].arg} + Arguments(rest) {
          var i :| 0 <= i < |m| && m[i].arg == a;
          if i > 0 { assert rest[i - 1] == m[i]; }
        }
        forall a | a in Arguments(rest) ensures a in Arguments(m) {
          var i :| 0 <= i < |rest| && rest[i].arg == a;
          assert m[i + 1] == rest[i];
        }
      }
      assert m[0].arg !in Arguments(rest) by {
        forall i | 0 <= i < |rest| ensures rest[i].arg != m[0].arg {
          assert rest[i] == m[i + 1];
        }
      }
    }
  }

  /** `ArgInstMap.find(Arg)`: the index of the entry for `arg`, or None for
      `end()`. */
  function Find(m: ArgInstMap, arg: Arg): (r: Option<nat>)
    ensures r.Some? ==> r.value < |m| && m[r.value].arg == arg
    ensures r.Some? ==> forall k :: 0 <= k < r.value ==> m[k].arg != arg
    ensures r.None? <==> forall k :: 0 <= k < |m| ==> m[k].arg != arg
  {
    if m == [] then None
    else if m[0].arg == arg then Some(0)
    else match Find(m[1..], arg)
      case None => None
      case Some(i) => Some(i + 1)
  }

  /** The predicate that `isSingleReleaseMatchedToArgument` counts with: the
      entry's list has at most one element and its first element is `inst`. */
  predicate IsSoleRelease(p: ArgReleases, inst: Inst): (b: bool)
    requires p.releases != []
    ensures b <==> p.releases == [inst]
  {
    if |p.releases| > 1 then false else p.releases[0] == inst
  }

  /** `std::count_if` of `IsSoleRelease` over the table. */
  function CountSoleReleases(m: ArgInstMap, inst: Inst): (n: nat)
    requires forall i :: 0 <= i < |m| ==> m[i].releases != []
    ensures n <= |m|
    ensures n > 0 <==> exists i :: 0 <= i < |m| && m[i].releases == [inst]
  {
    if m == [] then 0
    else (if IsSoleRelease(m[0], inst) then 1 else 0) + CountSoleReleases(m[1..], inst)
  }

  /** Matches owned arguments of one function with the releases of one of
      its exit blocks (of kind Return or Throw). */
  class ConsumedArgToEpilogueReleaseMatcher {
    const kind: ExitKind
    var argInstMap: ArgInstMap
    /** Whether an exit block of this kind was found; read by `hasBlock()`. */
    var hasBlock: bool

    ghost predicate Valid()
      reads this
    {
      WellFormedArgInstMap(argInstMap)
    }

    /** Construction runs `recompute`. The exit-block search and the
        matching of releases in it are not modelled: `epilogue` is their
        outcome, None when the function has no exit block of this kind.
        The exit kind defaults to Return. */
    constructor (epilogue: Option<ArgInstMap>, kind: ExitKind := Return)
      requires epilogue.Some? ==> WellFormedArgInstMap(epilogue.value)
      ensures Valid() && this.kind == kind
      ensures hasBlock == epilogue.Some?
      ensures argInstMap == if epilogue.Some? then epilogue.value else []
    {
      this.kind := kind;
      hasBlock := epilogue.Some?;
      argInstMap := if epilogue.Some? then epilogue.value else [];
    }

    /** `recompute`: clear the table, then rebuild it from the exit block's
        current matches; the result depends only on `epilogue`. */
    method Recompute(epilogue: Option<ArgInstMap>)
      requires epilogue.Some? ==> WellFormedArgInstMap(epilogue.value)
      modifies this`argInstMap, this`hasBlock
      ensures Valid()
      ensures hasBlock == epilogue.Some?
      ensures argInstMap == if epilogue.Some? then epilogue.value else []
    {
      argInstMap := [];
      hasBlock := epilogue.Some?;
      if epilogue.Some? {
        argInstMap := epilogue.value;
      }
    }

    /** `getReleasesForArgument(SILArgument *)`: the empty list for an
        argument without an entry, the stored list otherwise. */
    function GetReleasesForArgument(arg: Arg): (r: ReleaseList)
      reads this
      requires Valid()
      ensures r == [] <==> arg !in Arguments(argInstMap)
      ensures forall i :: 0 <= i < |argInstMap| && argInstMap[i].arg == arg ==> r == argInstMap[i].releases
    {
      match Find(argInstMap, arg)
      case None => []
      case Some(i) => argInstMap[i].releases
    }

    /** `getReleasesForArgument(SILValue)`: empty for a value that is not an
        argument. */
    function GetReleasesForValue(v: Value): (r: ReleaseList)
      reads this
      requires Valid()
      ensures !v.ArgumentValue? ==> r == []
      ensures v.ArgumentValue? ==> r == GetReleasesForArgument(v.arg)
    {
      match v
      case ArgumentValue(arg) => GetReleasesForArgument(arg)
      case OtherValue(_) => []
    }

    /** `getSingleReleaseForArgument(SILArgument *)`: null both for an
        argument without an entry and for one with several releases. */
    function GetSingleReleaseForArgument(arg: Arg): (r: Option<Inst>)
      reads this
      requires Valid()
      ensures arg !in Arguments(argInstMap) ==> r.None?
      ensures r.Some? <==> |GetReleasesForArgument(arg)| == 1
      ensures r.Some? ==> GetReleasesForArgument(arg) == [r.value]
    {
      match Find(argInstMap, arg)
      case None => None
      case Some(i) =>
        if |argInstMap[i].releases| > 1 then None else Some(argInstMap[i].releases[0])
    }

    /** `getSingleReleaseForArgument(SILValue)`: null for a value that is
        not an argument. */
    function GetSingleReleaseForValue(v: Value): (r: Option<Inst>)
      reads this
      requires Valid()
      ensures !v.ArgumentValue? ==> r.None?
      ensures v.ArgumentValue? ==> r == GetSingleReleaseForArgument(v.arg)
    {
      match v
      case ArgumentValue(arg) => GetSingleReleaseForArgument(arg)
      case OtherValue(_) => None
    }

    /** `isSingleReleaseMatchedToArgument`: some entry's list is exactly
        `[inst]`; entries with several releases never match. */
    function IsSingleReleaseMatchedToArgument(inst: Inst): (b: bool)
      reads this
      requires Valid()
      ensures b <==> exists i :: 0 <= i < |argInstMap| && argInstMap[i].releases == [inst]
    {
      CountSoleReleases(argInstMap, inst) > 0
    }

    /** The reverse lookup agrees with the per-argument lookup: `inst` is
        matched iff it is the single release of some argument. */
    lemma SingleReleaseMatchedIffSoleReleaseOfSomeArgument(inst: Inst)
      requires Valid()
      ensures IsSingleReleaseMatchedToArgument(inst)
          <==> exists arg :: GetSingleReleaseForArgument(arg) == Some(inst)
    {
      if IsSingleReleaseMatchedToArgument(inst) {
        var i :| 0 <= i < |argInstMap| && argInstMap[i].releases == [inst];
        assert GetReleasesForArgument(argInstMap[i].arg) == [inst];
        assert GetSingleReleaseForArgument(argInstMap[i].arg) == Some(inst);
      }
      if exists arg :: GetSingleReleaseForArgument(arg) == Some(inst) {
        var arg :| GetSingleReleaseForArgument(arg) == Some(inst);
        var i :| 0 <= i < |argInstMap| && argInstMap[i].arg == arg;
        assert argInstMap[i].releases == [inst];
      }
    }

    /** `size`: the number of arguments that have an entry. */
    function Size(): (n: nat)
      reads this
      requires Valid()
      ensures n == |Arguments(argInstMap)|
      ensures forall arg :: arg in Arguments(argInstMap) <==> GetReleasesForArgument(arg) != []
    {
      ArgumentsCardinality(argInstMap);
      |argInstMap|
    }
  }

  // ---------------------------------------------------------------------
  // ReleaseTracker
  // ---------------------------------------------------------------------

  /** Accumulates, for one value, the users visited and the final releases
      found; which users are acceptable is the caller's policy. */
  class ReleaseTracker {
    var trackedUsers: seq<Inst>
    var finalReleases: seq<Inst>
    const acceptableUserQuery: Inst -> bool

    /** Both set-vectors are duplicate-free. */
    ghost predicate Valid()
      reads this
    {
      NoDuplicates(trackedUsers) && NoDuplicates(finalReleases)
    }

    constructor (acceptableUserQuery: Inst -> bool)
      ensures Valid()
      ensures trackedUsers == [] && finalReleases == []
      ensures this.acceptableUserQuery == acceptableUserQuery
    {
      trackedUsers, finalReleases := [], [];
      this.acceptableUserQuery := acceptableUserQuery;
    }

    /** `trackLastRelease`: insert into the final releases only. */
    method TrackLastRelease(inst: Inst)
      requires Valid()
      modifies this`finalReleases
      ensures Valid()
      ensures finalReleases == Insert(old(finalReleases), inst)
      ensures trackedUsers == old(trackedUsers)
    {
      finalReleases := Insert(finalReleases, inst);
    }

    /** `trackUser`: insert into the tracked users only. */
    method TrackUser(user: Inst)
      requires Valid()
      modifies this`trackedUsers
      ensures Valid()
      ensures trackedUsers == Insert(old(trackedUsers), user)
      ensures finalReleases == old(finalReleases)
    {
      trackedUsers := Insert(trackedUsers, user);
    }

    /** `isUserAcceptable`: the caller's predicate, asked without changing
        any state. */
    function IsUserAcceptable(user: Inst): (b: bool)
      ensures b == acceptableUserQuery(user)
    {
      acceptableUserQuery(user)
    }

    /** `getTrackedUsers`: in insertion order, without duplicates. */
    function GetTrackedUsers(): (r: seq<Inst>)
      reads this
      requires Valid()
      ensures r == trackedUsers && NoDuplicates(r)
    {
      trackedUsers
    }

    /** `getFinalReleases`: in insertion order, without duplicates. */
    function GetFinalReleases(): (r: seq<Inst>)
      reads this
      requires Valid()
      ensures r == finalReleases && NoDuplicates(r)
    {
      finalReleases
    }
  }

  /** A client: tracking a user twice stores it once, and tracking a user
      leaves the final releases alone. */
  method TrackerClient(accept: Inst -> bool, u: Inst, rel: Inst) returns (users: seq<Inst>, releases: seq<Inst>)
    ensures users == [u] && releases == [rel]
  {
    var t := new ReleaseTracker(accept);
    t.TrackUser(u);
    t.TrackLastRelease(rel);
    t.TrackUser(u);
    users := t.GetTrackedUsers();
    releases := t.GetFinalReleases();
  }
}
