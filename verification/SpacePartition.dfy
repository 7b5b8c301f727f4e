/** How a validated registry divides the block: the lanes' shares never add up to more than the
    block, so a lane that respects its own limit can never break the block's. */
module SpacePartition {
  import opened Types
  import opened Proposals
  import opened LaneModel
  import opened BaseHandlers
  import opened MevHandlers
  import opened PoolSizes
  import opened Chain

  function SumRatios(ratios: seq<Ratio>): nat {
    if ratios == [] then 0 else SumRatios(ratios[..|ratios| - 1]) + ratios[|ratios| - 1]
  }

  function SumShares(ratios: seq<Ratio>, max: nat): nat {
    if ratios == [] then 0 else SumShares(ratios[..|ratios| - 1], max) + Share(ratios[|ratios| - 1], max)
  }

  /** LanedMempool.ValidateBasic, on names and ratios. */
  predicate ValidRegistry(names: seq<string>, ratios: seq<Ratio>)
    requires |names| == |ratios|
  {
    && names != []
    && DistinctNames(names) && OneUnlimited(ratios)
    && SumRatios(ratios) <= PRECISION
    && (SumRatios(ratios) == PRECISION || 0 in ratios)
  }

  datatype Validation = Valid | NoLanes | DuplicateName | TwoUnlimited | TooMuchSpace | UnusedSpace

  predicate DistinctNames(names: seq<string>) {
    forall i, j :: 0 <= i < j < |names| ==> names[i] != names[j]
  }

  predicate OneUnlimited(ratios: seq<Ratio>) {
    forall i, j :: 0 <= i < j < |ratios| ==> ratios[i] != 0 || ratios[j] != 0
  }

  /** Accepts exactly the registries with lanes, no repeated name, at most one unlimited lane, and
      ratios that add up to at most 1, and to exactly 1 when no lane is unlimited. */
  method ValidateBasic(names: seq<string>, ratios: seq<Ratio>) returns (r: Validation)
    requires |names| == |ratios|
    ensures r.Valid? <==> ValidRegistry(names, ratios)
    ensures r.NoLanes? <==> names == []
    ensures r.DuplicateName? ==> !DistinctNames(names)
    ensures r.TwoUnlimited? ==> !OneUnlimited(ratios)
    ensures r.TooMuchSpace? ==> SumRatios(ratios) > PRECISION
    ensures r.UnusedSpace? ==> SumRatios(ratios) < PRECISION && 0 !in ratios
  {
    if |names| == 0 { return NoLanes; }
    var sum := 0;
    var seenZeroMaxBlockSpace := false;
    var seenLanes: set<string> := {};
    for i := 0 to |names|
      invariant sum == SumRatios(ratios[..i])
      invariant seenZeroMaxBlockSpace <==> 0 in ratios[..i]
      invariant seenLanes == set k | 0 <= k < i :: names[k]
      invariant DistinctNames(names[..i]) && OneUnlimited(ratios[..i])
    {
      if names[i] in seenLanes { return DuplicateName; }
      if seenZeroMaxBlockSpace && ratios[i] == 0 {
        return TwoUnlimited;
      } else if ratios[i] == 0 {
        seenZeroMaxBlockSpace := true;
      }
      assert ratios[..i + 1][..i] == ratios[..i] && ratios[..i + 1] == ratios[..i] + [ratios[i]];
      sum := sum + ratios[i];
      seenLanes := seenLanes + {names[i]};
    }
    assert ratios[..|names|] == ratios && names[..|names|] == names;
    if sum > PRECISION { return TooMuchSpace; }
    if sum < PRECISION && !seenZeroMaxBlockSpace { return UnusedSpace; }
    return Valid;
  }

  lemma {:induction false} ScaledShares(ratios: seq<Ratio>, max: nat)
    ensures SumShares(ratios, max) * PRECISION <= SumRatios(ratios) * max
    ensures SumRatios(ratios) * max <= SumShares(ratios, max) * PRECISION + |ratios| * (PRECISION - 1)
  {
    if ratios != [] {
      var front, r := ratios[..|ratios| - 1], ratios[|ratios| - 1];
      ScaledShares(front, max);
      assert (SumRatios(front) + r) * max == SumRatios(front) * max + r * max;
      assert Share(r, max) * PRECISION <= r * max <= Share(r, max) * PRECISION + PRECISION - 1;
    }
  }

  /** The truncated shares of ratios that sum to at most 1 fit the block; when they sum to exactly
      1, fewer units than there are lanes are lost to truncation. */
  lemma SharesFillBlock(ratios: seq<Ratio>, max: nat)
    requires SumRatios(ratios) <= PRECISION
    ensures SumShares(ratios, max) <= max
    ensures SumRatios(ratios) == PRECISION ==> SumShares(ratios, max) > max - |ratios|
  {
    ScaledShares(ratios, max);
    var shares, sum, n := SumShares(ratios, max), SumRatios(ratios), |ratios|;
    hide SumShares, SumRatios;
    ScaleDown(shares, sum, max, n);
    if sum == PRECISION { NonEmpty(ratios); }
  }

  lemma {:induction false} WholeShares(ratios: seq<Ratio>)
    ensures SumShares(ratios, PRECISION) == SumRatios(ratios)
  {
    if ratios != [] { WholeShares(ratios[..|ratios| - 1]); }
  }

  /** Which registries validate, seen from a block of 10^18 units, in which shares are exact: those with
      lanes of distinct names, at most one of them unlimited, whose shares fit the block and, when none is
      unlimited, fill it. */
  lemma ValidExactly(names: seq<string>, ratios: seq<Ratio>)
    requires |names| == |ratios|
    ensures ValidRegistry(names, ratios)
            <==> && |names| > 0
                 && (forall i, j :: 0 <= i < |names| && 0 <= j < |names| && names[i] == names[j] ==> i == j)
                 && (forall i, j :: 0 <= i < |ratios| && 0 <= j < |ratios| && ratios[i] == ratios[j] == 0 ==> i == j)
                 && SumShares(ratios, PRECISION) <= PRECISION
                 && ((forall i :: 0 <= i < |ratios| ==> ratios[i] > 0) ==> SumShares(ratios, PRECISION) == PRECISION)
  {
    WholeShares(ratios);
  }

  lemma NonEmpty(ratios: seq<Ratio>)
    requires SumRatios(ratios) == PRECISION
    ensures ratios != []
  {
  }

  lemma ScaleDown(shares: nat, sum: nat, max: nat, n: nat)
    requires sum <= PRECISION
    requires shares * PRECISION <= sum * max <= shares * PRECISION + n * (PRECISION - 1)
    ensures shares <= max
    ensures sum == PRECISION && n > 0 ==> shares > max - n
  {
    assert (PRECISION - sum) * max >= 0;
  }

  lemma {:induction false} PrefixRatios(ratios: seq<Ratio>, n: nat)
    requires n <= |ratios|
    ensures SumRatios(ratios[..n]) <= SumRatios(ratios)
  {
    if n == |ratios| {
      assert ratios[..n] == ratios;
    } else {
      assert ratios[..|ratios| - 1][..n] == ratios[..n];
      PrefixRatios(ratios[..|ratios| - 1], n);
    }
  }

  /** Once an unlimited lane has had its turn, no later lane has a share of its own. */
  predicate NothingBehindUnlimited(ratios: seq<Ratio>, max: nat) {
    forall i, j :: 0 <= i < j < |ratios| && ratios[i] == 0 ==> Share(ratios[j], max) == 0
  }

  /** The usual way to have that: the unlimited lane is absent or last. */
  lemma UnlimitedLast(ratios: seq<Ratio>, max: nat)
    requires forall i :: 0 <= i < |ratios| - 1 ==> ratios[i] != 0
    ensures NothingBehindUnlimited(ratios, max)
  {
  }

  /** What the first `n` lanes may use together. */
  function Allotted(ratios: seq<Ratio>, n: nat, max: nat): nat
    requires n <= |ratios|
  {
    if 0 in ratios[..n] then max else SumShares(ratios[..n], max)
  }

  lemma {:induction false} Allots(ratios: seq<Ratio>, n: nat, max: nat)
    requires SumRatios(ratios) <= PRECISION && n <= |ratios|
    ensures Allotted(ratios, n, max) <= max
  {
    PrefixRatios(ratios, n);
    SharesFillBlock(ratios[..n], max);
  }

  /** One more lane, using no more than it may. */
  lemma AllotsMore(ratios: seq<Ratio>, n: nat, max: nat, used: nat, more: nat)
    requires SumRatios(ratios) <= PRECISION && NothingBehindUnlimited(ratios, max)
    requires n < |ratios| && used <= Allotted(ratios, n, max)
    requires more == 0 || more <= if ratios[n] == 0 then max - used else Share(ratios[n], max)
    ensures used + more <= Allotted(ratios, n + 1, max) <= max
  {
    Allots(ratios, n, max);
    Allots(ratios, n + 1, max);
    var before := ratios[..n];
    assert ratios[..n + 1] == before + [ratios[n]];
    assert ratios[..n + 1][..n] == before;
    if 0 in before {
      var i :| 0 <= i < n && before[i] == 0;
      assert ratios[i] == 0;
    }
    hide Share, SumRatios;
  }

  /** After the first `n` lanes, what is used is at most what those lanes were allotted. */
  ghost predicate WithinShares(p: Prop, ratios: seq<Ratio>, n: nat)
    requires n <= |ratios|
  {
    SizeWithin(p, ratios, n) && GasWithin(p, ratios, n)
  }

  ghost predicate SizeWithin(p: Prop, ratios: seq<Ratio>, n: nat)
    requires n <= |ratios|
  {
    0 <= p.maxBlockSize && 0 <= p.blockSize <= Allotted(ratios, n, p.maxBlockSize)
  }

  ghost predicate GasWithin(p: Prop, ratios: seq<Ratio>, n: nat)
    requires n <= |ratios|
  {
    p.gasLimit <= Allotted(ratios, n, p.maxGasLimit)
  }

  /** Nothing behind an unlimited lane has a share of the block, by size or by gas. */
  predicate NothingBehind(ratios: seq<Ratio>, p: Prop) {
    0 <= p.maxBlockSize && NothingBehindUnlimited(ratios, p.maxBlockSize) && NothingBehindUnlimited(ratios, p.maxGasLimit)
  }

  /** A proposal with this much added. */
  function Grown(p: Prop, size: int64, gas: uint64): Prop {
    p.(blockSize := WrapInt64(p.blockSize + size), gasLimit := WrapUint64(p.gasLimit + gas))
  }

  lemma SizeStep(p: Prop, ratios: seq<Ratio>, n: nat, size: int64, gas: uint64)
    requires SumRatios(ratios) <= PRECISION && 0 <= p.maxBlockSize && NothingBehindUnlimited(ratios, p.maxBlockSize)
    requires n < |ratios| && SizeWithin(p, ratios, n)
    requires size == 0 || 0 <= size <= GetLaneLimits(p, ratios[n]).maxTxBytes
    ensures WrapInt64(p.blockSize + size) <= p.maxBlockSize && SizeWithin(Grown(p, size, gas), ratios, n + 1)
  {
    Allots(ratios, n, p.maxBlockSize);
    hide Share, SumRatios, Allotted, NothingBehindUnlimited;
    AllotsMore(ratios, n, p.maxBlockSize, p.blockSize, size);
  }

  lemma GasStep(p: Prop, ratios: seq<Ratio>, n: nat, size: int64, gas: uint64)
    requires SumRatios(ratios) <= PRECISION && NothingBehindUnlimited(ratios, p.maxGasLimit)
    requires n < |ratios| && GasWithin(p, ratios, n)
    requires gas == 0 || gas <= GetLaneLimits(p, ratios[n]).maxGasLimit
    ensures WrapUint64(p.gasLimit + gas) <= p.maxGasLimit && GasWithin(Grown(p, size, gas), ratios, n + 1)
  {
    Allots(ratios, n, p.maxGasLimit);
    hide Share, SumRatios, Allotted, NothingBehindUnlimited;
    AllotsMore(ratios, n, p.maxGasLimit, p.gasLimit, gas);
  }

  /** At any point of the chain, a partial proposal within its lane's limit passes the block-level
      checks, and the next lane starts within the shares again. */
  lemma LaneLimitSuffices(p: Prop, ratios: seq<Ratio>, n: nat, size: int64, gas: uint64)
    requires SumRatios(ratios) <= PRECISION && NothingBehind(ratios, p)
    requires n < |ratios| && WithinShares(p, ratios, n)
    requires 0 <= size && FitsLane(p, ratios[n], size, gas)
    ensures FitsBlock(p, size, gas)
    ensures WithinShares(Grown(p, size, gas), ratios, n + 1)
  {
    hide SumRatios, NothingBehindUnlimited, SizeWithin, GasWithin, GetLaneLimits;
    SizeStep(p, ratios, n, size, gas);
    GasStep(p, ratios, n, size, gas);
  }

  /** Validation does not ask for the unlimited lane to be last, and it has to be: anywhere else it
      may fill a block, after which the limit of any later lane with a share lets through what the
      block cannot hold. */
  lemma UnlimitedMustBeLast(ratios: seq<Ratio>, i: nat, j: nat, max: int64) returns (filled: Prop)
    requires i < j < |ratios| && ratios[i] == 0 && ratios[j] != 0
    requires Share(ratios[j], max) > 0 && max < TWO_TO_63 - 1
    ensures var empty := NewProposal(max, TWO_TO_64 - 1);
            && FitsLane(empty, ratios[i], max, 0) && FitsBlock(empty, max, 0) && filled == Grown(empty, max, 0)
            && FitsLane(filled, ratios[j], 1, 0) && !FitsBlock(filled, 1, 0)
  {
    filled := NewProposal(max, TWO_TO_64 - 1).(blockSize := max);
    hide Share;
  }

  // ----- exactly when a lane's own limit is enough ------------------------------------------------

  /** What one lane adds. */
  datatype Part = Part(size: int64, gas: uint64)

  /** The proposal after the first lanes each added a part that passed all the checks. */
  function Fill(p: Prop, ratios: seq<Ratio>, parts: seq<Part>): Option<Prop>
    requires |parts| <= |ratios|
  {
    if parts == [] then Some(p)
    else
      var before, part := Fill(p, ratios, parts[..|parts| - 1]), parts[|parts| - 1];
      if before.Some? && 0 <= part.size && FitsLane(before.value, ratios[|parts| - 1], part.size, part.gas)
         && FitsBlock(before.value, part.size, part.gas)
      then Some(Grown(before.value, part.size, part.gas)) else None
  }

  /** After these parts the next lane's limit lets this part through, and the block check does not. */
  ghost predicate LimitMisleads(p: Prop, ratios: seq<Ratio>, parts: seq<Part>, part: Part) {
    && |parts| < |ratios| && Fill(p, ratios, parts).Some? && 0 <= part.size
    && FitsLane(Fill(p, ratios, parts).value, ratios[|parts|], part.size, part.gas)
    && !FitsBlock(Fill(p, ratios, parts).value, part.size, part.gas)
  }

  /** A lane's own limit is always enough, whatever the lanes before it added, if and only if nothing
      behind an unlimited lane has a share; the largest values of the types are no limits at all. */
  lemma LimitsSufficeExactly(ratios: seq<Ratio>, max: int64, maxGas: uint64)
    requires SumRatios(ratios) <= PRECISION && 0 <= max
    ensures (forall parts: seq<Part>, part: Part :: !LimitMisleads(NewProposal(max, maxGas), ratios, parts, part))
            <==> && (max == TWO_TO_63 - 1 || NothingBehindUnlimited(ratios, max))
                 && (maxGas == TWO_TO_64 - 1 || NothingBehindUnlimited(ratios, maxGas))
  {
    hide LimitMisleads, Share, SumRatios;
    var p0 := NewProposal(max, maxGas);
    if max < TWO_TO_63 - 1 && !NothingBehindUnlimited(ratios, max) {
      var i, j :| 0 <= i < j < |ratios| && ratios[i] == 0 && Share(ratios[j], max) != 0;
      var parts := SizeMisleads(p0, ratios, i, j);
    } else if maxGas < TWO_TO_64 - 1 && !NothingBehindUnlimited(ratios, maxGas) {
      var i, j :| 0 <= i < j < |ratios| && ratios[i] == 0 && Share(ratios[j], maxGas) != 0;
      var parts := GasMisleads(p0, ratios, i, j);
    } else {
      assert RealLimitsHold(ratios, max, maxGas);
      hide *;
      forall parts: seq<Part>, part: Part ensures !LimitMisleads(p0, ratios, parts, part) {
        NothingMisleads(max, maxGas, ratios, parts, part);
      }
    }
  }

  predicate RealLimitsHold(ratios: seq<Ratio>, max: int64, maxGas: uint64) {
    && 0 <= max
    && (max == TWO_TO_63 - 1 || NothingBehindUnlimited(ratios, max))
    && (maxGas == TWO_TO_64 - 1 || NothingBehindUnlimited(ratios, maxGas))
  }

  lemma NothingMisleads(max: int64, maxGas: uint64, ratios: seq<Ratio>, parts: seq<Part>, part: Part)
    requires SumRatios(ratios) <= PRECISION && RealLimitsHold(ratios, max, maxGas)
    ensures !LimitMisleads(NewProposal(max, maxGas), ratios, parts, part)
  {
    var p0 := NewProposal(max, maxGas);
    if |parts| < |ratios| && Fill(p0, ratios, parts).Some? {
      FillsWithin(p0, ratios, parts);
      var p := Fill(p0, ratios, parts).value;
      hide Fill, SumRatios, NothingBehindUnlimited, SizeWithin, GasWithin, FitsLane, FitsBlock;
      if 0 <= part.size && FitsLane(p, ratios[|parts|], part.size, part.gas) { NeverMisleads(p, ratios, |parts|, part); }
    }
  }

  /** Whatever limits are real are respected as long as nothing behind an unlimited lane has a share. */
  lemma {:induction false} FillsWithin(p0: Prop, ratios: seq<Ratio>, parts: seq<Part>)
    requires SumRatios(ratios) <= PRECISION && 0 <= p0.maxBlockSize && p0.blockSize == 0 && p0.gasLimit == 0
    requires |parts| <= |ratios| && Fill(p0, ratios, parts).Some?
    ensures var p := Fill(p0, ratios, parts).value;
            && p.maxBlockSize == p0.maxBlockSize && p.maxGasLimit == p0.maxGasLimit
            && (NothingBehindUnlimited(ratios, p.maxBlockSize) ==> SizeWithin(p, ratios, |parts|))
            && (NothingBehindUnlimited(ratios, p.maxGasLimit) ==> GasWithin(p, ratios, |parts|))
  {
    if parts == [] {
      assert ratios[..0] == [];
    } else {
      var n := |parts| - 1;
      FillsWithin(p0, ratios, parts[..n]);
      hide SumRatios, NothingBehindUnlimited, SizeWithin, GasWithin, GetLaneLimits;
      var before, part := Fill(p0, ratios, parts[..n]).value, parts[n];
      if NothingBehindUnlimited(ratios, before.maxBlockSize) { SizeStep(before, ratios, n, part.size, part.gas); }
      if NothingBehindUnlimited(ratios, before.maxGasLimit) { GasStep(before, ratios, n, part.size, part.gas); }
    }
  }

  lemma NeverMisleads(p: Prop, ratios: seq<Ratio>, n: nat, part: Part)
    requires SumRatios(ratios) <= PRECISION && 0 <= p.maxBlockSize && n < |ratios|
    requires p.maxBlockSize == TWO_TO_63 - 1 || (NothingBehindUnlimited(ratios, p.maxBlockSize) && SizeWithin(p, ratios, n))
    requires p.maxGasLimit == TWO_TO_64 - 1 || (NothingBehindUnlimited(ratios, p.maxGasLimit) && GasWithin(p, ratios, n))
    requires 0 <= part.size && FitsLane(p, ratios[n], part.size, part.gas)
    ensures FitsBlock(p, part.size, part.gas)
  {
    hide SumRatios, NothingBehindUnlimited, SizeWithin, GasWithin, GetLaneLimits;
    if p.maxBlockSize < TWO_TO_63 - 1 { SizeStep(p, ratios, n, part.size, part.gas); }
    if p.maxGasLimit < TWO_TO_64 - 1 { GasStep(p, ratios, n, part.size, part.gas); }
  }

  /** Lanes may add nothing. */
  lemma {:induction false} AddNothing(p0: Prop, ratios: seq<Ratio>, parts: seq<Part>, n: nat) returns (padded: seq<Part>)
    requires |parts| <= n <= |ratios| && Fill(p0, ratios, parts).Some?
    requires var p := Fill(p0, ratios, parts).value; 0 <= p.blockSize <= p.maxBlockSize && p.gasLimit <= p.maxGasLimit
    ensures |padded| == n && Fill(p0, ratios, padded) == Fill(p0, ratios, parts)
    decreases n - |parts|
  {
    if |parts| == n {
      padded := parts;
    } else {
      var more := parts + [Part(0, 0)];
      assert more[..|parts|] == parts;
      hide Share;
      padded := AddNothing(p0, ratios, more, n);
    }
  }

  lemma SizeMisleads(p0: Prop, ratios: seq<Ratio>, i: nat, j: nat) returns (parts: seq<Part>)
    requires p0.blockSize == 0 && p0.gasLimit == 0 && 0 <= p0.maxBlockSize < TWO_TO_63 - 1
    requires i < j < |ratios| && ratios[i] == 0 && Share(ratios[j], p0.maxBlockSize) != 0
    ensures LimitMisleads(p0, ratios, parts, Part(1, 0))
  {
    var before := AddNothing(p0, ratios, [], i);
    var full := before + [Part(p0.maxBlockSize, 0)];
    assert full[..i] == before;
    hide Share, SumRatios;
    assert Fill(p0, ratios, full) == Some(p0.(blockSize := p0.maxBlockSize));
    parts := AddNothing(p0, ratios, full, j);
  }

  lemma GasMisleads(p0: Prop, ratios: seq<Ratio>, i: nat, j: nat) returns (parts: seq<Part>)
    requires p0.blockSize == 0 && p0.gasLimit == 0 && 0 <= p0.maxBlockSize && p0.maxGasLimit < TWO_TO_64 - 1
    requires i < j < |ratios| && ratios[i] == 0 && Share(ratios[j], p0.maxGasLimit) != 0
    ensures LimitMisleads(p0, ratios, parts, Part(0, 1))
  {
    var before := AddNothing(p0, ratios, [], i);
    var full := before + [Part(0, p0.maxGasLimit)];
    assert full[..i] == before;
    hide Share, SumRatios;
    assert Fill(p0, ratios, full) == Some(p0.(gasLimit := p0.maxGasLimit));
    parts := AddNothing(p0, ratios, full, j);
  }

  // ----- the chain ------------------------------------------------------------------------

  function Ratios(lanes: seq<Lane>): (r: seq<Ratio>)
    ensures |r| == |lanes| && forall i :: 0 <= i < |lanes| ==> r[i] == lanes[i].cfg.ratio
  {
    if lanes == [] then [] else [lanes[0].cfg.ratio] + Ratios(lanes[1..])
  }

  /** Whatever the lane selects, its size fits an int64: its pool's does, or the block is of fewer than
      2^62 bytes and each bid with its bundle fits. */
  ghost predicate SelectionFits(lane: Lane, maxBlockSize: int64) {
    PoolSize(lane) < TWO_TO_63 || (maxBlockSize < TWO_TO_63 / 2 && BidsFit(lane))
  }

  /** Where the shares leave room, UpdateProposal never rejects what a default or MEV lane selected: the
      lane contributes if and only if its handler succeeds, and stays within its share. */
  lemma LaneAlwaysContributes(lanes: seq<Lane>, n: nat, p: Prop, st: State)
    requires n < |lanes| && SumRatios(Ratios(lanes)) <= PRECISION && NothingBehind(Ratios(lanes), p)
    requires WithinShares(p, Ratios(lanes), n) && lanes[n].cfg.name !in p.txsByLane
    requires !lanes[n].cfg.handlers.CustomHandlers? && SelectionFits(lanes[n], p.maxBlockSize)
    ensures PrepareLane(lanes[n], st, p).Contributed? <==> Prepare(lanes[n], p, st).Selected?
    ensures PrepareLane(lanes[n], st, p).Contributed? ==>
              && WithinShares(PrepareLane(lanes[n], st, p).prop, Ratios(lanes), n + 1)
              && SameLimits(p, PrepareLane(lanes[n], st, p).prop)
              && PrepareLane(lanes[n], st, p).prop.txsByLane.Keys <= p.txsByLane.Keys + {lanes[n].cfg.name}
  {
    hide *;
    SizesInRange(p, Ratios(lanes), n);
    PrepareLaneIs(lanes[n], st, p);
    if Prepare(lanes[n], p, st).Selected? {
      PassesLaneChecks(lanes[n], p, st);
      var infos := InfosOf(lanes[n].cfg.codec, Prepare(lanes[n], p, st).include_).value;
      UpdateWithinShares(p, Ratios(lanes), n, lanes[n].cfg.name, infos);
    }
  }

  /** PrepareLane from its parts: the handler, the infos and the update. */
  lemma PrepareLaneIs(lane: Lane, st: State, p: Prop)
    ensures var r := Prepare(lane, p, st);
            PrepareLane(lane, st, p).Contributed?
            <==> r.Selected? && InfosOf(lane.cfg.codec, r.include_).Some?
                 && Update(p, lane.cfg.name, lane.cfg.ratio, InfosOf(lane.cfg.codec, r.include_).value).Some?
    ensures var r, s := Prepare(lane, p, st), PrepareLane(lane, st, p);
            s.Contributed? ==> s.prop == Update(p, lane.cfg.name, lane.cfg.ratio, InfosOf(lane.cfg.codec, r.include_).value).value
  {
    hide Prepare, InfosOf, Update;
  }

  ghost predicate SameLimits(p: Prop, q: Prop) {
    p.maxBlockSize == q.maxBlockSize && p.maxGasLimit == q.maxGasLimit
  }

  lemma SizesInRange(p: Prop, ratios: seq<Ratio>, n: nat)
    requires SumRatios(ratios) <= PRECISION && n <= |ratios| && WithinShares(p, ratios, n)
    ensures 0 <= p.blockSize <= p.maxBlockSize
  {
    Allots(ratios, n, p.maxBlockSize);
  }

  lemma PassesLaneChecks(lane: Lane, p: Prop, st: State)
    requires !lane.cfg.handlers.CustomHandlers? && SelectionFits(lane, p.maxBlockSize) && Prepare(lane, p, st).Selected?
    requires 0 <= p.blockSize <= p.maxBlockSize
    ensures var r := Prepare(lane, p, st);
            && InfosOf(lane.cfg.codec, r.include_).Some?
            && var infos := InfosOf(lane.cfg.codec, r.include_).value;
               && TotalSize(infos) < TWO_TO_63
               && (infos != [] ==> FitsLane(p, lane.cfg.ratio, WrapInt64(TotalSize(infos)), WrapUint64(TotalGas(infos))))
               && (Update(p, lane.cfg.name, lane.cfg.ratio, infos).None?
                   <==> infos != [] && (lane.cfg.name in p.txsByLane
                                        || !FitsBlock(p, WrapInt64(TotalSize(infos)), WrapUint64(TotalGas(infos)))))
  {
    if lane.cfg.handlers.MevHandlers? {
      MevPassesLaneChecks(lane.cfg, p, st, lane.pool);
    } else {
      GreedyPassesLaneChecks(lane.cfg, p, st, lane.pool);
    }
    SelectionSize(lane, st, p);
    if PoolSize(lane) >= TWO_TO_63 { SelectionIsSmall(lane, st, p); }
    SizeIsEncoded(lane.cfg.codec, Prepare(lane, p, st).include_);
    hide Update, InfosOf, WrapInt64, WrapUint64, FitsLane, FitsBlock, PoolSize, BidsFit, EncodedSize;
  }

  lemma UpdateWithinShares(p: Prop, ratios: seq<Ratio>, n: nat, name: string, infos: seq<TxWithInfo>)
    requires SumRatios(ratios) <= PRECISION && NothingBehind(ratios, p)
    requires n < |ratios| && WithinShares(p, ratios, n) && name !in p.txsByLane
    requires TotalSize(infos) < TWO_TO_63
    requires Update(p, name, ratios[n], infos).None?
             <==> infos != [] && (name in p.txsByLane || !FitsBlock(p, WrapInt64(TotalSize(infos)), WrapUint64(TotalGas(infos))))
    requires infos != [] ==> FitsLane(p, ratios[n], WrapInt64(TotalSize(infos)), WrapUint64(TotalGas(infos)))
    ensures Update(p, name, ratios[n], infos).Some?
    ensures WithinShares(Update(p, name, ratios[n], infos).value, ratios, n + 1)
    ensures SameLimits(p, Update(p, name, ratios[n], infos).value)
    ensures Update(p, name, ratios[n], infos).value.txsByLane.Keys <= p.txsByLane.Keys + {name}
  {
    hide Share, SumRatios, NothingBehindUnlimited, FitsLane, FitsBlock, TotalSize, TotalGas, SizeWithin, GasWithin, GetLaneLimits;
    if infos == [] {
      SkippedLane(p, ratios, n);
    } else {
      LaneLimitSuffices(p, ratios, n, TotalSize(infos), WrapUint64(TotalGas(infos)));
      SameShares(Update(p, name, ratios[n], infos).value, Grown(p, TotalSize(infos), WrapUint64(TotalGas(infos))), ratios, n + 1);
    }
  }

  lemma SameShares(p: Prop, q: Prop, ratios: seq<Ratio>, n: nat)
    requires n <= |ratios| && WithinShares(q, ratios, n) && SameLimits(p, q)
    requires p.blockSize == q.blockSize && p.gasLimit == q.gasLimit
    ensures WithinShares(p, ratios, n)
  {
  }

  /** A lane that contributes nothing leaves room for the next. */
  lemma SkippedLane(p: Prop, ratios: seq<Ratio>, n: nat)
    requires SumRatios(ratios) <= PRECISION && NothingBehind(ratios, p) && n < |ratios| && WithinShares(p, ratios, n)
    ensures WithinShares(p, ratios, n + 1)
  {
    hide SumRatios, NothingBehindUnlimited, SizeWithin, GasWithin;
    SizeStep(p, ratios, n, 0, 0);
    GasStep(p, ratios, n, 0, 0);
    SizesInRange(p, ratios, n);
    SameShares(p, Grown(p, 0, 0), ratios, n + 1);
  }

  /** The lanes whose handlers succeed when their turn comes. */
  function Succeeding(lanes: seq<Lane>, st: State, p: Prop): seq<Lane> {
    if lanes == [] then []
    else
      (if Prepare(lanes[0], p, st).Selected? then [lanes[0]] else [])
      + match PrepareLane(lanes[0], st, p)
        case LaneFailed => Succeeding(lanes[1..], st, p)
        case Contributed(p', st', _) => Succeeding(lanes[1..], st', p')
  }

  ghost predicate OwnNames(lanes: seq<Lane>) {
    forall i, j :: 0 <= i < j < |lanes| ==> lanes[i].cfg.name != lanes[j].cfg.name
  }

  /** The lanes from `n` on are default or MEV lanes whose selections fit, and have not contributed. */
  ghost predicate FreshFrom(lanes: seq<Lane>, n: nat, p: Prop) {
    forall i :: n <= i < |lanes| ==>
      lanes[i].cfg.name !in p.txsByLane && !lanes[i].cfg.handlers.CustomHandlers? && SelectionFits(lanes[i], p.maxBlockSize)
  }

  lemma FreshNow(lanes: seq<Lane>, n: nat, p: Prop)
    requires n < |lanes| && FreshFrom(lanes, n, p)
    ensures lanes[n].cfg.name !in p.txsByLane && !lanes[n].cfg.handlers.CustomHandlers? && SelectionFits(lanes[n], p.maxBlockSize)
  {
  }

  lemma FreshNext(lanes: seq<Lane>, n: nat, p: Prop, q: Prop)
    requires n < |lanes| && OwnNames(lanes) && FreshFrom(lanes, n, p)
    requires SameLimits(p, q) && q.txsByLane.Keys <= p.txsByLane.Keys + {lanes[n].cfg.name}
    ensures FreshFrom(lanes, n + 1, q)
  {
    hide SelectionFits;
  }

  /** No lane is crowded out: the lanes that fail while building are exactly those whose own handler
      fails, whatever the lanes before them took. */
  lemma {:induction false} NoLaneIsCrowdedOut(lanes: seq<Lane>, n: nat, p: Prop, st: State)
    requires n <= |lanes| && SumRatios(Ratios(lanes)) <= PRECISION && NothingBehind(Ratios(lanes), p)
    requires WithinShares(p, Ratios(lanes), n)
    requires OwnNames(lanes) && FreshFrom(lanes, n, p)
    ensures Survivors(lanes[n..], st, p) == Succeeding(lanes[n..], st, p)
    decreases |lanes| - n
  {
    if n < |lanes| {
      assert lanes[n..][1..] == lanes[n + 1..] && lanes[n..][0] == lanes[n];
      SurvivorsStep(lanes[n..], st, p);
      hide *;
      FreshNow(lanes, n, p);
      LaneAlwaysContributes(lanes, n, p, st);
      if PrepareLane(lanes[n], st, p).Contributed? {
        var s := PrepareLane(lanes[n], st, p);
        FreshNext(lanes, n, p, s.prop);
        SameNothingBehind(Ratios(lanes), p, s.prop);
        NoLaneIsCrowdedOut(lanes, n + 1, s.prop, s.state);
      } else {
        SkippedLane(p, Ratios(lanes), n);
        SameAsItself(p);
        FreshNext(lanes, n, p, p);
        NoLaneIsCrowdedOut(lanes, n + 1, p, st);
      }
    } else {
      assert lanes[n..] == [];
    }
  }

  lemma SameAsItself(p: Prop)
    ensures SameLimits(p, p)
  {
  }

  lemma SameNothingBehind(ratios: seq<Ratio>, p: Prop, q: Prop)
    requires NothingBehind(ratios, p) && SameLimits(p, q)
    ensures NothingBehind(ratios, q) && q.maxBlockSize == p.maxBlockSize
  {
  }

  lemma SurvivorsStep(lanes: seq<Lane>, st: State, p: Prop)
    requires lanes != []
    ensures var s := PrepareLane(lanes[0], st, p);
            && Survivors(lanes, st, p) == (if s.LaneFailed? then Survivors(lanes[1..], st, p)
                                           else [lanes[0]] + Survivors(lanes[1..], s.state, s.prop))
            && Succeeding(lanes, st, p) == (if Prepare(lanes[0], p, st).Selected? then [lanes[0]] else [])
                                           + (if s.LaneFailed? then Succeeding(lanes[1..], st, p)
                                              else Succeeding(lanes[1..], s.state, s.prop))
  {
    hide PrepareLane, Prepare;
  }

  /** The ante handler never panics. */
  ghost predicate NeverPanics(cfg: LaneConfig) {
    forall st: State, tx: Tx :: !VerifyTx(cfg, st, tx).Panicked?
  }

  lemma {:induction false} GreedySucceeds(cfg: LaneConfig, p: Prop, limit: LaneLimits, pool: seq<Tx>, size: int64, gas: uint64, st: State)
    requires NeverPanics(cfg)
    ensures Greedy(cfg, p, limit, pool, size, gas, st).Selected?
  {
    if pool != [] {
      assert !VerifyTx(cfg, st, pool[0]).Panicked?;
      assert !Judge(cfg, p, limit, pool[0], size, gas, st).Crash?;
      hide Judge, NeverPanics, WrapInt64, WrapUint64;
      match Judge(cfg, p, limit, pool[0], size, gas, st)
      case Skip => GreedySucceeds(cfg, p, limit, pool[1..], size, gas, st);
      case Drop => GreedySucceeds(cfg, p, limit, pool[1..], size, gas, st);
      case Take(info, st') =>
        GreedySucceeds(cfg, p, limit, pool[1..], WrapInt64(size + info.size), WrapUint64(gas + info.gasLimit), st');
    }
  }

  lemma {:induction false} BundleSucceeds(cfg: LaneConfig, st: State, bundle: seq<Tx>)
    requires NeverPanics(cfg)
    ensures !VerifyBundle(cfg, st, bundle).Panicked?
  {
    if bundle != [] {
      var r := VerifyTx(cfg, st, bundle[0]);
      if r.Passed? { BundleSucceeds(cfg, r.state, bundle[1..]); }
    }
  }

  lemma {:induction false} MevSucceeds(cfg: LaneConfig, p: Prop, limit: LaneLimits, pool: seq<Tx>, st: State)
    requires NeverPanics(cfg)
    ensures PrepareMev(cfg, p, limit, pool, st).Selected?
  {
    if pool != [] {
      var r := VerifyTx(cfg, st, pool[0]);
      var bundle := VerifyBidBasic(cfg, pool[0], p, limit);
      if r.Passed? && bundle.Some? { BundleSucceeds(cfg, r.state, bundle.value); }
      MevSucceeds(cfg, p, limit, pool[1..], st);
    }
  }

  lemma HandlerSucceeds(lane: Lane, st: State, p: Prop)
    requires !lane.cfg.handlers.CustomHandlers? && NeverPanics(lane.cfg)
    ensures Prepare(lane, p, st).Selected?
  {
    hide NeverPanics, PrepareMev, Greedy;
    if lane.cfg.handlers.MevHandlers? {
      MevSucceeds(lane.cfg, p, GetLaneLimits(p, lane.cfg.ratio), lane.pool, st);
    } else {
      GreedySucceeds(lane.cfg, p, GetLaneLimits(p, lane.cfg.ratio), lane.pool, 0, 0, st);
    }
  }

  lemma {:induction false} AllSucceed(lanes: seq<Lane>, st: State, p: Prop)
    requires forall i :: 0 <= i < |lanes| ==> !lanes[i].cfg.handlers.CustomHandlers? && NeverPanics(lanes[i].cfg)
    ensures Succeeding(lanes, st, p) == lanes
  {
    if lanes != [] {
      HandlerSucceeds(lanes[0], st, p);
      hide PrepareLane, Prepare, NeverPanics;
      match PrepareLane(lanes[0], st, p)
      case LaneFailed => AllSucceed(lanes[1..], st, p);
      case Contributed(p', st', _) => AllSucceed(lanes[1..], st', p');
    }
  }

  /** In a registry with nothing behind an unlimited lane, whose ante handlers do not panic, every lane
      contributes to a new block. */
  lemma EveryLaneContributes(lanes: seq<Lane>, st: State, maxBlockSize: int64, maxGasLimit: uint64)
    requires OwnNames(lanes) && SumRatios(Ratios(lanes)) <= PRECISION && NothingBehind(Ratios(lanes), NewProposal(maxBlockSize, maxGasLimit))
    requires forall i :: 0 <= i < |lanes| ==>
               !lanes[i].cfg.handlers.CustomHandlers? && NeverPanics(lanes[i].cfg) && SelectionFits(lanes[i], maxBlockSize)
    ensures Survivors(lanes, st, NewProposal(maxBlockSize, maxGasLimit)) == lanes
  {
    var p := NewProposal(maxBlockSize, maxGasLimit);
    hide SumRatios, NothingBehindUnlimited, SelectionFits, NeverPanics, OwnNames, Survivors, FreshFrom, WithinShares, Ratios, Succeeding;
    assert p.maxBlockSize >= 0 && p.blockSize == 0 && p.gasLimit == 0 && p.txsByLane == map[] && p.maxBlockSize == maxBlockSize;
    StartsWithin(Ratios(lanes), p);
    StartsFresh(lanes, p);
    assert lanes[0..] == lanes;
    NoLaneIsCrowdedOut(lanes, 0, p, st);
    AllSucceed(lanes, st, p);
  }

  lemma StartsWithin(ratios: seq<Ratio>, p: Prop)
    requires 0 <= p.maxBlockSize && p.blockSize == 0 && p.gasLimit == 0
    ensures WithinShares(p, ratios, 0)
  {
    hide Allotted;
  }

  lemma StartsFresh(lanes: seq<Lane>, p: Prop)
    requires p.txsByLane == map[]
    requires forall i :: 0 <= i < |lanes| ==> !lanes[i].cfg.handlers.CustomHandlers? && SelectionFits(lanes[i], p.maxBlockSize)
    ensures FreshFrom(lanes, 0, p)
  {
    hide SelectionFits;
  }
}
