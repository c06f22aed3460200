// When the L2 chain activates Isthmus: the fork time written into both L2
// documents, the activation rule, and the withdrawals root of the genesis header.
module ForkSchedule {
  import opened Text
  import opened JsonMerge

  // uint64 arithmetic wraps around.
  const U64 := 0x1_0000_0000_0000_0000

  // isTimestampForked
  predicate IsTimestampForked(fork: Option<nat>, head: nat) {
    fork.Some? && fork.value <= head
  }

  function OpTimestamp(genesisTime: nat): nat { (genesisTime + 2) % U64 }

  // latestFork is the number of the first Isthmus block, None if not enabled.
  function ForkTime(opTimestamp: nat, blockTime: nat, latestFork: Option<nat>): Option<nat> {
    match latestFork
    case None => None
    case Some(n) => Some(if n != 0 then (opTimestamp + blockTime * n % U64) % U64 else 0)
  }

  // ----- the schedule -----

  function BlockTime(opTimestamp: nat, blockTime: nat, i: nat): nat { opTimestamp + blockTime * i }

  // Every block whose time fits into 64 bits is active exactly from block n on.
  ghost predicate ActivatesFromBlock(opTimestamp: nat, blockTime: nat, latestFork: Option<nat>) {
    forall i: nat :: BlockTime(opTimestamp, blockTime, i) < U64 ==>
      (IsTimestampForked(ForkTime(opTimestamp, blockTime, latestFork), BlockTime(opTimestamp, blockTime, i))
       <==> latestFork.Some? && latestFork.value <= i)
  }

  // The last block whose time fits.
  function LastBlock(opTimestamp: nat, blockTime: nat): nat
    requires blockTime > 0 && opTimestamp < U64
  {
    (U64 - 1 - opTimestamp) / blockTime
  }

  lemma MulMonotone(a: nat, i: nat, j: nat)
    requires i <= j
    ensures a * i <= a * j
  {
    assert a * j == a * i + a * (j - i);
  }

  lemma MulStrict(a: nat, i: nat, j: nat)
    requires a > 0 && i < j
    ensures a * i < a * j
  {
    MulMonotone(a, i + 1, j);
    assert a * (i + 1) == a * i + a;
  }

  lemma LastBlockFits(opTimestamp: nat, blockTime: nat, i: nat)
    requires blockTime > 0 && opTimestamp < U64
    ensures BlockTime(opTimestamp, blockTime, i) < U64 <==> i <= LastBlock(opTimestamp, blockTime)
  {
    var room, last := U64 - 1 - opTimestamp, LastBlock(opTimestamp, blockTime);
    assert blockTime * last <= room < blockTime * last + blockTime;
    if i <= last {
      MulMonotone(blockTime, i, last);
    } else {
      MulMonotone(blockTime, last + 1, i);
      assert blockTime * (last + 1) == blockTime * last + blockTime;
    }
  }

  lemma WrapTwice(a: nat, b: nat)
    ensures (a + b % U64) % U64 == (a + b) % U64
  {
    var q := b / U64;
    assert b == q * U64 + b % U64;
    AddMultiple(a + b % U64, q);
  }

  lemma {:induction false} AddMultiple(a: nat, q: nat)
    ensures (a + q * U64) % U64 == a % U64
  {
    if q > 0 {
      AddMultiple(a, q - 1);
      assert a + q * U64 == (a + (q - 1) * U64) + U64;
    }
  }

  // The schedule is right exactly when the fork is off or at genesis, or time
  // advances and the fork time either fits into 64 bits or wraps to a time after
  // the last block there can be.
  lemma ScheduleExact(opTimestamp: nat, blockTime: nat, latestFork: Option<nat>)
    requires opTimestamp < U64
    ensures ActivatesFromBlock(opTimestamp, blockTime, latestFork) <==>
            latestFork.None? || latestFork.value == 0 ||
            (blockTime > 0 &&
             (BlockTime(opTimestamp, blockTime, latestFork.value) < U64 ||
              BlockTime(opTimestamp, blockTime, LastBlock(opTimestamp, blockTime))
                < BlockTime(opTimestamp, blockTime, latestFork.value) % U64))
  {
    if latestFork.Some? && latestFork.value != 0 {
      var n := latestFork.value;
      WrapTwice(opTimestamp, blockTime * n);
      assert ForkTime(opTimestamp, blockTime, latestFork) == Some(BlockTime(opTimestamp, blockTime, n) % U64);
      if blockTime == 0 {
        assert BlockTime(opTimestamp, blockTime, n) == opTimestamp == BlockTime(opTimestamp, blockTime, 0);
      } else if BlockTime(opTimestamp, blockTime, n) < U64 {
        forall i: nat
          ensures BlockTime(opTimestamp, blockTime, n) <= BlockTime(opTimestamp, blockTime, i) <==> n <= i
        {
          if n <= i { MulMonotone(blockTime, n, i); } else { MulStrict(blockTime, i, n); }
        }
      } else {
        ScheduleWrapped(opTimestamp, blockTime, n);
      }
    }
  }

  lemma ScheduleWrapped(opTimestamp: nat, blockTime: nat, n: nat)
    requires opTimestamp < U64 && blockTime > 0 && n > 0 && BlockTime(opTimestamp, blockTime, n) >= U64
    requires ForkTime(opTimestamp, blockTime, Some(n)) == Some(BlockTime(opTimestamp, blockTime, n) % U64)
    ensures ActivatesFromBlock(opTimestamp, blockTime, Some(n)) <==>
            BlockTime(opTimestamp, blockTime, LastBlock(opTimestamp, blockTime))
              < BlockTime(opTimestamp, blockTime, n) % U64
  {
    var last, fork := LastBlock(opTimestamp, blockTime), BlockTime(opTimestamp, blockTime, n) % U64;
    LastBlockFits(opTimestamp, blockTime, n);
    LastBlockFits(opTimestamp, blockTime, last);
    forall i: nat | BlockTime(opTimestamp, blockTime, i) < U64
      ensures i <= last < n && BlockTime(opTimestamp, blockTime, i) <= BlockTime(opTimestamp, blockTime, last)
    {
      LastBlockFits(opTimestamp, blockTime, i);
      MulMonotone(blockTime, i, last);
    }
  }

  // With blocks of two seconds and the fork at block 2^63 the fork time wraps to
  // the start time itself, whatever the clock says, and block 0 is already active.
  lemma ScheduleCanWrap(opTimestamp: nat)
    requires opTimestamp < U64
    ensures ForkTime(opTimestamp, 2, Some(0x8000_0000_0000_0000)) == Some(opTimestamp)
    ensures !ActivatesFromBlock(opTimestamp, 2, Some(0x8000_0000_0000_0000))
  {
    hide ForkTime;
    WrappedForkTime(opTimestamp);
    assert BlockTime(opTimestamp, 2, 0) == opTimestamp;
  }

  lemma WrappedForkTime(opTimestamp: nat)
    requires opTimestamp < U64
    ensures ForkTime(opTimestamp, 2, Some(0x8000_0000_0000_0000)) == Some(opTimestamp)
  {
    assert 2 * 0x8000_0000_0000_0000 % U64 == 0;
  }

  // ----- the two documents -----

  const PREFUNDED := Object(map["balance" := Leaf(Str("0x10000000000000000000000")), "nonce" := Leaf(Str("0x1"))])

  function ForkConfig(forkTime: nat): Json {
    Object(map["pragueTime" := Leaf(Number(forkTime)), "isthmusTime" := Leaf(Number(forkTime))])
  }

  // The override of the L2 genesis document, built entry by entry.
  method GenesisInput(
    opTimestamp: nat, forkTime: Option<nat>, prefunded: seq<string>) returns (input: map<string, Json>)
    ensures IsGenesisInput(input, opTimestamp, forkTime, prefunded)
  {
    input := map["timestamp" := Leaf(Quantity(opTimestamp))];
    if forkTime.Some? {
      input := input["config" := ForkConfig(forkTime.value)];
    }
    var allocs: map<string, Json> := map[];
    for k := 0 to |prefunded|
      invariant allocs == map a | a in prefunded[..k] :: PREFUNDED
    {
      assert prefunded[..k + 1] == prefunded[..k] + [prefunded[k]];
      allocs := allocs[prefunded[k] := PREFUNDED];
    }
    assert prefunded[..|prefunded|] == prefunded;
    input := input["alloc" := Object(allocs)];
  }

  // A block of the rollup document.
  function Block(hash: string): Json { Object(map["hash" := Leaf(Str(hash)), "number" := Leaf(Number(0))]) }

  // The override of the rollup document.
  method RollupInput(opTimestamp: nat, blockTime: nat, forkTime: Option<nat>, l1Hash: string, l2Hash: string)
    returns (input: map<string, Json>)
    ensures IsRollupInput(input, opTimestamp, blockTime, forkTime, l1Hash, l2Hash)
  {
    input := map[
      "genesis" := Object(map["l2_time" := Leaf(Number(opTimestamp)),
                              "l1" := Object(map["hash" := Leaf(Str(l1Hash)), "number" := Leaf(Number(0))]),
                              "l2" := Object(map["hash" := Leaf(Str(l2Hash)), "number" := Leaf(Number(0))])]),
      "block_time" := Leaf(Number(blockTime)),
      "chain_op_config" := Object(map["eip1559Elasticity" := Leaf(Number(6)), "eip1559Denominator" := Leaf(Number(50)),
                                      "eip1559DenominatorCanyon" := Leaf(Number(250))])];
    if forkTime.Some? {
      input := input["isthmus_time" := Leaf(Number(forkTime.value))];
    }
  }

  // How a document's fork time is read back.
  function TimeAt(doc: Json, path: seq<string>): Option<nat> {
    match Lookup(doc, path)
    case Some(Leaf(Number(t))) => Some(t)
    case Some(Leaf(Quantity(t))) => Some(t)
    case _ => None
  }

  const GENESIS_ISTHMUS := ["config", "isthmusTime"]
  const GENESIS_PRAGUE := ["config", "pragueTime"]
  const ROLLUP_ISTHMUS := ["isthmus_time"]

  // What the libraries make of a genesis document: whether Shanghai is active in
  // it (None without a chain configuration), the storage root of the message
  // passer, and the hash of the block with the given withdrawals hash.
  datatype Chain = Chain(
    shanghai: Json -> Option<bool>,
    messagePasserRoot: Json -> Hash,
    blockHash: (Json, Option<Hash>) -> string)

  datatype BuildResult = Built(genesis: Json, header: Option<Hash>, rollup: Json) | BuildPanic

  // The L2 part of ArtifactsBuilder.Build, on the parsed original documents.
  method BuildL2Documents(
    genesisTime: nat, blockTime: nat, latestFork: Option<nat>, prefunded: seq<string>,
    opGenesis: map<string, Json>, opRollup: map<string, Json>, l1Hash: string, chain: Chain)
    returns (r: BuildResult)
    ensures r.Built? ==>
              var opTimestamp := (genesisTime + 2) % 0x1_0000_0000_0000_0000;
              var forkTime := ForkTime(opTimestamp, blockTime, latestFork);
              var l2Hash := chain.blockHash(r.genesis, r.header);
              GenesisDocument(r.genesis, opGenesis, opTimestamp, forkTime, prefunded) &&
              RollupDocument(r.rollup, opRollup, opTimestamp, blockTime, forkTime, l1Hash, l2Hash) &&
              HeaderOf(chain, r.genesis, opTimestamp) == Header(r.header)
    ensures r.Built? ==>
              var opTimestamp := OpTimestamp(genesisTime);
              var forkTime := ForkTime(opTimestamp, blockTime, latestFork);
              GenesisTimes(r.genesis, opTimestamp, forkTime, TimeAt(Object(opGenesis), GENESIS_ISTHMUS)) &&
              RollupTimes(r.rollup, opTimestamp, blockTime, forkTime, TimeAt(Object(opRollup), ROLLUP_ISTHMUS))
    ensures r.Built? ==>
              (TimeAt(r.genesis, GENESIS_ISTHMUS) == TimeAt(r.rollup, ROLLUP_ISTHMUS) <==>
               latestFork.Some? ||
               TimeAt(Object(opGenesis), GENESIS_ISTHMUS) == TimeAt(Object(opRollup), ROLLUP_ISTHMUS))
    ensures (forall j :: chain.shanghai(j) == Some(true)) ==> r.Built?
  {
    hide Merge, Lookup, TimeAt, GenesisDocument, RollupDocument;
    var opTimestamp := OpTimestamp(genesisTime);
    var forkTime := ForkTime(opTimestamp, blockTime, latestFork);
    var genesis := BuildGenesis(opTimestamp, forkTime, prefunded, opGenesis);
    var isthmusTime, timestamp := TimeAt(genesis, GENESIS_ISTHMUS), TimeAt(genesis, ["timestamp"]).value;
    var header := WithdrawalsHash(
      chain.shanghai(genesis), isthmusTime, timestamp, chain.messagePasserRoot(genesis));
    if !header.Header? {
      return BuildPanic;
    }
    var genesisHash := chain.blockHash(genesis, header.withdrawalsHash);
    var rollup := BuildRollup(opTimestamp, blockTime, forkTime, opRollup, l1Hash, genesisHash);
    return Built(genesis, header.withdrawalsHash, rollup);
  }

  method BuildGenesis(opTimestamp: nat, forkTime: Option<nat>, prefunded: seq<string>, opGenesis: map<string, Json>)
    returns (genesis: Json)
    ensures GenesisDocument(genesis, opGenesis, opTimestamp, forkTime, prefunded)
    ensures GenesisTimes(genesis, opTimestamp, forkTime, TimeAt(Object(opGenesis), GENESIS_ISTHMUS))
  {
    hide Merge, Lookup, TimeAt, GenesisTimes, GenesisDocument;
    var input := GenesisInput(opTimestamp, forkTime, prefunded);
    genesis := Merge(Object(opGenesis), Object(input));
    GenesisReads(opGenesis, input, opTimestamp, forkTime, prefunded);
    GenesisTimesRead(genesis, opGenesis, opTimestamp, forkTime, prefunded);
  }

  method BuildRollup(
    opTimestamp: nat, blockTime: nat, forkTime: Option<nat>, opRollup: map<string, Json>, l1Hash: string,
    l2Hash: string)
    returns (rollup: Json)
    ensures RollupDocument(rollup, opRollup, opTimestamp, blockTime, forkTime, l1Hash, l2Hash)
    ensures RollupTimes(rollup, opTimestamp, blockTime, forkTime, TimeAt(Object(opRollup), ROLLUP_ISTHMUS))
  {
    hide Merge, Lookup, TimeAt, RollupTimes, RollupDocument;
    var input := RollupInput(opTimestamp, blockTime, forkTime, l1Hash, l2Hash);
    rollup := Merge(Object(opRollup), Object(input));
    RollupReads(opRollup, input, opTimestamp, blockTime, forkTime, l1Hash, l2Hash);
    RollupTimesRead(rollup, opRollup, opTimestamp, blockTime, forkTime, l1Hash, l2Hash);
  }

  // ----- what the documents read at every path -----

  predicate ReadsLeaf(doc: Json, path: seq<string>, value: Scalar) { Lookup(doc, path) == Some(Leaf(value)) }

  // The paths of the genesis document that are not overridden.
  predicate GenesisKept(path: seq<string>, forked: bool, prefunded: seq<string>) {
    |path| > 0 && path[0] != "timestamp" &&
    (path[0] == "config" && forked ==> |path| > 1 && path[1] != "pragueTime" && path[1] != "isthmusTime") &&
    (path[0] == "alloc" ==>
       |path| > 1 && (path[1] in prefunded ==> |path| > 2 && path[2] != "balance" && path[2] != "nonce"))
  }

  // The genesis document has the start time, the fork time if one is chosen, and
  // the prefunded accounts; everything else is as in the original.
  ghost predicate GenesisDocument(
    doc: Json, original: map<string, Json>, opTimestamp: nat, forkTime: Option<nat>, prefunded: seq<string>)
  {
    ReadsLeaf(doc, ["timestamp"], Quantity(opTimestamp)) &&
    (forkTime.Some? ==>
       ReadsLeaf(doc, ["config", "pragueTime"], Number(forkTime.value)) &&
       ReadsLeaf(doc, ["config", "isthmusTime"], Number(forkTime.value))) &&
    (forall a :: a in prefunded ==>
       ReadsLeaf(doc, ["alloc", a, "balance"], Str("0x10000000000000000000000")) &&
       ReadsLeaf(doc, ["alloc", a, "nonce"], Str("0x1"))) &&
    forall path :: GenesisKept(path, forkTime.Some?, prefunded) ==> Lookup(doc, path) == Lookup(Object(original), path)
  }

  // The paths of the rollup document that are not overridden.
  predicate RollupKept(path: seq<string>, forked: bool) {
    |path| > 0 && path[0] != "block_time" && (path[0] == "isthmus_time" ==> !forked) &&
    (path[0] == "genesis" ==>
       |path| > 1 && path[1] != "l2_time" &&
       (path[1] == "l1" || path[1] == "l2" ==> |path| > 2 && path[2] != "hash" && path[2] != "number")) &&
    (path[0] == "chain_op_config" ==>
       |path| > 1 && path[1] != "eip1559Elasticity" && path[1] != "eip1559Denominator" &&
       path[1] != "eip1559DenominatorCanyon")
  }

  // The rollup document has the times, both genesis hashes, the fee parameters, and
  // the fork time if one is chosen; everything else is as in the original.
  ghost predicate RollupDocument(
    doc: Json, original: map<string, Json>, opTimestamp: nat, blockTime: nat, forkTime: Option<nat>, l1Hash: string,
    l2Hash: string)
  {
    ReadsLeaf(doc, ["genesis", "l2_time"], Number(opTimestamp)) && ReadsLeaf(doc, ["block_time"], Number(blockTime)) &&
    ReadsLeaf(doc, ["genesis", "l1", "hash"], Str(l1Hash)) && ReadsLeaf(doc, ["genesis", "l1", "number"], Number(0)) &&
    ReadsLeaf(doc, ["genesis", "l2", "hash"], Str(l2Hash)) && ReadsLeaf(doc, ["genesis", "l2", "number"], Number(0)) &&
    ReadsLeaf(doc, ["chain_op_config", "eip1559Elasticity"], Number(6)) &&
    ReadsLeaf(doc, ["chain_op_config", "eip1559Denominator"], Number(50)) &&
    ReadsLeaf(doc, ["chain_op_config", "eip1559DenominatorCanyon"], Number(250)) &&
    (forkTime.Some? ==> ReadsLeaf(doc, ["isthmus_time"], Number(forkTime.value))) &&
    forall path :: RollupKept(path, forkTime.Some?) ==> Lookup(doc, path) == Lookup(Object(original), path)
  }

  // The times the genesis document reads, given the fork time chosen and the one
  // that was there before.
  predicate GenesisTimes(genesis: Json, opTimestamp: nat, forkTime: Option<nat>, before: Option<nat>) {
    TimeAt(genesis, GENESIS_ISTHMUS) == (if forkTime.Some? then forkTime else before) &&
    (forkTime.Some? ==> TimeAt(genesis, GENESIS_PRAGUE) == forkTime) &&
    TimeAt(genesis, ["timestamp"]) == Some(opTimestamp)
  }

  // The times the rollup document reads.
  predicate RollupTimes(rollup: Json, opTimestamp: nat, blockTime: nat, forkTime: Option<nat>, before: Option<nat>) {
    TimeAt(rollup, ROLLUP_ISTHMUS) == (if forkTime.Some? then forkTime else before) &&
    TimeAt(rollup, ["genesis", "l2_time"]) == Some(opTimestamp) &&
    TimeAt(rollup, ["block_time"]) == Some(blockTime)
  }

  lemma Leaf1(fields: map<string, Json>, a: string, value: Scalar)
    requires a in fields && fields[a] == Leaf(value)
    ensures ReadsLeaf(Object(fields), [a], value)
  {
    assert [a][1..] == [];
  }

  lemma Leaf2(fields: map<string, Json>, a: string, b: string, value: Scalar)
    requires a in fields && ReadsLeaf(fields[a], [b], value)
    ensures ReadsLeaf(Object(fields), [a, b], value)
  {
    assert [a, b][1..] == [b];
  }

  lemma Leaf3(fields: map<string, Json>, a: string, b: string, c: string, value: Scalar)
    requires a in fields && ReadsLeaf(fields[a], [b, c], value)
    ensures ReadsLeaf(Object(fields), [a, b, c], value)
  {
    assert [a, b, c][1..] == [b, c];
  }

  // A leaf of the override is read from the merged document.
  lemma LeafWins(base: map<string, Json>, input: map<string, Json>, path: seq<string>, value: Scalar)
    requires ReadsLeaf(Object(input), path, value)
    ensures ReadsLeaf(Merge(Object(base), Object(input)), path, value)
  {
    hide Merge, Lookup;
    MergeReads(Object(base), Object(input), path);
  }

  // The override says nothing about the path.
  predicate Silent(j: Json, path: seq<string>) {
    j.Object? && path != [] && (path[0] !in j.fields || Silent(j.fields[path[0]], path[1..]))
  }

  lemma {:induction false} SilentReads(j: Json, path: seq<string>)
    requires Silent(j, path)
    ensures Lookup(j, path).None? && !Cut(j, path)
    decreases path
  {
    if path[0] in j.fields { SilentReads(j.fields[path[0]], path[1..]); }
  }

  lemma SilentKeeps(base: map<string, Json>, input: map<string, Json>, path: seq<string>)
    requires Silent(Object(input), path)
    ensures Lookup(Merge(Object(base), Object(input)), path) == Lookup(Object(base), path)
  {
    hide Merge, Lookup, Cut, Silent;
    SilentReads(Object(input), path);
    MergeReads(Object(base), Object(input), path);
  }

  // The three parts of the genesis override.
  predicate IsGenesisInput(input: map<string, Json>, opTimestamp: nat, forkTime: Option<nat>, prefunded: seq<string>) {
    input.Keys == ({"timestamp", "alloc"} + if forkTime.Some? then {"config"} else {}) &&
    input["timestamp"] == Leaf(Quantity(opTimestamp)) &&
    (forkTime.Some? ==> input["config"] == ForkConfig(forkTime.value)) &&
    input["alloc"] == Object(map a | a in prefunded :: PREFUNDED)
  }

  lemma GenesisReads(
    base: map<string, Json>, input: map<string, Json>, opTimestamp: nat, forkTime: Option<nat>, prefunded: seq<string>)
    requires IsGenesisInput(input, opTimestamp, forkTime, prefunded)
    ensures GenesisDocument(Merge(Object(base), Object(input)), base, opTimestamp, forkTime, prefunded)
  {
    hide Merge, Lookup, ReadsLeaf, Silent, GenesisKept;
    GenesisLeaves(input, opTimestamp, forkTime, prefunded);
    LeafWins(base, input, ["timestamp"], Quantity(opTimestamp));
    if forkTime.Some? {
      LeafWins(base, input, ["config", "pragueTime"], Number(forkTime.value));
      LeafWins(base, input, ["config", "isthmusTime"], Number(forkTime.value));
    }
    forall a | a in prefunded
      ensures ReadsLeaf(Merge(Object(base), Object(input)), ["alloc", a, "balance"], Str("0x10000000000000000000000"))
      ensures ReadsLeaf(Merge(Object(base), Object(input)), ["alloc", a, "nonce"], Str("0x1"))
    {
      LeafWins(base, input, ["alloc", a, "balance"], Str("0x10000000000000000000000"));
      LeafWins(base, input, ["alloc", a, "nonce"], Str("0x1"));
    }
    forall path | GenesisKept(path, forkTime.Some?, prefunded)
      ensures Lookup(Merge(Object(base), Object(input)), path) == Lookup(Object(base), path)
    {
      GenesisSilent(input, opTimestamp, forkTime, prefunded, path);
      SilentKeeps(base, input, path);
    }
  }

  lemma GenesisLeaves(input: map<string, Json>, opTimestamp: nat, forkTime: Option<nat>, prefunded: seq<string>)
    requires IsGenesisInput(input, opTimestamp, forkTime, prefunded)
    ensures ReadsLeaf(Object(input), ["timestamp"], Quantity(opTimestamp))
    ensures forkTime.Some? ==>
              ReadsLeaf(Object(input), ["config", "pragueTime"], Number(forkTime.value)) &&
              ReadsLeaf(Object(input), ["config", "isthmusTime"], Number(forkTime.value))
    ensures forall a :: a in prefunded ==>
              ReadsLeaf(Object(input), ["alloc", a, "balance"], Str("0x10000000000000000000000")) &&
              ReadsLeaf(Object(input), ["alloc", a, "nonce"], Str("0x1"))
  {
    hide Lookup, ReadsLeaf;
    Leaf1(input, "timestamp", Quantity(opTimestamp));
    if forkTime.Some? {
      var config := input["config"].fields;
      Leaf1(config, "pragueTime", Number(forkTime.value));
      Leaf1(config, "isthmusTime", Number(forkTime.value));
      Leaf2(input, "config", "pragueTime", Number(forkTime.value));
      Leaf2(input, "config", "isthmusTime", Number(forkTime.value));
    }
    forall a | a in prefunded
      ensures ReadsLeaf(Object(input), ["alloc", a, "balance"], Str("0x10000000000000000000000"))
      ensures ReadsLeaf(Object(input), ["alloc", a, "nonce"], Str("0x1"))
    {
      var alloc := input["alloc"].fields;
      Leaf1(alloc[a].fields, "balance", Str("0x10000000000000000000000"));
      Leaf1(alloc[a].fields, "nonce", Str("0x1"));
      Leaf2(alloc, a, "balance", Str("0x10000000000000000000000"));
      Leaf2(alloc, a, "nonce", Str("0x1"));
      Leaf3(input, "alloc", a, "balance", Str("0x10000000000000000000000"));
      Leaf3(input, "alloc", a, "nonce", Str("0x1"));
    }
  }

  lemma GenesisSilent(
    input: map<string, Json>, opTimestamp: nat, forkTime: Option<nat>, prefunded: seq<string>, path: seq<string>)
    requires IsGenesisInput(input, opTimestamp, forkTime, prefunded)
    requires GenesisKept(path, forkTime.Some?, prefunded)
    ensures Silent(Object(input), path)
  {
    if path[0] == "alloc" && path[1] in prefunded {
      assert path[1..][0] == path[1] && path[1..][1..][0] == path[2];
      assert Silent(PREFUNDED, path[1..][1..]);
    }
  }

  lemma GenesisTimesRead(
    doc: Json, base: map<string, Json>, opTimestamp: nat, forkTime: Option<nat>, prefunded: seq<string>)
    requires GenesisDocument(doc, base, opTimestamp, forkTime, prefunded)
    ensures GenesisTimes(doc, opTimestamp, forkTime, TimeAt(Object(base), GENESIS_ISTHMUS))
  {
    hide Lookup;
    if forkTime.None? { assert GenesisKept(GENESIS_ISTHMUS, false, prefunded); }
  }

  // The parts of the rollup override.
  predicate IsRollupInput(
    input: map<string, Json>, opTimestamp: nat, blockTime: nat, forkTime: Option<nat>, l1Hash: string, l2Hash: string)
  {
    input.Keys == ({"genesis", "block_time", "chain_op_config"} + if forkTime.Some? then {"isthmus_time"} else {}) &&
    input["genesis"] ==
      Object(map["l2_time" := Leaf(Number(opTimestamp)), "l1" := Block(l1Hash), "l2" := Block(l2Hash)]) &&
    input["block_time"] == Leaf(Number(blockTime)) &&
    input["chain_op_config"] ==
      Object(map["eip1559Elasticity" := Leaf(Number(6)), "eip1559Denominator" := Leaf(Number(50)),
                 "eip1559DenominatorCanyon" := Leaf(Number(250))]) &&
    (forkTime.Some? ==> input["isthmus_time"] == Leaf(Number(forkTime.value)))
  }

  lemma RollupReads(
    base: map<string, Json>, input: map<string, Json>, opTimestamp: nat, blockTime: nat, forkTime: Option<nat>,
    l1Hash: string, l2Hash: string)
    requires IsRollupInput(input, opTimestamp, blockTime, forkTime, l1Hash, l2Hash)
    ensures RollupDocument(Merge(Object(base), Object(input)), base, opTimestamp, blockTime, forkTime, l1Hash, l2Hash)
  {
    hide Merge, Lookup, ReadsLeaf, Silent, RollupKept;
    RollupGenesisLeaves(input, opTimestamp, blockTime, forkTime, l1Hash, l2Hash);
    RollupOtherLeaves(input, opTimestamp, blockTime, forkTime, l1Hash, l2Hash);
    LeafWins(base, input, ["genesis", "l2_time"], Number(opTimestamp));
    LeafWins(base, input, ["genesis", "l1", "hash"], Str(l1Hash));
    LeafWins(base, input, ["genesis", "l1", "number"], Number(0));
    LeafWins(base, input, ["genesis", "l2", "hash"], Str(l2Hash));
    LeafWins(base, input, ["genesis", "l2", "number"], Number(0));
    LeafWins(base, input, ["block_time"], Number(blockTime));
    LeafWins(base, input, ["chain_op_config", "eip1559Elasticity"], Number(6));
    LeafWins(base, input, ["chain_op_config", "eip1559Denominator"], Number(50));
    LeafWins(base, input, ["chain_op_config", "eip1559DenominatorCanyon"], Number(250));
    if forkTime.Some? { LeafWins(base, input, ["isthmus_time"], Number(forkTime.value)); }
    forall path | RollupKept(path, forkTime.Some?)
      ensures Lookup(Merge(Object(base), Object(input)), path) == Lookup(Object(base), path)
    {
      RollupSilent(input, opTimestamp, blockTime, forkTime, l1Hash, l2Hash, path);
      SilentKeeps(base, input, path);
    }
  }

  lemma RollupGenesisLeaves(
    input: map<string, Json>, opTimestamp: nat, blockTime: nat, forkTime: Option<nat>, l1Hash: string, l2Hash: string)
    requires IsRollupInput(input, opTimestamp, blockTime, forkTime, l1Hash, l2Hash)
    ensures ReadsLeaf(Object(input), ["genesis", "l2_time"], Number(opTimestamp))
    ensures ReadsLeaf(Object(input), ["genesis", "l1", "hash"], Str(l1Hash))
    ensures ReadsLeaf(Object(input), ["genesis", "l1", "number"], Number(0))
    ensures ReadsLeaf(Object(input), ["genesis", "l2", "hash"], Str(l2Hash))
    ensures ReadsLeaf(Object(input), ["genesis", "l2", "number"], Number(0))
  {
    hide Lookup, ReadsLeaf;
    var genesis := input["genesis"].fields;
    Leaf1(genesis, "l2_time", Number(opTimestamp));
    Leaf2(input, "genesis", "l2_time", Number(opTimestamp));
    BlockLeaves(input, genesis, "l1", l1Hash);
    BlockLeaves(input, genesis, "l2", l2Hash);
  }

  lemma BlockLeaves(input: map<string, Json>, genesis: map<string, Json>, block: string, hash: string)
    requires "genesis" in input && input["genesis"] == Object(genesis)
    requires block in genesis && genesis[block] == Block(hash)
    ensures ReadsLeaf(Object(input), ["genesis", block, "hash"], Str(hash))
    ensures ReadsLeaf(Object(input), ["genesis", block, "number"], Number(0))
  {
    hide Lookup, ReadsLeaf;
    Leaf1(genesis[block].fields, "hash", Str(hash));
    Leaf1(genesis[block].fields, "number", Number(0));
    Leaf2(genesis, block, "hash", Str(hash));
    Leaf2(genesis, block, "number", Number(0));
    Leaf3(input, "genesis", block, "hash", Str(hash));
    Leaf3(input, "genesis", block, "number", Number(0));
  }

  lemma RollupOtherLeaves(
    input: map<string, Json>, opTimestamp: nat, blockTime: nat, forkTime: Option<nat>, l1Hash: string, l2Hash: string)
    requires IsRollupInput(input, opTimestamp, blockTime, forkTime, l1Hash, l2Hash)
    ensures ReadsLeaf(Object(input), ["block_time"], Number(blockTime))
    ensures ReadsLeaf(Object(input), ["chain_op_config", "eip1559Elasticity"], Number(6))
    ensures ReadsLeaf(Object(input), ["chain_op_config", "eip1559Denominator"], Number(50))
    ensures ReadsLeaf(Object(input), ["chain_op_config", "eip1559DenominatorCanyon"], Number(250))
    ensures forkTime.Some? ==> ReadsLeaf(Object(input), ["isthmus_time"], Number(forkTime.value))
  {
    hide Lookup, ReadsLeaf;
    Leaf1(input, "block_time", Number(blockTime));
    if forkTime.Some? { Leaf1(input, "isthmus_time", Number(forkTime.value)); }
    var config := input["chain_op_config"].fields;
    Leaf1(config, "eip1559Elasticity", Number(6));
    Leaf1(config, "eip1559Denominator", Number(50));
    Leaf1(config, "eip1559DenominatorCanyon", Number(250));
    Leaf2(input, "chain_op_config", "eip1559Elasticity", Number(6));
    Leaf2(input, "chain_op_config", "eip1559Denominator", Number(50));
    Leaf2(input, "chain_op_config", "eip1559DenominatorCanyon", Number(250));
  }

  lemma RollupSilent(
    input: map<string, Json>, opTimestamp: nat, blockTime: nat, forkTime: Option<nat>, l1Hash: string, l2Hash: string,
    path: seq<string>)
    requires IsRollupInput(input, opTimestamp, blockTime, forkTime, l1Hash, l2Hash)
    requires RollupKept(path, forkTime.Some?)
    ensures Silent(Object(input), path)
  {
    if path[0] == "genesis" && (path[1] == "l1" || path[1] == "l2") {
      assert path[1..][0] == path[1] && path[1..][1..][0] == path[2];
      assert Silent(Block(if path[1] == "l1" then l1Hash else l2Hash), path[1..][1..]);
    }
  }

  lemma RollupTimesRead(
    doc: Json, base: map<string, Json>, opTimestamp: nat, blockTime: nat, forkTime: Option<nat>, l1Hash: string,
    l2Hash: string)
    requires RollupDocument(doc, base, opTimestamp, blockTime, forkTime, l1Hash, l2Hash)
    ensures RollupTimes(doc, opTimestamp, blockTime, forkTime, TimeAt(Object(base), ROLLUP_ISTHMUS))
  {
    hide Lookup;
    if forkTime.None? { assert RollupKept(ROLLUP_ISTHMUS, false); }
  }

  // ----- the genesis header -----

  datatype Hash = Hash(id: int)

  const ZERO_HASH := Hash(0)
  // The hash of an empty list of withdrawals.
  const EMPTY_WITHDRAWALS := Hash(1)

  datatype HeaderResult = Header(withdrawalsHash: Option<Hash>) | NilPointer | ExpectedWithdrawals

  // A header without Shanghai cannot be built, and the root is used under Isthmus only.
  function HeaderRule(shanghai: Option<bool>, isthmus: bool, messagePasserRoot: Hash): HeaderResult {
    if shanghai != Some(true) then (if shanghai == Some(false) && isthmus then ExpectedWithdrawals else NilPointer)
    else Header(Some(if isthmus && messagePasserRoot != ZERO_HASH then messagePasserRoot else EMPTY_WITHDRAWALS))
  }

  // The header of a genesis document that starts at the given time.
  function HeaderOf(chain: Chain, genesis: Json, timestamp: nat): HeaderResult {
    HeaderRule(chain.shanghai(genesis), IsTimestampForked(TimeAt(genesis, GENESIS_ISTHMUS), timestamp),
               chain.messagePasserRoot(genesis))
  }

  // The withdrawals hash of toBlockWithRoot; shanghai is None without a chain
  // configuration.
  method WithdrawalsHash(shanghai: Option<bool>, isthmusTime: Option<nat>, timestamp: nat, messagePasserRoot: Hash)
    returns (r: HeaderResult)
    ensures r == HeaderRule(shanghai, IsTimestampForked(isthmusTime, timestamp), messagePasserRoot)
    ensures r.NilPointer? <==> shanghai.None? || (shanghai == Some(false) && !IsTimestampForked(isthmusTime, timestamp))
    ensures r.ExpectedWithdrawals? <==> shanghai == Some(false) && IsTimestampForked(isthmusTime, timestamp)
    ensures shanghai == Some(true) && !IsTimestampForked(isthmusTime, timestamp) ==>
              r == Header(Some(EMPTY_WITHDRAWALS))
    ensures shanghai == Some(true) && IsTimestampForked(isthmusTime, timestamp) ==>
              r == Header(Some(if messagePasserRoot == ZERO_HASH then EMPTY_WITHDRAWALS else messagePasserRoot))
  {
    var head: Option<Hash> := None;
    var withdrawals := false;
    if shanghai.Some? {
      if shanghai.value {
        head := Some(EMPTY_WITHDRAWALS);
        withdrawals := true;
      }
      if IsTimestampForked(isthmusTime, timestamp) {
        var root := messagePasserRoot;
        if root == ZERO_HASH {
          root := EMPTY_WITHDRAWALS;
        }
        head := Some(root);
      }
    }
    if head.None? {
      return NilPointer;
    }
    var copied := head.value;
    // NewBlock recomputes the hash from the withdrawals
    head := if withdrawals then Some(EMPTY_WITHDRAWALS) else None;
    if IsTimestampForked(isthmusTime, timestamp) {
      if !withdrawals {
        return ExpectedWithdrawals;
      }
      head := Some(copied);
    } else if !withdrawals {
      head := None;
    } else {
      head := Some(EMPTY_WITHDRAWALS);
    }
    return Header(head);
  }

  // The genesis block is an Isthmus block for n = 0 only, exactly when the fork is
  // off, at block 0, or its time does not wrap to the start or before.
  lemma GenesisActiveExactly(opTimestamp: nat, blockTime: nat, latestFork: Option<nat>)
    ensures (IsTimestampForked(ForkTime(opTimestamp, blockTime, latestFork), opTimestamp) <==> latestFork == Some(0))
            <==>
            latestFork.None? || latestFork.value == 0 ||
            BlockTime(opTimestamp, blockTime, latestFork.value) % U64 > opTimestamp
  {
    if latestFork.Some? { WrapTwice(opTimestamp, blockTime * latestFork.value); }
  }

  // What the documents say then: with Shanghai active and a message passer that
  // has storage, the header of the merged genesis carries its root for n = 0 only,
  // exactly when the fork time chosen does not wrap to the start or before, or,
  // none being chosen, the original had none that early; without it, it carries the
  // hash of the empty list.
  lemma GenesisHeaderExactly(
    chain: Chain, genesis: Json, opTimestamp: nat, blockTime: nat, latestFork: Option<nat>, before: Option<nat>)
    requires chain.shanghai(genesis) == Some(true)
    requires chain.messagePasserRoot(genesis) !in {ZERO_HASH, EMPTY_WITHDRAWALS}
    requires GenesisTimes(genesis, opTimestamp, ForkTime(opTimestamp, blockTime, latestFork), before)
    ensures (HeaderOf(chain, genesis, opTimestamp) == Header(Some(chain.messagePasserRoot(genesis)))
             <==> latestFork == Some(0))
            <==>
            if latestFork.None? then before.None? || before.value > opTimestamp
            else latestFork.value == 0 || BlockTime(opTimestamp, blockTime, latestFork.value) % U64 > opTimestamp
    ensures HeaderOf(chain, genesis, opTimestamp) in
              {Header(Some(chain.messagePasserRoot(genesis))), Header(Some(EMPTY_WITHDRAWALS))}
  {
    hide TimeAt;
    GenesisActiveExactly(opTimestamp, blockTime, latestFork);
  }
}
