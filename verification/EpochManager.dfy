/**
 forester/src/epoch_manager.rs: how a forester cuts the work items of a queue into batches,
 fetches proofs for them, sends each batch with retries, and tells the indexer what was done.
 */
module EpochManagers {
  import opened Wrappers

  datatype TreeType = Address | State

  datatype WorkItem = WorkItem(treeType: TreeType, merkleTree: nat, hash: nat)

  datatype Proof = AddressProof(content: nat) | StateProof(content: nat)

  datatype Instruction = Instruction(item: WorkItem, proof: Proof)

  /** What the indexer is told: the tree of a work item was updated by means of a proof. */
  datatype IndexerUpdate = IndexerUpdate(item: WorkItem, proof: Proof)

  // ---------------------------------------------------------------------------
  // Chunks
  // ---------------------------------------------------------------------------

  /** Consecutive pieces of at most `size` elements. */
  function Chunks<T>(s: seq<T>, size: nat): seq<seq<T>>
    requires size > 0
  {
    if s == [] then [] else if |s| <= size then [s] else [s[..size]] + Chunks(s[size..], size)
  }

  function Flatten<T>(ss: seq<seq<T>>): seq<T> {
    if ss == [] then [] else ss[0] + Flatten(ss[1..])
  }

  lemma FlattenCons<T>(a: seq<T>, b: seq<seq<T>>)
    ensures Flatten([a] + b) == a + Flatten(b) && Flatten([a]) == a
  {
    assert ([a] + b)[1..] == b && [a][1..] == [];
  }

  lemma {:induction false} ChunksFlatten<T>(s: seq<T>, size: nat)
    requires size > 0
    ensures Flatten(Chunks(s, size)) == s
    decreases |s|
  {
    if |s| > size {
      ChunksFlatten(s[size..], size);
      FlattenCons(s[..size], Chunks(s[size..], size));
    } else {
      FlattenCons(s, []);
    }
  }

  lemma {:induction false} ChunkSize<T>(s: seq<T>, size: nat, i: nat)
    requires size > 0 && i < |Chunks(s, size)|
    ensures 0 < |Chunks(s, size)[i]| <= size && forall x :: x in Chunks(s, size)[i] ==> x in s
    decreases |s|
  {
    if |s| > size && i > 0 { ChunkSize(s[size..], size, i - 1); }
  }

  /** Every chunk but the last is full. */
  lemma {:induction false} ChunksAreFull<T>(s: seq<T>, size: nat, i: nat)
    requires size > 0 && i < |Chunks(s, size)|
    ensures if i < |Chunks(s, size)| - 1 then |Chunks(s, size)[i]| == size else 0 < |Chunks(s, size)[i]| <= size
    decreases |s|
  {
    if |s| > size {
      assert Chunks(s[size..], size) != [];
      if i > 0 { ChunksAreFull(s[size..], size, i - 1); }
    }
  }

  lemma {:induction false} FlattenConcat<T>(a: seq<seq<T>>, b: seq<seq<T>>)
    ensures Flatten(a + b) == Flatten(a) + Flatten(b)
  {
    if a == [] {
      assert a + b == b;
    } else {
      FlattenConcat(a[1..], b);
      FlattenCons(a[0], a[1..] + b);
      assert a + b == [a[0]] + (a[1..] + b);
    }
  }

  /** The batches of a queue: `process_queue` cuts its items into chunks, `process_work_items` cuts each chunk again. */
  function Batches<T>(chunks: seq<seq<T>>, size: nat): seq<seq<T>>
    requires size > 0
  {
    if chunks == [] then [] else Chunks(chunks[0], size) + Batches(chunks[1..], size)
  }

  /** Every item of the queue is in one batch, and the batches together hold the items in order. */
  lemma {:induction false} BatchesCover<T>(chunks: seq<seq<T>>, size: nat)
    requires size > 0
    ensures Flatten(Batches(chunks, size)) == Flatten(chunks)
  {
    if chunks != [] {
      BatchesCover(chunks[1..], size);
      ChunksFlatten(chunks[0], size);
      FlattenConcat(Chunks(chunks[0], size), Batches(chunks[1..], size));
    }
  }

  lemma QueueIsCovered<T>(items: seq<T>, indexerBatchSize: nat, transactionBatchSize: nat)
    requires indexerBatchSize > 0 && transactionBatchSize > 0
    ensures Flatten(Batches(Chunks(items, indexerBatchSize), transactionBatchSize)) == items
  {
    BatchesCover(Chunks(items, indexerBatchSize), transactionBatchSize);
    ChunksFlatten(items, indexerBatchSize);
  }

  // ---------------------------------------------------------------------------
  // Proofs and instructions
  // ---------------------------------------------------------------------------

  /** The indexer; one batch query per tree type. */
  datatype Indexer = Indexer(address: (nat, seq<nat>) -> seq<nat>, state: seq<nat> -> seq<nat>,
                             proofOf: (TreeType, nat, nat) -> nat) {
    function NewAddressProofs(tree: nat, hashes: seq<nat>): seq<nat> { address(tree, hashes) }

    function AccountProofs(hashes: seq<nat>): seq<nat> { state(hashes) }

    /** The proof that belongs to a work item. */
    function ProofFor(item: WorkItem): Proof {
      match item.treeType
      case Address => AddressProof(proofOf(Address, item.merkleTree, item.hash))
      case State => StateProof(proofOf(State, 0, item.hash))
    }

    /** Every query is answered with one proof per hash, in the order of the hashes. */
    ghost predicate AnswersInOrder() {
      && (forall tree: nat, hashes: seq<nat> {:trigger NewAddressProofs(tree, hashes)} ::
            |NewAddressProofs(tree, hashes)| == |hashes|
            && forall i: nat :: i < |hashes| ==> NewAddressProofs(tree, hashes)[i] == proofOf(Address, tree, hashes[i]))
      && (forall hashes: seq<nat> {:trigger AccountProofs(hashes)} ::
            |AccountProofs(hashes)| == |hashes|
            && forall i: nat :: i < |hashes| ==> AccountProofs(hashes)[i] == proofOf(State, 0, hashes[i]))
    }
  }

  function Select(items: seq<WorkItem>, t: TreeType): seq<WorkItem> {
    if items == [] then []
    else
      var n := |items| - 1;
      Select(items[..n], t) + if items[n].treeType == t then [items[n]] else []
  }

  function Hashes(items: seq<WorkItem>): (hs: seq<nat>)
    ensures |hs| == |items| && forall i: nat :: i < |items| ==> hs[i] == items[i].hash
  {
    seq(|items|, i requires 0 <= i < |items| => items[i].hash)
  }

  /** Every item with its own proof, in order. */
  ghost predicate Paired(ix: Indexer, items: seq<WorkItem>, proofs: seq<Proof>, instructions: seq<Instruction>) {
    && |proofs| == |instructions| == |items|
    && forall i: nat :: i < |items| ==>
         proofs[i] == ix.ProofFor(items[i]) && instructions[i] == Instruction(items[i], ix.ProofFor(items[i]))
  }

  lemma PairedConcat(ix: Indexer, a: seq<WorkItem>, ap: seq<Proof>, ai: seq<Instruction>, b: seq<WorkItem>,
                     bp: seq<Proof>, bi: seq<Instruction>)
    requires Paired(ix, a, ap, ai) && Paired(ix, b, bp, bi)
    ensures Paired(ix, a + b, ap + bp, ai + bi)
  {
  }

  method PartitionItems(items: seq<WorkItem>) returns (addressItems: seq<WorkItem>, stateItems: seq<WorkItem>)
    ensures addressItems == Select(items, Address) && stateItems == Select(items, State)
  {
    addressItems, stateItems := [], [];
    for i := 0 to |items|
      invariant addressItems == Select(items[..i], Address) && stateItems == Select(items[..i], State)
    {
      assert items[..i + 1][..i] == items[..i];
      if items[i].treeType == Address {
        addressItems := addressItems + [items[i]];
      } else {
        stateItems := stateItems + [items[i]];
      }
    }
    assert items[..|items|] == items;
  }

  /** One proof and one instruction for each item that an answer is there for. */
  method MakeInstructions(items: seq<WorkItem>, answers: seq<nat>)
    returns (proofs: seq<Proof>, instructions: seq<Instruction>)
    ensures |proofs| == |instructions| == if |answers| < |items| then |answers| else |items|
    ensures forall i: nat :: i < |proofs| ==>
              proofs[i] == MakeProof(items[i], answers[i]) && instructions[i] == Instruction(items[i], proofs[i])
  {
    proofs, instructions := [], [];
    var count := if |answers| < |items| then |answers| else |items|;
    for i := 0 to count
      invariant |proofs| == |instructions| == i
      invariant forall k: nat :: k < i ==>
                  proofs[k] == MakeProof(items[k], answers[k]) && instructions[k] == Instruction(items[k], proofs[k])
    {
      proofs := proofs + [MakeProof(items[i], answers[i])];
      instructions := instructions + [Instruction(items[i], MakeProof(items[i], answers[i]))];
    }
  }

  function MakeProof(item: WorkItem, answer: nat): Proof {
    if item.treeType == Address then AddressProof(answer) else StateProof(answer)
  }

  lemma {:induction false} SelectHasType(items: seq<WorkItem>, t: TreeType)
    ensures forall i: nat :: i < |Select(items, t)| ==>
              Select(items, t)[i].treeType == t && Select(items, t)[i] in items
    decreases |items|
  {
    if items != [] { SelectHasType(items[..|items| - 1], t); }
  }

  /** The positions of the items of a type. */
  ghost function Places(items: seq<WorkItem>, t: TreeType): set<nat> {
    set k: nat | k < |items| && items[k].treeType == t
  }

  lemma OnePlaceMore(items: seq<WorkItem>, item: WorkItem, t: TreeType)
    ensures |Places(items + [item], t)| == |Places(items, t)| + (if item.treeType == t then 1 else 0)
  {
    var all, before := Places(items + [item], t), Places(items, t);
    if item.treeType == t {
      assert all == before + {|items|};
    } else {
      assert all == before;
    }
  }

  /** As many as there are of the type. */
  lemma {:induction false} SelectCount(items: seq<WorkItem>, t: TreeType)
    ensures |Select(items, t)| == |set k: nat | k < |items| && items[k].treeType == t|
    decreases |items|
  {
    assert Places(items, t) == set k: nat | k < |items| && items[k].treeType == t;
    if items != [] {
      var n := |items| - 1;
      SelectCount(items[..n], t);
      assert Places(items[..n], t) == set k: nat | k < n && items[..n][k].treeType == t;
      hide Places;
      OnePlaceMore(items[..n], items[n], t);
      assert items[..n] + [items[n]] == items;
    }
  }

  /** Each item of the type is there, right behind those of its type that come before it. */
  lemma {:induction false} SelectAt(items: seq<WorkItem>, t: TreeType, i: nat)
    requires i < |items| && items[i].treeType == t
    ensures var before := |Select(items[..i], t)|;
            before < |Select(items, t)| && Select(items, t)[before] == items[i]
    decreases |items|
  {
    var n := |items| - 1;
    if i < n {
      SelectAt(items[..n], t, i);
      assert items[..n][..i] == items[..i];
    }
  }

  /** All address items belong to the same tree. */
  ghost predicate OneAddressTree(items: seq<WorkItem>) {
    forall a, b :: a in items && b in items && a.treeType == Address && b.treeType == Address ==>
        a.merkleTree == b.merkleTree
  }

  /** Address items first, then state items, each with its own proof. */
  method FetchProofsAndCreateInstructions(ix: Indexer, items: seq<WorkItem>)
    returns (proofs: seq<Proof>, instructions: seq<Instruction>)
    requires ix.AnswersInOrder() && OneAddressTree(items)
    ensures Paired(ix, Select(items, Address) + Select(items, State), proofs, instructions)
    ensures var ordered := Select(items, Address) + Select(items, State);
            |proofs| == |instructions| == |ordered| &&
            forall i: nat :: i < |ordered| ==>
              && proofs[i] == (match ordered[i].treeType
                               case Address => AddressProof(ix.proofOf(Address, ordered[i].merkleTree, ordered[i].hash))
                               case State => StateProof(ix.proofOf(State, 0, ordered[i].hash)))
              && instructions[i] == Instruction(ordered[i], proofs[i])
  {
    proofs, instructions := [], [];
    var addressItems, stateItems := PartitionItems(items);
    SelectHasType(items, Address);
    SelectHasType(items, State);
    if addressItems != [] {
      var merkleTree := addressItems[0].merkleTree;
      proofs, instructions := MakeInstructions(addressItems, ix.NewAddressProofs(merkleTree, Hashes(addressItems)));
    }
    assert Paired(ix, addressItems, proofs, instructions);
    if stateItems != [] {
      var stateProofs, stateInstructions := MakeInstructions(stateItems, ix.AccountProofs(Hashes(stateItems)));
      PairedConcat(ix, addressItems, proofs, instructions, stateItems, stateProofs, stateInstructions);
      proofs, instructions := proofs + stateProofs, instructions + stateInstructions;
    } else {
      assert addressItems + stateItems == addressItems;
    }
  }

  /** No state item comes before an address item. */
  ghost predicate AddressFirst(items: seq<WorkItem>) {
    forall i: nat, j: nat :: i < j < |items| && items[j].treeType == Address ==> items[i].treeType == Address
  }

  /** Proofs are in the order of the items exactly if no state item comes before an address item. */
  lemma OrderIsKept(items: seq<WorkItem>)
    ensures Select(items, Address) + Select(items, State) == items <==> AddressFirst(items)
  {
    SelectHasType(items, Address);
    SelectHasType(items, State);
    assert AddressFirst(Select(items, Address) + Select(items, State));
    if AddressFirst(items) { AddressFirstIsKept(items); }
  }

  lemma {:induction false} AddressFirstIsKept(items: seq<WorkItem>)
    requires AddressFirst(items)
    ensures Select(items, Address) + Select(items, State) == items
    decreases |items|
  {
    if items != [] {
      var n := |items| - 1;
      AddressFirstIsKept(items[..n]);
      if items[n].treeType == Address { NoStateItems(items[..n]); }
      assert items == items[..n] + [items[n]];
    }
  }

  lemma {:induction false} NoStateItems(items: seq<WorkItem>)
    requires forall i: nat :: i < |items| ==> items[i].treeType == Address
    ensures Select(items, State) == []
    decreases |items|
  {
    if items != [] { NoStateItems(items[..|items| - 1]); }
  }

  // ---------------------------------------------------------------------------
  // The outside world
  // ---------------------------------------------------------------------------

  /** How one attempt to process a batch goes; a failed one may or may not have transmitted the transaction. */
  datatype Attempt = NotEligible | EligibilityError | Failed(transmitted: bool) | Sent(signature: nat)

  datatype ForesterError = EmptyChunk | NotInActivePhase | RpcFailed | IndexerFailed | EligibilityFailed | SendFailed

  /**
   What the outside world does: attempt `n` of batch `b`, and what goes wrong when batch `b` is
   prepared, if anything.
   */
  datatype World = World(attempts: (nat, nat) -> Attempt, preparation: nat -> Option<ForesterError>) {
    function Outcome(b: nat, n: nat): Attempt { attempts(b, n) }

    /** Connection, slot, active phase and proofs: whatever fails first. */
    function Prepare(b: nat): Option<ForesterError> { preparation(b) }

    /** The attempt that settles a batch: the first that does not fail to send, or the last one allowed. */
    function Settling(b: nat, n: nat, maxRetries: nat): (last: nat)
      requires n <= maxRetries
      ensures n <= last <= maxRetries
      decreases maxRetries - n
    {
      if !Outcome(b, n).Failed? || n == maxRetries then n else Settling(b, n + 1, maxRetries)
    }

    /** How often the transaction of a batch is transmitted, from attempt `n` on. */
    function Transmissions(b: nat, n: nat, maxRetries: nat): (count: nat)
      requires n <= maxRetries
      ensures count <= maxRetries + 1 - n
      decreases maxRetries - n
    {
      var a := Outcome(b, n);
      var now := if a.Sent? || (a.Failed? && a.transmitted) then 1 else 0;
      if !a.Failed? || n == maxRetries then now else now + Transmissions(b, n + 1, maxRetries)
    }

    /** The result of a batch: that of its settling attempt. */
    function ResultOf(b: nat, maxRetries: nat): Result<Option<nat>, ForesterError> {
      match Outcome(b, Settling(b, 0, maxRetries))
      case NotEligible => Success(None)
      case EligibilityError => Failure(EligibilityFailed)
      case Failed(_) => Failure(SendFailed)
      case Sent(signature) => Success(Some(signature))
    }

    /** How many of `count` batches from `first` on are prepared before a preparation fails. */
    function Prepared(first: nat, count: nat): (m: nat)
      ensures m <= count && (m < count ==> Prepare(first + m).Some?)
      ensures forall k: nat :: first <= k < first + m ==> Prepare(k).None?
      decreases count
    {
      if count == 0 || Prepare(first).Some? then 0 else 1 + Prepared(first + 1, count - 1)
    }
  }

  // ---------------------------------------------------------------------------
  // What has to happen
  // ---------------------------------------------------------------------------

  /** The instruction of every item, made from its own proof. */
  function OwnInstructions(ix: Indexer, items: seq<WorkItem>): seq<Instruction> {
    seq(|items|, i requires 0 <= i < |items| => Instruction(items[i], ix.ProofFor(items[i])))
  }

  /** Every item with its own proof. */
  function OwnUpdates(ix: Indexer, items: seq<WorkItem>): seq<IndexerUpdate> {
    seq(|items|, i requires 0 <= i < |items| => IndexerUpdate(items[i], ix.ProofFor(items[i])))
  }

  function Repeat<T>(x: T, count: nat): seq<T> {
    seq(count, _ => x)
  }

  /** Transactions transmitted, updates told to the indexer, and signatures obtained. */
  datatype Effect = Effect(transactions: seq<seq<Instruction>>, updates: seq<IndexerUpdate>, signatures: seq<nat>) {
    function Then(next: Effect): Effect {
      Effect(transactions + next.transactions, updates + next.updates, signatures + next.signatures)
    }
  }

  const NOTHING := Effect([], [], [])

  /**
   Processing batch `b`: its own instructions are transmitted as one transaction, as often as
   attempts are made; if it goes through, the indexer is told about every item with its own proof.
   */
  function EffectOf(world: World, ix: Indexer, b: nat, items: seq<WorkItem>, maxRetries: nat): Effect {
    var transactions := Repeat(OwnInstructions(ix, items), world.Transmissions(b, 0, maxRetries));
    match world.ResultOf(b, maxRetries)
    case Success(Some(signature)) => Effect(transactions, OwnUpdates(ix, items), [signature])
    case _ => Effect(transactions, [], [])
  }

  /** Processing the first `m` batches, which have numbers from `first` on. */
  function Effects(world: World, ix: Indexer, first: nat, batches: seq<seq<WorkItem>>, m: nat, maxRetries: nat): Effect
    requires m <= |batches|
  {
    if m == 0 then NOTHING
    else Effects(world, ix, first, batches, m - 1,
                 maxRetries).Then(EffectOf(world, ix, first + m - 1, batches[m - 1], maxRetries))
  }

  /** Processing a queue: in every chunk the batches up to the first whose preparation fails. */
  function QueueEffects(world: World, ix: Indexer, first: nat, chunks: seq<seq<WorkItem>>, size: nat,
                        maxRetries: nat): Effect
    requires size > 0
    decreases chunks
  {
    if chunks == [] then NOTHING
    else
      ChunkEffects(world, ix, first, chunks[0], size, maxRetries)
      .Then(QueueEffects(world, ix, first + |Chunks(chunks[0], size)|, chunks[1..], size, maxRetries))
  }

  /** Processing one chunk of a queue: its batches up to the first whose preparation fails. */
  function ChunkEffects(world: World, ix: Indexer, first: nat, items: seq<WorkItem>, size: nat, maxRetries: nat): Effect
    requires size > 0
  {
    var batches := Chunks(items, size);
    Effects(world, ix, first, batches, world.Prepared(first, |batches|), maxRetries)
  }

  // ---------------------------------------------------------------------------
  // Sending
  // ---------------------------------------------------------------------------

  /** A batch as it is handed over for sending. */
  datatype Batch = Batch(instructions: seq<Instruction>, proofs: seq<Proof>, items: seq<WorkItem>)

  /** The updates the indexer gets for a batch. */
  function Zip(items: seq<WorkItem>, proofs: seq<Proof>): (us: seq<IndexerUpdate>)
    ensures |us| == if |items| < |proofs| then |items| else |proofs|
    ensures forall i: nat :: i < |us| ==> us[i] == IndexerUpdate(items[i], proofs[i])
  {
    seq(if |items| < |proofs| then |items| else |proofs|,
        i requires 0 <= i < |items| && i < |proofs| => IndexerUpdate(items[i], proofs[i]))
  }

  /** Everything transmitted, everything the indexer was told, and the successes per epoch. */
  datatype Account = Account(transactions: seq<seq<Instruction>>, updates: seq<IndexerUpdate>, processed: map<nat,
                             nat>) {
    function Count(epoch: nat): nat {
      if epoch in processed then processed[epoch] else 0
    }
  }

  /** From `before` to `after` exactly this was done, with one success counted per signature. */
  ghost predicate Did(before: Account, after: Account, epoch: nat, effect: Effect) {
    && after.transactions == before.transactions + effect.transactions
    && after.updates == before.updates + effect.updates
    && after.Count(epoch) == before.Count(epoch) + |effect.signatures|
    && forall other: nat :: other != epoch ==> after.Count(other) == before.Count(other)
  }

  lemma DidThen(a: Account, b: Account, c: Account, epoch: nat, first: Effect, second: Effect)
    requires Did(a, b, epoch, first) && Did(b, c, epoch, second)
    ensures Did(a, c, epoch, first.Then(second))
  {
  }

  lemma DidNothing(a: Account, epoch: nat)
    ensures Did(a, a, epoch, NOTHING)
  {
  }

  class EpochManager {
    const maxRetries: nat
    const indexerBatchSize: nat
    const transactionBatchSize: nat
    /** Successes per epoch. */
    var processed: map<nat, nat>
    /** Everything the indexer was told. */
    var indexerUpdates: seq<IndexerUpdate>
    /** Everything that was transmitted: the instructions of each transaction. */
    var transactions: seq<seq<Instruction>>

    constructor (maxRetries: nat, indexerBatchSize: nat, transactionBatchSize: nat)
      requires indexerBatchSize > 0 && transactionBatchSize > 0
      ensures this.maxRetries == maxRetries
      ensures this.indexerBatchSize == indexerBatchSize && this.transactionBatchSize == transactionBatchSize
      ensures processed == map[] && indexerUpdates == [] && transactions == []
    {
      this.maxRetries, this.indexerBatchSize, this.transactionBatchSize := maxRetries, indexerBatchSize,
        transactionBatchSize;
      processed, indexerUpdates, transactions := map[], [], [];
    }

    function Count(epoch: nat): nat
      reads this
    {
      if epoch in processed then processed[epoch] else 0
    }

    /** What the manager has done so far. */
    ghost function Books(): Account
      reads this
    {
      Account(transactions, indexerUpdates, processed)
    }

    method IncrementProcessedItemsCount(epoch: nat)
      modifies this`processed
      ensures processed == old(processed)[epoch := old(Count(epoch)) + 1]
    {
      processed := processed[epoch := (if epoch in processed then processed[epoch] else 0) + 1];
    }

    method UpdateIndexer(items: seq<WorkItem>, proofs: seq<Proof>)
      modifies this`indexerUpdates
      ensures indexerUpdates == old(indexerUpdates) + Zip(items, proofs)
    {
      var count := if |items| < |proofs| then |items| else |proofs|;
      ghost var before := indexerUpdates;
      for i := 0 to count
        invariant indexerUpdates == before + Zip(items, proofs)[..i]
      {
        indexerUpdates := indexerUpdates + [IndexerUpdate(items[i], proofs[i])];
      }
    }

    /**
     Sends a batch until it goes through, at most maxRetries + 1 times. Each attempt transmits
     exactly the instructions of the batch. Exactly one success is counted, and the indexer is
     told, if and only if a signature is returned.
     */
    method ProcessTransactionBatchWithRetry(world: World, b: nat, epoch: nat, batch: Batch)
      returns (r: Result<Option<nat>, ForesterError>, ghost last: nat)
      modifies this
      ensures batch.items == [] ==> r == Failure(EmptyChunk) && unchanged(this)
      ensures batch.items != [] ==>
                && last <= maxRetries && (forall k: nat :: k < last ==> world.attempts(b, k).Failed?)
                && (world.attempts(b, last).Failed? ==> last == maxRetries)
                && r == match world.attempts(b, last)
                        case NotEligible => Success(None)
                        case EligibilityError => Failure(EligibilityFailed)
                        case Failed(_) => Failure(SendFailed)
                        case Sent(signature) => Success(Some(signature))
      ensures batch.items != [] ==>
                var wentOut := set k: nat | k <= last
                                            && (world.attempts(b, k).Sent? || world.attempts(b, k) == Failed(true));
                transactions == old(transactions) + seq(|wentOut|, _ => batch.instructions)
      ensures batch.items != [] ==> r == world.ResultOf(b, maxRetries)
      ensures batch.items != [] ==>
                transactions == old(transactions) + Repeat(batch.instructions, world.Transmissions(b, 0, maxRetries))
      ensures if r.Success? && r.value.Some?
              then
                && processed == old(processed)[epoch := old(Count(epoch)) + 1]
                && indexerUpdates == old(indexerUpdates) + Zip(batch.items, batch.proofs)
              else processed == old(processed) && indexerUpdates == old(indexerUpdates)
    {
      last := 0;
      if batch.items == [] {
        return Failure(EmptyChunk), 0;
      }
      var retries := 0;
      ghost var sent := 0;
      while true
        invariant retries <= maxRetries
        invariant transactions == old(transactions) + Repeat(batch.instructions, sent)
        invariant processed == old(processed) && indexerUpdates == old(indexerUpdates)
        invariant forall k: nat :: k < retries ==> world.attempts(b, k).Failed?
        invariant sent == |set k: nat | k < retries && WentOut(world, b, k)|
        invariant world.Settling(b, 0, maxRetries) == world.Settling(b, retries, maxRetries)
        invariant world.Transmissions(b, 0, maxRetries) == sent + world.Transmissions(b, retries, maxRetries)
        decreases maxRetries - retries
      {
        OneAttemptMore(world, b, retries);
        last := retries;
        match world.Outcome(b, retries) {
          case NotEligible =>
            return Success(None), last;
          case EligibilityError =>
            return Failure(EligibilityFailed), last;
          case Sent(signature) =>
            transactions, sent := transactions + [batch.instructions], sent + 1;
            UpdateIndexer(batch.items, batch.proofs);
            IncrementProcessedItemsCount(epoch);
            return Success(Some(signature)), last;
          case Failed(transmitted) =>
            if transmitted {
              transactions, sent := transactions + [batch.instructions], sent + 1;
            }
            if retries >= maxRetries {
              return Failure(SendFailed), last;
            }
            retries := retries + 1;
        }
      }
    }

    /**
     Fetches the proofs of one chunk, cuts the instructions into batches of the same size again,
     and sends them: this is one batch, with the chunk's own instructions.
     */
    method ProcessChunk(world: World, ix: Indexer, b: nat, epoch: nat, chunk: seq<WorkItem>)
      returns (signatures: seq<nat>)
      requires ix.AnswersInOrder() && OneTree(chunk) && 0 < |chunk| <= transactionBatchSize
      modifies this
      ensures signatures == EffectOf(world, ix, b, chunk, maxRetries).signatures
      ensures Did(old(Books()), Books(), epoch, EffectOf(world, ix, b, chunk, maxRetries))
    {
      var proofs, instructions := FetchProofsAndCreateInstructions(ix, chunk);
      OneTreeIsKept(chunk);
      assert instructions == OwnInstructions(ix, chunk) && Zip(chunk, proofs) == OwnUpdates(ix, chunk);
      var transactionChunks, proofChunks := Chunks(instructions, transactionBatchSize),
                                            Chunks(proofs, transactionBatchSize);
      assert transactionChunks == [instructions] && proofChunks == [proofs];
      hide OwnInstructions, OwnUpdates, Zip, Repeat, Chunks;
      signatures := [];
      var i := 0;
      while i < |transactionChunks| && i < |proofChunks|
        invariant i <= 1
        invariant i == 0 ==> signatures == [] && unchanged(this)
        invariant i == 1 ==> signatures == EffectOf(world, ix, b, chunk, maxRetries).signatures
        invariant i == 1 ==> Did(old(Books()), Books(), epoch, EffectOf(world, ix, b, chunk, maxRetries))
      {
        var result, _ := ProcessTransactionBatchWithRetry(world, b, epoch,
                                                       Batch(transactionChunks[i], proofChunks[i], chunk));
        if result.Success? && result.value.Some? {
          signatures := signatures + [result.value.value];
        }
        i := i + 1;
      }
    }

    /**
     Processes the work items of one tree, whose batches have numbers from `first` on. Every chunk
     of items becomes exactly one batch. If the preparation of a batch fails, the error is returned
     and the signatures are lost, but the batches before it were sent and are counted.
     */
    method ProcessWorkItems(world: World, ix: Indexer, epoch: nat, first: nat, items: seq<WorkItem>)
      returns (r: Result<seq<nat>, ForesterError>)
      requires transactionBatchSize > 0 && ix.AnswersInOrder() && OneTree(items)
      modifies this
      ensures var batches := Chunks(items, transactionBatchSize);
              var m, effect := world.Prepared(first, |batches|),
                               ChunkEffects(world, ix, first, items, transactionBatchSize, maxRetries);
              && Did(old(Books()), Books(), epoch, effect)
              && r == if m == |batches| then Success(effect.signatures) else Failure(world.Prepare(first + m).value)
    {
      hide Chunks, EffectOf, Effects, Effect.Then, Did, OneTree, Indexer.AnswersInOrder, World.Prepared;
      OneTreeOfPart(items);
      var chunks, results := Chunks(items, transactionBatchSize), [];
      DidNothing(Books(), epoch);
      NoEffects(world, ix, first, chunks, maxRetries);
      for b := 0 to |chunks|
        invariant world.Prepared(first, |chunks|) == b + world.Prepared(first + b, |chunks| - b)
        invariant results == Effects(world, ix, first, chunks, b, maxRetries).signatures
        invariant Did(old(Books()), Books(), epoch, Effects(world, ix, first, chunks, b, maxRetries))
      {
        PreparedStep(world, first + b, |chunks| - b);
        var error := world.Prepare(first + b);
        if error.Some? {
          return Failure(error.value);
        }
        ChunkSize(items, transactionBatchSize, b);
        assert OneTree(chunks[b]);
        ghost var before := Books();
        var signatures := ProcessChunk(world, ix, first + b, epoch, chunks[b]);
        EffectsStep(world, ix, first, chunks, b, maxRetries);
        DidThen(old(Books()), before, Books(), epoch, Effects(world, ix, first, chunks, b, maxRetries),
                EffectOf(world, ix, first + b, chunks[b], maxRetries));
        results := results + signatures;
      }
      assert world.Prepared(first + |chunks|, 0) == 0;
      return Success(results);
    }

    /** Processes a queue chunk by chunk; an error in one chunk does not keep the others from being processed. */
    method ProcessQueue(world: World, ix: Indexer, epoch: nat, items: seq<WorkItem>)
      requires indexerBatchSize > 0 && transactionBatchSize > 0 && ix.AnswersInOrder() && OneTree(items)
      modifies this
      ensures Did(old(Books()), Books(), epoch,
                  QueueEffects(world, ix, 0, Chunks(items, indexerBatchSize), transactionBatchSize, maxRetries))
    {
      hide Chunks, Effects, QueueEffects, Did, Effect.Then;
      var chunks := Chunks(items, indexerBatchSize);
      var first: nat := 0;
      ghost var done := NOTHING;
      ghost var all := QueueEffects(world, ix, 0, chunks, transactionBatchSize, maxRetries);
      assert chunks[0..] == chunks;
      ThenNothing(all);
      DidNothing(Books(), epoch);
      for c := 0 to |chunks|
        invariant Did(old(Books()), Books(), epoch, done)
        invariant all == done.Then(QueueEffects(world, ix, first, chunks[c..], transactionBatchSize, maxRetries))
      {
        ChunkSize(items, indexerBatchSize, c);
        ghost var before, effect := Books(),
                                    ChunkEffects(world, ix, first, chunks[c], transactionBatchSize, maxRetries);
        QueueStep(world, ix, first, chunks, c, transactionBatchSize, maxRetries, done);
        var _ := ProcessWorkItems(world, ix, epoch, first, chunks[c]);
        DidThen(old(Books()), before, Books(), epoch, done, effect);
        first := first + |Chunks(chunks[c], transactionBatchSize)|;
        done := done.Then(effect);
      }
      QueueEnd(world, ix, first, chunks, transactionBatchSize, maxRetries, done);
    }
  }

  /** The transaction went out in this attempt. */
  ghost predicate WentOut(world: World, b: nat, k: nat) {
    world.attempts(b, k).Sent? || world.attempts(b, k) == Failed(true)
  }

  lemma OneAttemptMore(world: World, b: nat, n: nat)
    ensures |set k: nat | k <= n && WentOut(world, b, k)|
         == |set k: nat | k < n && WentOut(world, b, k)| + (if WentOut(world, b, n) then 1 else 0)
    ensures (set k: nat | k <= n && WentOut(world, b, k)) == set k: nat | k < n + 1 && WentOut(world, b, k)
    ensures (set k: nat | k <= n && WentOut(world, b, k))
         == set k: nat | k <= n && (world.attempts(b, k).Sent? || world.attempts(b, k) == Failed(true))
  {
    var before := set k: nat | k < n && WentOut(world, b, k);
    assert (set k: nat | k <= n && WentOut(world, b, k)) == if WentOut(world, b, n) then before + {n} else before;
  }

  lemma PreparedStep(world: World, first: nat, count: nat)
    requires count > 0
    ensures world.Prepared(first, count) == if world.Prepare(first).Some? then 0
            else 1 + world.Prepared(first + 1, count - 1)
  {
  }

  lemma NoEffects(world: World, ix: Indexer, first: nat, batches: seq<seq<WorkItem>>, maxRetries: nat)
    ensures Effects(world, ix, first, batches, 0, maxRetries) == NOTHING
  {
  }

  lemma EffectsStep(world: World, ix: Indexer, first: nat, batches: seq<seq<WorkItem>>, m: nat, maxRetries: nat)
    requires m < |batches|
    ensures var before, now := Effects(world, ix, first, batches, m, maxRetries),
            EffectOf(world, ix, first + m, batches[m], maxRetries);
            var after := Effects(world, ix, first, batches, m + 1, maxRetries);
            after == before.Then(now) && after.signatures == before.signatures + now.signatures
  {
  }

  lemma ThenNothing(a: Effect)
    ensures NOTHING.Then(a) == a == a.Then(NOTHING)
  {
  }

  lemma QueueStep(world: World, ix: Indexer, first: nat, chunks: seq<seq<WorkItem>>, c: nat, size: nat, maxRetries: nat,
                  done: Effect)
    requires size > 0 && c < |chunks|
    ensures done.Then(QueueEffects(world, ix, first, chunks[c..], size, maxRetries))
         == done.Then(ChunkEffects(world, ix, first, chunks[c], size, maxRetries))
            .Then(QueueEffects(world, ix, first + |Chunks(chunks[c], size)|, chunks[c + 1..], size, maxRetries))
  {
    hide ChunkEffects, Chunks, Effect.Then;
    assert chunks[c..][0] == chunks[c] && chunks[c..][1..] == chunks[c + 1..];
    ThenThen(done, ChunkEffects(world, ix, first, chunks[c], size, maxRetries),
             QueueEffects(world, ix, first + |Chunks(chunks[c], size)|, chunks[c + 1..], size, maxRetries));
  }

  lemma QueueEnd(world: World, ix: Indexer, first: nat, chunks: seq<seq<WorkItem>>, size: nat, maxRetries: nat,
                 done: Effect)
    requires size > 0
    ensures done.Then(QueueEffects(world, ix, first, chunks[|chunks|..], size, maxRetries)) == done
  {
    ThenNothing(done);
  }

  lemma ThenThen(a: Effect, b: Effect, c: Effect)
    ensures a.Then(b.Then(c)) == a.Then(b).Then(c)
  {
  }

  ghost predicate OneTree(items: seq<WorkItem>) {
    forall a, b :: a in items && b in items ==> a.treeType == b.treeType && a.merkleTree == b.merkleTree
  }

  lemma OneTreeOfPart(items: seq<WorkItem>)
    requires OneTree(items)
    ensures forall part: seq<WorkItem> {:trigger OneTree(part)} :: (forall x :: x in part ==> x in items) ==>
              OneTree(part)
  {
  }

  lemma OneTreeIsKept(items: seq<WorkItem>)
    requires OneTree(items)
    ensures OneAddressTree(items) && Select(items, Address) + Select(items, State) == items
  {
    OrderIsKept(items);
  }

  // ---------------------------------------------------------------------------
  // Every item once
  // ---------------------------------------------------------------------------

  /** The transactions of batches that are transmitted once each. */
  function OwnTransactions(ix: Indexer, batches: seq<seq<WorkItem>>): seq<seq<Instruction>> {
    if batches == [] then [] else [OwnInstructions(ix, batches[0])] + OwnTransactions(ix, batches[1..])
  }

  lemma OwnConcat(ix: Indexer, a: seq<WorkItem>, b: seq<WorkItem>)
    ensures OwnInstructions(ix, a + b) == OwnInstructions(ix, a) + OwnInstructions(ix, b)
    ensures OwnUpdates(ix, a + b) == OwnUpdates(ix, a) + OwnUpdates(ix, b)
  {
  }

  /** The transactions of all batches hold the instruction of every item once, in order. */
  lemma {:induction false} OwnTransactionsFlatten(ix: Indexer, batches: seq<seq<WorkItem>>)
    ensures Flatten(OwnTransactions(ix, batches)) == OwnInstructions(ix, Flatten(batches))
  {
    if batches != [] {
      OwnTransactionsFlatten(ix, batches[1..]);
      FlattenCons(OwnInstructions(ix, batches[0]), OwnTransactions(ix, batches[1..]));
      OwnConcat(ix, batches[0], Flatten(batches[1..]));
    }
  }

  /** Every item's instruction, made from its own proof, is in exactly one batch of the queue, and nothing else is. */
  lemma EveryItemInOneBatch(ix: Indexer, items: seq<WorkItem>, indexerBatchSize: nat, transactionBatchSize: nat)
    requires indexerBatchSize > 0 && transactionBatchSize > 0
    ensures Flatten(OwnTransactions(ix, Batches(Chunks(items, indexerBatchSize), transactionBatchSize))) ==
            OwnInstructions(ix, items)
  {
    OwnTransactionsFlatten(ix, Batches(Chunks(items, indexerBatchSize), transactionBatchSize));
    QueueIsCovered(items, indexerBatchSize, transactionBatchSize);
  }

  /** What becomes of a batch: how often it is transmitted, and the signature if it goes through. */
  datatype Fate = Fate(transmissions: nat, signature: Option<nat>)

  const LOST := Fate(0, None)

  function FateOf(world: World, b: nat, maxRetries: nat): Fate {
    var result := world.ResultOf(b, maxRetries);
    Fate(world.Transmissions(b, 0, maxRetries), if result.Success? then result.value else None)
  }

  lemma {:induction false} SettlesAt(world: World, b: nat, n: nat, maxRetries: nat)
    requires n <= maxRetries
    ensures var last := world.Settling(b, n, maxRetries);
            && (forall k: nat :: n <= k < last ==> world.attempts(b, k).Failed?)
            && (world.attempts(b, last).Failed? ==> last == maxRetries)
    decreases maxRetries - n
  {
    if world.Outcome(b, n).Failed? && n < maxRetries { SettlesAt(world, b, n + 1, maxRetries); }
  }

  /** The first `n` attempts fail. */
  ghost predicate FailsBefore(world: World, b: nat, n: nat) {
    forall k: nat :: k < n ==> world.attempts(b, k).Failed?
  }

  /** The batch goes through in attempt `n`, after failed attempts only. */
  ghost predicate SentIn(world: World, b: nat, n: nat, signature: nat) {
    world.attempts(b, n) == Sent(signature) && FailsBefore(world, b, n)
  }

  /**
   Retrying in terms of the attempts alone: a signature is returned exactly if an attempt within
   the limit returns it after failed attempts only, and sending fails exactly if all attempts
   that are allowed fail.
   */
  lemma RetryIs(world: World, b: nat, maxRetries: nat, signature: nat)
    ensures world.ResultOf(b, maxRetries) == Success(Some(signature)) <==>
            exists n: nat :: n <= maxRetries && SentIn(world, b, n, signature)
    ensures world.ResultOf(b, maxRetries) == Failure(SendFailed) <==> FailsBefore(world, b, maxRetries + 1)
  {
    var last := world.Settling(b, 0, maxRetries);
    SettlesAt(world, b, 0, maxRetries);
    if world.ResultOf(b, maxRetries) == Success(Some(signature)) { assert SentIn(world, b, last, signature); }
  }

  /** The fates of the `m` batches from `first` on. */
  function FatesFrom(world: World, first: nat, m: nat, maxRetries: nat): (fates: seq<Fate>)
    ensures |fates| == m && forall i: nat :: i < m ==> fates[i] == FateOf(world, first + i, maxRetries)
  {
    if m == 0 then [] else FatesFrom(world, first, m - 1, maxRetries) + [FateOf(world, first + m - 1, maxRetries)]
  }

  /** The fates of the batches of a chunk; those behind a failed preparation are lost. */
  function ChunkFates(world: World, first: nat, count: nat, maxRetries: nat): (fates: seq<Fate>)
    ensures |fates| == count
  {
    var m := world.Prepared(first, count);
    FatesFrom(world, first, m, maxRetries) + Repeat(LOST, count - m)
  }

  /** A batch of a chunk is processed exactly if its preparation and those of all batches before it succeed. */
  lemma FateIs(world: World, first: nat, count: nat, maxRetries: nat, i: nat)
    requires i < count
    ensures ChunkFates(world, first, count, maxRetries)[i] ==
            if forall k: nat :: first <= k <= first + i ==> world.preparation(k).None?
            then FateOf(world, first + i, maxRetries) else Fate(0, None)
  {
    hide FateOf;
    var m := world.Prepared(first, count);
    if i < m {
      forall k: nat | first <= k <= first + i ensures world.preparation(k).None? {
        assert world.Prepare(k).None?;
      }
    } else {
      assert world.preparation(first + m).Some?;
    }
  }

  /** The fates of all batches of a queue. */
  function QueueFates<T>(world: World, first: nat, chunks: seq<seq<T>>, size: nat, maxRetries: nat): (fates: seq<Fate>)
    requires size > 0
    ensures |fates| == |Batches(chunks, size)|
    decreases chunks
  {
    if chunks == [] then []
    else
      var count := |Chunks(chunks[0], size)|;
      ChunkFates(world, first, count, maxRetries) + QueueFates(world, first + count, chunks[1..], size, maxRetries)
  }

  /** The transactions of batches with these fates: the own instructions of each, repeated. */
  function Transmitted(ix: Indexer, batches: seq<seq<WorkItem>>, fates: seq<Fate>): seq<seq<Instruction>>
    requires |fates| == |batches|
  {
    if batches == [] then []
    else Repeat(OwnInstructions(ix, batches[0]), fates[0].transmissions) + Transmitted(ix, batches[1..], fates[1..])
  }

  /** The batches that went through. */
  function Signed<T>(batches: seq<seq<T>>, fates: seq<Fate>): seq<seq<T>>
    requires |fates| == |batches|
  {
    if batches == [] then []
    else (if fates[0].signature.Some? then [batches[0]] else []) + Signed(batches[1..], fates[1..])
  }

  /** No batch is transmitted more often than allowed, and one that goes through was transmitted. */
  ghost predicate Possible(fate: Fate, maxRetries: nat) {
    fate.transmissions <= maxRetries + 1 && (fate.signature.Some? ==> fate.transmissions >= 1)
  }

  /** The effect is what batches with these fates add up to, in order. */
  ghost predicate AddsUp(ix: Indexer, batches: seq<seq<WorkItem>>, fates: seq<Fate>, effect: Effect, maxRetries: nat) {
    && |fates| == |batches| && (forall i: nat :: i < |fates| ==> Possible(fates[i], maxRetries))
    && effect.transactions == Transmitted(ix, batches, fates)
    && effect.updates == OwnUpdates(ix, Flatten(Signed(batches, fates)))
    && |effect.signatures| == |Signed(batches, fates)|
  }

  lemma {:induction false} TransmittedConcat(ix: Indexer, a: seq<seq<WorkItem>>, fa: seq<Fate>, b: seq<seq<WorkItem>>,
                                             fb: seq<Fate>)
    requires |fa| == |a| && |fb| == |b|
    ensures Transmitted(ix, a + b, fa + fb) == Transmitted(ix, a, fa) + Transmitted(ix, b, fb)
  {
    hide OwnInstructions, Repeat;
    if a == [] {
      assert a + b == b && fa + fb == fb;
    } else {
      TransmittedConcat(ix, a[1..], fa[1..], b, fb);
      TransmittedCons(ix, a[0], fa[0], a[1..] + b, fa[1..] + fb);
      assert [a[0]] + (a[1..] + b) == a + b && [fa[0]] + (fa[1..] + fb) == fa + fb;
    }
  }

  lemma TransmittedCons(ix: Indexer, a: seq<WorkItem>, fate: Fate, b: seq<seq<WorkItem>>, fates: seq<Fate>)
    requires |fates| == |b|
    ensures Transmitted(ix, [a] + b, [fate] + fates)
         == Repeat(OwnInstructions(ix, a), fate.transmissions) + Transmitted(ix, b, fates)
  {
    assert ([a] + b)[1..] == b && ([fate] + fates)[1..] == fates;
  }

  lemma {:induction false} SignedConcat<T>(a: seq<seq<T>>, fa: seq<Fate>, b: seq<seq<T>>, fb: seq<Fate>)
    requires |fa| == |a| && |fb| == |b|
    ensures Signed(a + b, fa + fb) == Signed(a, fa) + Signed(b, fb)
  {
    if a == [] {
      assert a + b == b && fa + fb == fb;
    } else {
      SignedConcat(a[1..], fa[1..], b, fb);
      SignedCons(a[0], fa[0], a[1..] + b, fa[1..] + fb);
      assert [a[0]] + (a[1..] + b) == a + b && [fa[0]] + (fa[1..] + fb) == fa + fb;
    }
  }

  lemma SignedCons<T>(a: seq<T>, fate: Fate, b: seq<seq<T>>, fates: seq<Fate>)
    requires |fates| == |b|
    ensures Signed([a] + b, [fate] + fates) == (if fate.signature.Some? then [a] else []) + Signed(b, fates)
  {
    assert ([a] + b)[1..] == b && ([fate] + fates)[1..] == fates;
  }

  lemma AddsUpThen(ix: Indexer, a: seq<seq<WorkItem>>, fa: seq<Fate>, ea: Effect, b: seq<seq<WorkItem>>, fb: seq<Fate>,
                   eb: Effect, maxRetries: nat)
    requires AddsUp(ix, a, fa, ea, maxRetries) && AddsUp(ix, b, fb, eb, maxRetries)
    ensures AddsUp(ix, a + b, fa + fb, ea.Then(eb), maxRetries)
  {
    hide Transmitted, Signed, OwnUpdates, Possible, Flatten;
    TransmittedConcat(ix, a, fa, b, fb);
    SignedConcat(a, fa, b, fb);
    FlattenConcat(Signed(a, fa), Signed(b, fb));
    OwnConcat(ix, Flatten(Signed(a, fa)), Flatten(Signed(b, fb)));
  }

  lemma AddsUpNone(ix: Indexer, maxRetries: nat)
    ensures AddsUp(ix, [], [], NOTHING, maxRetries)
  {
  }

  lemma {:induction false} SignedIsTransmitted(world: World, b: nat, n: nat, maxRetries: nat)
    requires n <= maxRetries && world.Outcome(b, world.Settling(b, n, maxRetries)).Sent?
    ensures world.Transmissions(b, n, maxRetries) >= 1
    decreases maxRetries - n
  {
    if world.Outcome(b, n).Failed? && n < maxRetries { SignedIsTransmitted(world, b, n + 1, maxRetries); }
  }

  lemma AddsUpOne(world: World, ix: Indexer, b: nat, items: seq<WorkItem>, maxRetries: nat)
    ensures AddsUp(ix, [items], [FateOf(world, b, maxRetries)], EffectOf(world, ix, b, items, maxRetries), maxRetries)
  {
    hide OwnInstructions, OwnUpdates, Repeat;
    var fate := FateOf(world, b, maxRetries);
    if fate.signature.Some? { SignedIsTransmitted(world, b, 0, maxRetries); }
    assert Transmitted(ix, [items], [fate])
        == Repeat(OwnInstructions(ix, items), fate.transmissions) + Transmitted(ix, [], []);
    assert Signed([items], [fate]) == if fate.signature.Some? then [items] else [];
    FlattenCons(items, []);
    NothingOwned(ix);
  }

  lemma NothingOwned(ix: Indexer)
    ensures OwnUpdates(ix, Flatten([])) == []
  {
  }

  lemma LostBatch(ix: Indexer, items: seq<WorkItem>, maxRetries: nat)
    ensures AddsUp(ix, [items], [LOST], NOTHING, maxRetries)
  {
    hide OwnInstructions;
    TransmittedCons(ix, items, LOST, [], []);
    assert [items] + [] == [items] && [LOST] + [] == [LOST];
    assert Signed([items], [LOST]) == [];
  }

  lemma {:induction false} AddsUpLost(ix: Indexer, batches: seq<seq<WorkItem>>, maxRetries: nat)
    ensures AddsUp(ix, batches, Repeat(LOST, |batches|), NOTHING, maxRetries)
  {
    if batches == [] {
      AddsUpNone(ix, maxRetries);
    } else {
      AddsUpLost(ix, batches[1..], maxRetries);
      LostBatch(ix, batches[0], maxRetries);
      hide AddsUp;
      AddsUpThen(ix, [batches[0]], [LOST], NOTHING, batches[1..], Repeat(LOST, |batches[1..]|), NOTHING, maxRetries);
      assert [LOST] + Repeat(LOST, |batches[1..]|) == Repeat(LOST, |batches|);
      assert [batches[0]] + batches[1..] == batches;
    }
  }

  lemma {:induction false} EffectsAddUp(world: World, ix: Indexer, first: nat, batches: seq<seq<WorkItem>>, m: nat,
                                        maxRetries: nat)
    requires m <= |batches|
    ensures AddsUp(ix, batches[..m], FatesFrom(world, first, m, maxRetries),
                   Effects(world, ix, first, batches, m, maxRetries), maxRetries)
  {
    hide AddsUp, EffectOf, FateOf, Effect.Then;
    if m == 0 {
      AddsUpNone(ix, maxRetries);
      assert batches[..0] == [];
    } else {
      EffectsAddUp(world, ix, first, batches, m - 1, maxRetries);
      AddsUpOne(world, ix, first + m - 1, batches[m - 1], maxRetries);
      AddsUpThen(ix, batches[..m - 1], FatesFrom(world, first, m - 1, maxRetries),
                 Effects(world, ix, first, batches, m - 1, maxRetries), [batches[m - 1]],
                 [FateOf(world, first + m - 1, maxRetries)],
                 EffectOf(world, ix, first + m - 1, batches[m - 1], maxRetries), maxRetries);
      assert batches[..m - 1] + [batches[m - 1]] == batches[..m];
    }
  }

  lemma ChunkAddsUp(world: World, ix: Indexer, first: nat, items: seq<WorkItem>, size: nat, maxRetries: nat)
    requires size > 0
    ensures var batches := Chunks(items, size);
            AddsUp(ix, batches, ChunkFates(world, first, |batches|, maxRetries),
                   ChunkEffects(world, ix, first, items, size, maxRetries), maxRetries)
  {
    hide AddsUp, Effects, FateOf, Chunks, Repeat, Effect.Then;
    var batches := Chunks(items, size);
    var m := world.Prepared(first, |batches|);
    var effect := Effects(world, ix, first, batches, m, maxRetries);
    EffectsAddUp(world, ix, first, batches, m, maxRetries);
    AddsUpLost(ix, batches[m..], maxRetries);
    AddsUpThen(ix, batches[..m], FatesFrom(world, first, m, maxRetries), effect,
               batches[m..], Repeat(LOST, |batches| - m), NOTHING, maxRetries);
    ThenNothing(effect);
    assert batches[..m] + batches[m..] == batches;
  }

  lemma {:induction false} QueueAddsUp(world: World, ix: Indexer, first: nat, chunks: seq<seq<WorkItem>>, size: nat,
                                       maxRetries: nat)
    requires size > 0
    ensures AddsUp(ix, Batches(chunks, size), QueueFates(world, first, chunks, size, maxRetries),
                   QueueEffects(world, ix, first, chunks, size, maxRetries), maxRetries)
    decreases chunks
  {
    hide AddsUp, ChunkEffects, ChunkFates, Chunks, Effect.Then;
    if chunks == [] {
      AddsUpNone(ix, maxRetries);
    } else {
      var batches := Chunks(chunks[0], size);
      ChunkAddsUp(world, ix, first, chunks[0], size, maxRetries);
      QueueAddsUp(world, ix, first + |batches|, chunks[1..], size, maxRetries);
      AddsUpThen(ix, batches, ChunkFates(world, first, |batches|, maxRetries),
                 ChunkEffects(world, ix, first, chunks[0], size, maxRetries), Batches(chunks[1..], size),
                 QueueFates(world, first + |batches|, chunks[1..], size, maxRetries),
                 QueueEffects(world, ix, first + |batches|, chunks[1..], size, maxRetries), maxRetries);
    }
  }

  /**
   Whatever goes wrong: the batches of a queue hold its items in order, each batch transmits its
   own instructions and nothing else, at most maxRetries + 1 times, and the indexer is told about
   the items of exactly those batches that returned a signature, once and with their own proofs.
   */
  lemma EveryBatchHasItsFate(world: World, ix: Indexer, items: seq<WorkItem>, indexerBatchSize: nat,
                             transactionBatchSize: nat, maxRetries: nat)
    requires indexerBatchSize > 0 && transactionBatchSize > 0
    ensures var chunks := Chunks(items, indexerBatchSize);
            var batches := Batches(chunks, transactionBatchSize);
            && Flatten(batches) == items
            && AddsUp(ix, batches, QueueFates(world, 0, chunks, transactionBatchSize, maxRetries),
                      QueueEffects(world, ix, 0, chunks, transactionBatchSize, maxRetries), maxRetries)
  {
    QueueIsCovered(items, indexerBatchSize, transactionBatchSize);
    QueueAddsUp(world, ix, 0, Chunks(items, indexerBatchSize), transactionBatchSize, maxRetries);
  }

  /** All preparations succeed and all batches go through at the first attempt. */
  ghost predicate Smooth(world: World) {
    forall b: nat :: world.Prepare(b).None? && world.Outcome(b, 0).Sent?
  }

  /** Every batch is transmitted once and goes through. */
  ghost predicate AllOnce(fates: seq<Fate>) {
    forall i: nat :: i < |fates| ==> fates[i].transmissions == 1 && fates[i].signature.Some?
  }

  lemma {:induction false} SmoothPrepared(world: World, first: nat, count: nat)
    requires Smooth(world)
    ensures world.Prepared(first, count) == count
    decreases count
  {
    if count > 0 {
      assert world.Prepare(first).None?;
      SmoothPrepared(world, first + 1, count - 1);
    }
  }

  lemma SmoothFate(world: World, b: nat, maxRetries: nat)
    requires Smooth(world)
    ensures FateOf(world, b, maxRetries).transmissions == 1 && FateOf(world, b, maxRetries).signature.Some?
  {
    assert world.Outcome(b, 0).Sent?;
  }

  lemma SmoothChunkFates(world: World, first: nat, count: nat, maxRetries: nat)
    requires Smooth(world)
    ensures AllOnce(ChunkFates(world, first, count, maxRetries))
  {
    SmoothPrepared(world, first, count);
    var fates := ChunkFates(world, first, count, maxRetries);
    hide FateOf, Smooth;
    forall i: nat | i < count ensures fates[i].transmissions == 1 && fates[i].signature.Some? {
      assert fates[i] == FateOf(world, first + i, maxRetries);
      SmoothFate(world, first + i, maxRetries);
    }
  }

  lemma AllOnceConcat(a: seq<Fate>, b: seq<Fate>)
    requires AllOnce(a) && AllOnce(b)
    ensures AllOnce(a + b)
  {
  }

  lemma {:induction false} SmoothFates<T>(world: World, first: nat, chunks: seq<seq<T>>, size: nat, maxRetries: nat)
    requires Smooth(world) && size > 0
    ensures AllOnce(QueueFates(world, first, chunks, size, maxRetries))
    decreases chunks
  {
    if chunks != [] {
      hide AllOnce, ChunkFates, Chunks, Smooth;
      var count := |Chunks(chunks[0], size)|;
      SmoothChunkFates(world, first, count, maxRetries);
      SmoothFates(world, first + count, chunks[1..], size, maxRetries);
      AllOnceConcat(ChunkFates(world, first, count, maxRetries),
                    QueueFates(world, first + count, chunks[1..], size, maxRetries));
    }
  }

  lemma {:induction false} OnceAddsUp(ix: Indexer, batches: seq<seq<WorkItem>>, fates: seq<Fate>)
    requires |fates| == |batches| && AllOnce(fates)
    ensures Transmitted(ix, batches, fates) == OwnTransactions(ix, batches) && Signed(batches, fates) == batches
    ensures |OwnTransactions(ix, batches)| == |batches|
  {
    hide OwnInstructions;
    if batches != [] {
      OnceAddsUp(ix, batches[1..], fates[1..]);
      assert Repeat(OwnInstructions(ix, batches[0]), 1) == [OwnInstructions(ix, batches[0])];
    }
  }

  /**
   If nothing goes wrong, processing a queue transmits the instruction of every item, made from
   its own proof, exactly once and in order, tells the indexer about every item with its own
   proof exactly once and in order, and counts one success per transaction.
   */
  lemma EveryItemOnce(world: World, ix: Indexer, items: seq<WorkItem>, indexerBatchSize: nat, transactionBatchSize: nat,
                      maxRetries: nat)
    requires Smooth(world) && indexerBatchSize > 0 && transactionBatchSize > 0
    ensures var effect := QueueEffects(world, ix, 0, Chunks(items, indexerBatchSize), transactionBatchSize, maxRetries);
            && Flatten(effect.transactions) == OwnInstructions(ix, items)
            && effect.updates == OwnUpdates(ix, items)
            && |effect.signatures| == |effect.transactions|
  {
    hide Chunks, Batches, Flatten, OwnInstructions, OwnUpdates, QueueEffects, QueueFates;
    var chunks := Chunks(items, indexerBatchSize);
    SmoothFates(world, 0, chunks, transactionBatchSize, maxRetries);
    EveryBatchHasItsFate(world, ix, items, indexerBatchSize, transactionBatchSize, maxRetries);
    OnceAddsUp(ix, Batches(chunks, transactionBatchSize),
               QueueFates(world, 0, chunks, transactionBatchSize, maxRetries));
    EveryItemInOneBatch(ix, items, indexerBatchSize, transactionBatchSize);
  }

  // ---------------------------------------------------------------------------
  // Any schedule
  // ---------------------------------------------------------------------------

  /** The next element of part `c` is `x`. */
  ghost predicate NextIs<T(!new)>(parts: seq<seq<T>>, c: nat, x: T) {
    c < |parts| && parts[c] != [] && parts[c][0] == x
  }

  /** The parts take turns in any way, each in its own order, until all are used up. */
  ghost predicate Interleaves<T(!new)>(parts: seq<seq<T>>, whole: seq<T>)
    decreases |whole|
  {
    if whole == [] then forall c: nat :: c < |parts| ==> parts[c] == []
    else exists c: nat :: NextIs(parts, c, whole[0]) && Interleaves(parts[c := parts[c][1..]], whole[1..])
  }

  lemma {:induction false} FlattenTake<T>(parts: seq<seq<T>>, c: nat)
    requires c < |parts| && parts[c] != []
    ensures multiset(Flatten(parts)) == multiset{parts[c][0]} + multiset(Flatten(parts[c := parts[c][1..]]))
  {
    var rest := parts[c := parts[c][1..]];
    if c == 0 {
      assert parts[0] == [parts[0][0]] + rest[0];
    } else {
      FlattenTake(parts[1..], c - 1);
      assert rest[1..] == parts[1..][c - 1 := parts[c][1..]];
    }
  }

  lemma {:induction false} NothingLeft<T>(parts: seq<seq<T>>)
    requires forall c: nat :: c < |parts| ==> parts[c] == []
    ensures Flatten(parts) == []
  {
    if parts != [] { NothingLeft(parts[1..]); }
  }

  lemma {:induction false} InterleavingKeepsAll<T(!new)>(parts: seq<seq<T>>, whole: seq<T>)
    requires Interleaves(parts, whole)
    ensures multiset(whole) == multiset(Flatten(parts))
    decreases |whole|
  {
    if whole == [] {
      NothingLeft(parts);
    } else {
      var c: nat :| NextIs(parts, c, whole[0]) && Interleaves(parts[c := parts[c][1..]], whole[1..]);
      InterleavingKeepsAll(parts[c := parts[c][1..]], whole[1..]);
      FlattenTake(parts, c);
      assert whole == [whole[0]] + whole[1..];
    }
  }

  /** What the tasks do that `process_queue` spawns, one per chunk. */
  function TaskEffects(world: World, ix: Indexer, first: nat, chunks: seq<seq<WorkItem>>, size: nat, maxRetries: nat)
    : seq<Effect>
    requires size > 0
    decreases chunks
  {
    if chunks == [] then []
    else
      [ChunkEffects(world, ix, first, chunks[0], size, maxRetries)]
      + TaskEffects(world, ix, first + |Chunks(chunks[0], size)|, chunks[1..], size, maxRetries)
  }

  function AllTransactions(effects: seq<Effect>): seq<seq<seq<Instruction>>> {
    seq(|effects|, c requires 0 <= c < |effects| => effects[c].transactions)
  }

  function AllUpdates(effects: seq<Effect>): seq<seq<IndexerUpdate>> {
    seq(|effects|, c requires 0 <= c < |effects| => effects[c].updates)
  }

  lemma {:induction false} TasksMakeQueue(world: World, ix: Indexer, first: nat, chunks: seq<seq<WorkItem>>, size: nat,
                                          maxRetries: nat)
    requires size > 0
    ensures var effects, all := TaskEffects(world, ix, first, chunks, size, maxRetries),
                                QueueEffects(world, ix, first, chunks, size, maxRetries);
            Flatten(AllTransactions(effects)) == all.transactions && Flatten(AllUpdates(effects)) == all.updates
    decreases chunks
  {
    hide ChunkEffects, Chunks;
    if chunks != [] {
      var now := ChunkEffects(world, ix, first, chunks[0], size, maxRetries);
      var later := TaskEffects(world, ix, first + |Chunks(chunks[0], size)|, chunks[1..], size, maxRetries);
      TasksMakeQueue(world, ix, first + |Chunks(chunks[0], size)|, chunks[1..], size, maxRetries);
      assert AllTransactions([now] + later) == [now.transactions] + AllTransactions(later);
      assert AllUpdates([now] + later) == [now.updates] + AllUpdates(later);
      FlattenCons(now.transactions, AllTransactions(later));
      FlattenCons(now.updates, AllUpdates(later));
    }
  }

  /**
   The chunks of a queue are processed concurrently. However their tasks take turns, the same
   transactions are transmitted equally often and the indexer is told the same updates equally
   often as when they are processed one after the other.
   */
  lemma AnyScheduleDoesTheSame(world: World, ix: Indexer, chunks: seq<seq<WorkItem>>, size: nat, maxRetries: nat,
                               transactions: seq<seq<Instruction>>, updates: seq<IndexerUpdate>)
    requires size > 0
    requires Interleaves(AllTransactions(TaskEffects(world, ix, 0, chunks, size, maxRetries)), transactions)
    requires Interleaves(AllUpdates(TaskEffects(world, ix, 0, chunks, size, maxRetries)), updates)
    ensures var all := QueueEffects(world, ix, 0, chunks, size, maxRetries);
            multiset(transactions) == multiset(all.transactions) && multiset(updates) == multiset(all.updates)
  {
    var effects := TaskEffects(world, ix, 0, chunks, size, maxRetries);
    InterleavingKeepsAll(AllTransactions(effects), transactions);
    InterleavingKeepsAll(AllUpdates(effects), updates);
    TasksMakeQueue(world, ix, 0, chunks, size, maxRetries);
  }
}
