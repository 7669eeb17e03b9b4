/** `Transaction`, `Block` and `Blockchain` (3.py:5-72): a chain of blocks,
    each committing to its transactions, its creation time, a nonce and the
    previous block's hash, plus a pool of signed transactions waiting for the
    next block.  SHA-256, `str(datetime)` and `str(transaction)` are taken
    from an environment; timestamps are the clock readings the caller passes. */
module Ledger {
  import opened Outcomes
  import opened Hashing
  import opened Text
  import opened Cipher

  /** A reading of `datetime.now()`. */
  type Timestamp = nat

  datatype Transaction = Transaction(
    sender: string,
    recipient: string,
    amount: int,
    timestamp: Timestamp,
    signature: Option<string>)

  datatype Block = Block(
    transactions: seq<Transaction>,
    previousHash: string,
    timestamp: Timestamp,
    nonce: nat,
    hash: Digest)

  /** What the program takes from its runtime: the hash function and the
      `str` of a time stamp and of a transaction object. */
  datatype Env = Env(sha: Hasher, timeText: Timestamp -> string, txText: Transaction -> string)

  /** `Blockchain`: the chain and `current_transactions`, the pool. */
  datatype Blockchain = Blockchain(chain: seq<Block>, currentTransactions: seq<Transaction>)

  /** The `str` of each transaction of a list. */
  function TxTexts(env: Env, txs: seq<Transaction>): (r: seq<string>)
    ensures |r| == |txs|
  {
    seq(|txs|, i requires 0 <= i < |txs| => env.txText(txs[i]))
  }

  /** `str(list)`: the items' texts between brackets, separated by ", ". */
  function ListText(env: Env, txs: seq<Transaction>): string {
    "[" + JoinWith(TxTexts(env, txs), ", ") + "]"
  }

  /** The text `calculate_hash` feeds to SHA-256 for the given fields. */
  function BlockText(env: Env, txs: seq<Transaction>, previousHash: string, timestamp: Timestamp, nonce: nat): (text: string)
    ensures var time := env.timeText(timestamp);
            && |text| >= |time| + |previousHash| + 3
            && text[..|time|] == time && text[|time|] == '['
            && text[|text| - |previousHash|..] == previousHash
            && IsDigit(text[|text| - |previousHash| - 1])
  {
    env.timeText(timestamp) + ListText(env, txs) + NatToDecimal(nonce) + previousHash
  }

  /** `calculate_hash` for a block whose nonce is `nonce`. */
  function NonceHash(env: Env, b: Block, nonce: nat): Digest {
    env.sha(BlockText(env, b.transactions, b.previousHash, b.timestamp, nonce))
  }

  /** The stored hash is the hash of the block's current fields. */
  predicate Consistent(env: Env, b: Block) {
    b.hash == NonceHash(env, b, b.nonce)
  }

  /** Distinct nonces give distinct hashed texts, so every step of the
      search asks the hash function about a new input. */
  lemma NonceChangesText(env: Env, b: Block, k1: nat, k2: nat)
    requires k1 != k2
    ensures BlockText(env, b.transactions, b.previousHash, b.timestamp, k1)
         != BlockText(env, b.transactions, b.previousHash, b.timestamp, k2)
  {
    var head := env.timeText(b.timestamp) + ListText(env, b.transactions);
    var d1, d2 := NatToDecimal(k1), NatToDecimal(k2);
    DecimalRoundTrip(k1);
    DecimalRoundTrip(k2);
    var t1 := BlockText(env, b.transactions, b.previousHash, b.timestamp, k1);
    var t2 := BlockText(env, b.transactions, b.previousHash, b.timestamp, k2);
    assert t1 == head + d1 + b.previousHash && t2 == head + d2 + b.previousHash;
    if |d1| == |d2| {
      assert t1[|head|..|head| + |d1|] == d1;
      assert t2[|head|..|head| + |d2|] == d2;
    } else {
      assert |t1| != |t2|;
    }
  }

  /** `Block(transactions, previous_hash)` created at time `timestamp`. */
  function NewBlock(env: Env, txs: seq<Transaction>, previousHash: string, timestamp: Timestamp): (b: Block)
    ensures b.transactions == txs && b.previousHash == previousHash && b.timestamp == timestamp
    ensures b.nonce == 0 && Consistent(env, b)
  {
    Block(txs, previousHash, timestamp, 0, env.sha(BlockText(env, txs, previousHash, timestamp, 0)))
  }

  /** `create_genesis_block`: no transactions, previous hash `''`, and its
      hash is that of the time stamp text followed by `[]0`. */
  function Genesis(env: Env, timestamp: Timestamp): (b: Block)
    ensures b.transactions == [] && b.previousHash == "" && b.nonce == 0
    ensures b.hash == env.sha(env.timeText(timestamp) + "[]0")
  {
    assert BlockText(env, [], "", timestamp, 0) == env.timeText(timestamp) + "[]0";
    NewBlock(env, [], "", timestamp)
  }

  /** The difficulty `proof_of_work` aims at. */
  const Target: string := "0000"

  /** `block.hash[:4] == "0000"`. */
  predicate MeetsTarget(d: Digest) {
    d[..4] == Target
  }

  /** The block after the search has moved its nonce to `nonce`. */
  function WithNonce(env: Env, b: Block, nonce: nat): Block {
    b.(nonce := nonce, hash := NonceHash(env, b, nonce))
  }

  /** `proof_of_work`: raise the nonce one at a time, rehashing, until the
      hash starts with four zeros.  `proof` plays no part.  The search gives
      up after `fuel` increments, which the program does not do. */
  method ProofOfWork(env: Env, b: Block, proof: int, fuel: nat) returns (r: Option<Block>)
    requires Consistent(env, b)
    ensures r.None? <==> forall k :: b.nonce <= k <= b.nonce + fuel ==> !MeetsTarget(NonceHash(env, b, k))
    ensures r.Some? ==> b.nonce <= r.value.nonce <= b.nonce + fuel
    ensures r.Some? ==> r.value == WithNonce(env, b, r.value.nonce)
    ensures r.Some? ==> MeetsTarget(r.value.hash) && Consistent(env, r.value)
    ensures r.Some? ==> forall k :: b.nonce <= k < r.value.nonce ==> !MeetsTarget(NonceHash(env, b, k))
    ensures r.Some? ==> r.value.transactions == b.transactions && r.value.previousHash == b.previousHash
                        && r.value.timestamp == b.timestamp
  {
    var block := b;
    while !MeetsTarget(block.hash)
      invariant b.nonce <= block.nonce <= b.nonce + fuel
      invariant block == WithNonce(env, b, block.nonce)
      invariant forall k :: b.nonce <= k < block.nonce ==> !MeetsTarget(NonceHash(env, b, k))
      decreases b.nonce + fuel - block.nonce
    {
      if block.nonce == b.nonce + fuel {
        return None;
      }
      block := block.(nonce := block.nonce + 1);
      block := block.(hash := NonceHash(env, block, block.nonce));
    }
    return Some(block);
  }

  /** Consecutive blocks are linked by their hashes. */
  predicate Linked(chain: seq<Block>) {
    forall i :: 1 <= i < |chain| ==> chain[i].previousHash == chain[i - 1].hash
  }

  /** What every `Blockchain` the program builds satisfies: it starts with a
      genesis block, every stored hash matches its block, consecutive blocks
      are linked, and every block after the genesis block met the target. */
  predicate Valid(env: Env, bc: Blockchain) {
    && |bc.chain| >= 1
    && bc.chain[0].transactions == [] && bc.chain[0].previousHash == "" && bc.chain[0].nonce == 0
    && (forall i :: 0 <= i < |bc.chain| ==> Consistent(env, bc.chain[i]))
    && Linked(bc.chain)
    && (forall i :: 1 <= i < |bc.chain| ==> MeetsTarget(bc.chain[i].hash))
  }

  /** `Blockchain()`: only the genesis block, an empty pool. */
  function NewBlockchain(env: Env, timestamp: Timestamp): (bc: Blockchain)
    ensures Valid(env, bc)
    ensures |bc.chain| == 1 && bc.currentTransactions == []
  {
    Blockchain([Genesis(env, timestamp)], [])
  }

  /** The text that is encrypted and then signed for a transaction. */
  function TransactionMessage(tx: Transaction): string {
    tx.sender + "->" + tx.recipient + ":" + IntToDecimal(tx.amount)
  }

  /** One `add_transaction` call: the transaction and the two keys. */
  datatype Submission = Submission(tx: Transaction, senderPrivate: Key, recipientPublic: Key)

  /** Keys `pow` accepts as a modulus. */
  predicate UsableKeys(s: Submission) {
    s.senderPrivate.modulus >= 1 && s.recipientPublic.modulus >= 1
  }

  /** The transaction with the signature `add_transaction` attaches: the
      message is encrypted with the recipient's public key and the
      encryption is signed with the sender's private key. */
  function Signed(env: Env, s: Submission): (t: Transaction)
    requires UsableKeys(s)
    ensures t == s.tx.(signature := t.signature) && t.signature.Some?
    ensures AllDigits(t.signature.value) && |t.signature.value| >= 64
  {
    var encrypted := Encrypt(TransactionMessage(s.tx), s.recipientPublic);
    s.tx.(signature := Some(SignMessage(env.sha, encrypted, s.senderPrivate)))
  }

  /** `add_transaction`: the signed transaction joins the end of the pool;
      nothing else changes. */
  function AddTransaction(env: Env, bc: Blockchain, s: Submission): (r: Blockchain)
    requires UsableKeys(s)
    ensures r.chain == bc.chain
    ensures |r.currentTransactions| == |bc.currentTransactions| + 1
    ensures r.currentTransactions[..|bc.currentTransactions|] == bc.currentTransactions
    ensures r.currentTransactions[|bc.currentTransactions|] == Signed(env, s)
    ensures Valid(env, bc) ==> Valid(env, r)
  {
    var r := Blockchain(bc.chain, bc.currentTransactions + [Signed(env, s)]);
    assert r.currentTransactions[..|bc.currentTransactions|] == bc.currentTransactions;
    r
  }

  predicate AllUsable(subs: seq<Submission>) {
    forall i :: 0 <= i < |subs| ==> UsableKeys(subs[i])
  }

  /** Each submission's signed transaction, in order. */
  function SignedAll(env: Env, subs: seq<Submission>): (r: seq<Transaction>)
    requires AllUsable(subs)
    ensures |r| == |subs|
    ensures forall i :: 0 <= i < |subs| ==> r[i] == Signed(env, subs[i])
    decreases |subs|
  {
    if subs == [] then [] else [Signed(env, subs[0])] + SignedAll(env, subs[1..])
  }

  /** Several `add_transaction` calls in a row: the chain is untouched, so
      a valid blockchain stays valid, and the pool grows by each call's
      signed transaction, in call order. */
  function AddTransactions(env: Env, bc: Blockchain, subs: seq<Submission>): (r: Blockchain)
    requires AllUsable(subs)
    ensures r.chain == bc.chain
    ensures r.currentTransactions == bc.currentTransactions + SignedAll(env, subs)
    ensures Valid(env, bc) ==> Valid(env, r)
    decreases |subs|
  {
    if subs == [] then
      assert bc.currentTransactions + SignedAll(env, subs) == bc.currentTransactions;
      bc
    else
      assert AllUsable(subs[1..]);
      BatchStep(env, bc, subs);
      AddTransactions(env, AddTransaction(env, bc, subs[0]), subs[1..])
  }

  /** The pool after the first call, followed by the rest's signed
      transactions, is the old pool followed by all signed transactions. */
  lemma BatchStep(env: Env, bc: Blockchain, subs: seq<Submission>)
    requires |subs| >= 1 && AllUsable(subs)
    ensures AllUsable(subs[1..])
    ensures AddTransaction(env, bc, subs[0]).currentTransactions + SignedAll(env, subs[1..])
         == bc.currentTransactions + SignedAll(env, subs)
  {
    assert AllUsable(subs[1..]);
  }

  /** `add_block`: a block holding the whole pool, linked to the last block,
      is mined and appended, and the pool is emptied.  `None` stands for a
      search that has not finished within `fuel` increments. */
  method AddBlock(env: Env, bc: Blockchain, proof: int, timestamp: Timestamp, fuel: nat) returns (r: Option<Blockchain>)
    requires |bc.chain| >= 1
    ensures var candidate := NewBlock(env, bc.currentTransactions, bc.chain[|bc.chain| - 1].hash, timestamp);
            r.None? <==> forall k :: 0 <= k <= fuel ==> !MeetsTarget(NonceHash(env, candidate, k))
    ensures r.Some? ==> |r.value.chain| == |bc.chain| + 1 && r.value.chain[..|bc.chain|] == bc.chain
    ensures r.Some? ==>
      var added := r.value.chain[|bc.chain|];
      && added.transactions == bc.currentTransactions
      && added.previousHash == bc.chain[|bc.chain| - 1].hash
      && added.timestamp == timestamp
      && MeetsTarget(added.hash) && Consistent(env, added)
    ensures r.Some? ==>
      var candidate := NewBlock(env, bc.currentTransactions, bc.chain[|bc.chain| - 1].hash, timestamp);
      var added := r.value.chain[|bc.chain|];
      && added == WithNonce(env, candidate, added.nonce) && added.nonce <= fuel
      && forall k :: 0 <= k < added.nonce ==> !MeetsTarget(NonceHash(env, candidate, k))
    ensures r.Some? ==> r.value.currentTransactions == []
    ensures r.Some? && Valid(env, bc) ==> Valid(env, r.value)
  {
    var previousHash := bc.chain[|bc.chain| - 1].hash;
    var block := NewBlock(env, bc.currentTransactions, previousHash, timestamp);
    var mined := ProofOfWork(env, block, proof, fuel);
    if mined.None? {
      return None;
    }
    var chain := bc.chain + [mined.value];
    assert chain[..|bc.chain|] == bc.chain;
    r := Some(Blockchain(chain, []));
  }
}
