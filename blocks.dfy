/**
 A block: a position in the chain, a batch of transactions, the hash of the
 block before it, a timestamp, and the nonce and hash that proof-of-work mining
 settles.
 */
module Blocks {
  import opened Wrappers
  import opened Encoding
  import opened Hashing
  import opened Serialization
  import opened Transactions

  /** `[t.__dict__ for t in transactions]` */
  function Records(txs: seq<Transaction>): (r: seq<TxRecord>)
    reads txs
  {
    if txs == [] then [] else [txs[0].Record()] + Records(txs[1..])
  }

  /** One interpolated field of the f-string a block's hash is computed from. */
  datatype Part = Decimal(i: int) | Verbatim(s: string) | JsonList(rs: seq<TxRecord>)

  /** A field as the f-string writes it: `str()` of an integer, a string as it is, a transaction list through `json.dumps`. */
  function PartText(p: Part): string
  {
    match p
    case Decimal(i) => IntToDecimal(i)
    case Verbatim(s) => s
    case JsonList(rs) => Dumps(rs)
  }

  /** The fields written one after another. */
  function Render(parts: seq<Part>): string
  {
    if parts == [] then "" else PartText(parts[0]) + Render(parts[1..])
  }

  /** The text a block's hash is computed from: index, previous hash, timestamp, nonce and the serialised transactions. */
  function BlockDigestInput(index: int, previousHash: string, timestamp: int, nonce: int, records: seq<TxRecord>): string
  {
    Render([Decimal(index), Verbatim(previousHash), Decimal(timestamp), Decimal(nonce), JsonList(records)])
  }

  /** The digest input is the five fields' texts concatenated in order, with nothing between them. */
  lemma BlockDigestInputIsConcatenation(index: int, previousHash: string, timestamp: int, nonce: int, records: seq<TxRecord>)
    ensures BlockDigestInput(index, previousHash, timestamp, nonce, records)
         == IntToDecimal(index) + previousHash + IntToDecimal(timestamp) + IntToDecimal(nonce) + Dumps(records)
  {
    var p4 := [JsonList(records)];
    var p3 := [Decimal(nonce)] + p4;
    var p2 := [Decimal(timestamp)] + p3;
    var p1 := [Verbatim(previousHash)] + p2;
    var p0 := [Decimal(index)] + p1;
    assert p0 == [Decimal(index), Verbatim(previousHash), Decimal(timestamp), Decimal(nonce), JsonList(records)];
    RenderCons(JsonList(records), []);
    RenderCons(Decimal(nonce), p4);
    RenderCons(Decimal(timestamp), p3);
    RenderCons(Verbatim(previousHash), p2);
    RenderCons(Decimal(index), p1);
    Regroup(IntToDecimal(index), previousHash, IntToDecimal(timestamp), IntToDecimal(nonce), Dumps(records));
  }

  /** Concatenation of five strings, grouped from the right or from the left. */
  lemma Regroup(a: string, b: string, c: string, d: string, e: string)
    ensures a + (b + (c + (d + e))) == a + b + c + d + e
  {
  }

  /**
   The same holds for blocks: timestamp 1 with nonce 23 and timestamp 12 with
   nonce 3 give the same hash input, whatever the other fields.
   */
  lemma BlockDigestInputAmbiguous(index: int, previousHash: string, records: seq<TxRecord>)
    ensures BlockDigestInput(index, previousHash, 1, 23, records) == BlockDigestInput(index, previousHash, 12, 3, records)
  {
    var tail := [JsonList(records)];
    var p, q := [Decimal(1), Decimal(23)] + tail, [Decimal(12), Decimal(3)] + tail;
    RenderDigitsRegrouped(tail);
    RenderCons(Verbatim(previousHash), p);
    RenderCons(Verbatim(previousHash), q);
    RenderCons(Decimal(index), [Verbatim(previousHash)] + p);
    RenderCons(Decimal(index), [Verbatim(previousHash)] + q);
    assert [Decimal(index)] + ([Verbatim(previousHash)] + p) == [Decimal(index), Verbatim(previousHash), Decimal(1), Decimal(23), JsonList(records)];
    assert [Decimal(index)] + ([Verbatim(previousHash)] + q) == [Decimal(index), Verbatim(previousHash), Decimal(12), Decimal(3), JsonList(records)];
  }

  /** `str(1) + str(23)` is `str(12) + str(3)`, whatever follows. */
  lemma RenderDigitsRegrouped(tail: seq<Part>)
    ensures Render([Decimal(1), Decimal(23)] + tail) == Render([Decimal(12), Decimal(3)] + tail)
  {
    RenderCons(Decimal(23), tail);
    RenderCons(Decimal(3), tail);
    assert [Decimal(1), Decimal(23)] + tail == [Decimal(1)] + ([Decimal(23)] + tail);
    assert [Decimal(12), Decimal(3)] + tail == [Decimal(12)] + ([Decimal(3)] + tail);
    RenderCons(Decimal(1), [Decimal(23)] + tail);
    RenderCons(Decimal(12), [Decimal(3)] + tail);
    DecimalDigitsRegrouped();
    RegroupPair(IntToDecimal(1), IntToDecimal(23), IntToDecimal(12), IntToDecimal(3), Render(tail));
  }

  /** Both pairs are written `"123"`. */
  lemma DecimalDigitsRegrouped()
    ensures IntToDecimal(1) + IntToDecimal(23) == IntToDecimal(12) + IntToDecimal(3)
  {
    assert IntToDecimal(1) == "1" && IntToDecimal(3) == "3";
    assert IntToDecimal(23) == "23" && IntToDecimal(12) == "12";
  }

  /** Two pairs of strings with the same concatenation stay equal with the same text after them. */
  lemma RegroupPair(x: string, y: string, x2: string, y2: string, t: string)
    requires x + y == x2 + y2
    ensures x + (y + t) == x2 + (y2 + t)
  {
    assert x + (y + t) == (x + y) + t;
    assert x2 + (y2 + t) == (x2 + y2) + t;
  }

  /** Rendering a field in front of others writes its text first. */
  lemma RenderCons(p: Part, rest: seq<Part>)
    ensures Render([p] + rest) == PartText(p) + Render(rest)
  {
    assert ([p] + rest)[1..] == rest;
  }

  /** The hash of a block with these contents and nonce `n`. */
  function HashWith(h: Hasher, index: int, previousHash: string, timestamp: int, n: int, records: seq<TxRecord>): Digest
  {
    h(BlockDigestInput(index, previousHash, timestamp, n, records))
  }

  /** Some nonce `n >= 0` gives a block with these contents a hash that meets difficulty `d`. */
  ghost predicate Minable(h: Hasher, index: int, previousHash: string, timestamp: int, records: seq<TxRecord>, d: int)
  {
    exists n: int :: 0 <= n && MeetsTarget(HashWith(h, index, previousHash, timestamp, n, records), d)
  }

  /** `all(t.is_valid() for t in txs)`, checked from the front. */
  predicate AllValid(txs: seq<Transaction>, h: Hasher)
    reads txs
  {
    txs == [] || (txs[0].IsValid(h) && AllValid(txs[1..], h))
  }

  /** `AllValid` holds exactly when every transaction in the list is structurally valid. */
  lemma {:induction false} AllValidIff(txs: seq<Transaction>, h: Hasher)
    ensures AllValid(txs, h) <==> forall i :: 0 <= i < |txs| ==> txs[i].IsValid(h)
  {
    if txs != [] {
      AllValidIff(txs[1..], h);
      assert forall i :: 1 <= i < |txs| ==> txs[i] == txs[1..][i - 1];
    }
  }

  class Block {
    const index: int
    const transactions: seq<Transaction>
    const previousHash: string
    const timestamp: int
    var nonce: int
    var hash: string

    /** A block over the given contents with nonce 0 and a matching hash; no transaction is checked. */
    constructor (index: int, transactions: seq<Transaction>, previousHash: string, timestamp: Option<int>, now: int, h: Hasher)
      ensures this.index == index && this.transactions == transactions && this.previousHash == previousHash
      ensures this.timestamp == TimestampOr(timestamp, now)
      ensures nonce == 0
      ensures hash == CalculateHash(h)
    {
      this.index := index;
      this.transactions := transactions;
      this.previousHash := previousHash;
      this.timestamp := TimestampOr(timestamp, now);
      this.nonce := 0;
      this.hash := HashWith(h, index, previousHash, TimestampOr(timestamp, now), 0, Records(transactions));
    }

    /** The hash this block would have with nonce `n`; it reads neither the stored nonce nor the stored hash. */
    function HashAt(h: Hasher, n: int): Digest
      reads transactions
    {
      HashWith(h, index, previousHash, timestamp, n, Records(transactions))
    }

    /** The hash of the block's current fields. */
    function CalculateHash(h: Hasher): Digest
      reads this`nonce, transactions
    {
      HashAt(h, nonce)
    }

    /** The stored hash matches the fields, and every transaction is structurally valid. Linkage is not checked here. */
    predicate IsValid(h: Hasher)
      reads this`nonce, this`hash, transactions
    {
      hash == CalculateHash(h) && AllValid(transactions, h)
    }

    /**
     Proof of work: counts the nonce up from its current value, recomputing the
     hash each time, until `hash[:difficulty] == "0" * difficulty`. Only a run that
     ends is modelled: either the stored hash already meets the target, or some
     larger nonce does. The nonce found is the first one after the start that
     meets it; nothing but nonce and hash changes.
     */
    method MineBlock(h: Hasher, difficulty: int)
      requires MeetsTarget(hash, difficulty) || exists n :: n > nonce && MeetsTarget(HashAt(h, n), difficulty)
      modifies this`nonce, this`hash
      ensures MeetsTarget(hash, difficulty)
      ensures nonce >= old(nonce)
      ensures nonce == old(nonce) ==> hash == old(hash)
      ensures nonce > old(nonce) ==> hash == CalculateHash(h) && !MeetsTarget(old(hash), difficulty)
      ensures forall k :: old(nonce) < k < nonce ==> !MeetsTarget(HashAt(h, k), difficulty)
      ensures old(hash == CalculateHash(h)) ==> hash == CalculateHash(h)
      ensures old(hash == CalculateHash(h)) ==> (IsValid(h) <==> AllValid(transactions, h))
    {
      // The block's contents do not change while mining, so their attributes are read once.
      var records := Records(transactions);
      assert forall k :: HashAt(h, k) == HashWith(h, index, previousHash, timestamp, k, records);
      nonce, hash := SearchNonce(h, index, previousHash, timestamp, records, difficulty, nonce, hash);
      RecordsUnchanged(transactions);
    }
  }

  /** Transactions whose attributes did not change are as valid as they were. */
  twostate lemma AllValidUnchanged(txs: seq<Transaction>)
    requires forall t :: t in txs ==> unchanged(t)
    ensures forall h: Hasher :: AllValid(txs, h) == old(AllValid(txs, h))
  {
    if txs != [] {
      assert txs[0] in txs;
      assert forall t :: t in txs[1..] ==> t in txs;
      AllValidUnchanged(txs[1..]);
    }
  }

  /** Transactions whose attributes did not change serialise the same. */
  twostate lemma RecordsUnchanged(txs: seq<Transaction>)
    requires forall t :: t in txs ==> unchanged(t)
    ensures Records(txs) == old(Records(txs))
  {
    if txs != [] {
      assert txs[0] in txs;
      assert forall t :: t in txs[1..] ==> t in txs;
      RecordsUnchanged(txs[1..]);
    }
  }

  /**
   The mining loop over the block's contents: starting from nonce `start` whose
   hash is `startHash`, step the nonce until the hash meets the target. The
   result is the first nonce after `start` that does, or `start` itself when
   `startHash` already meets it.
   */
  method SearchNonce(h: Hasher, index: int, previousHash: string, timestamp: int, records: seq<TxRecord>, difficulty: int,
                     start: int, startHash: string) returns (n: int, found: string)
    requires MeetsTarget(startHash, difficulty) || exists k :: k > start && MeetsTarget(HashWith(h, index, previousHash, timestamp, k, records), difficulty)
    ensures MeetsTarget(found, difficulty)
    ensures n >= start
    ensures n == start ==> found == startHash
    ensures n > start ==> found == HashWith(h, index, previousHash, timestamp, n, records) && !MeetsTarget(startHash, difficulty)
    ensures forall k :: start < k < n ==> !MeetsTarget(HashWith(h, index, previousHash, timestamp, k, records), difficulty)
  {
    n, found := start, startHash;
    ghost var bound := start;
    if !MeetsTarget(found, difficulty) {
      bound :| bound > start && MeetsTarget(HashWith(h, index, previousHash, timestamp, bound, records), difficulty);
    }
    while !MeetsTarget(found, difficulty)
      invariant start <= n <= bound
      invariant n == start ==> found == startHash
      invariant n > start ==> found == HashWith(h, index, previousHash, timestamp, n, records)
      invariant MeetsTarget(if bound == start then startHash else HashWith(h, index, previousHash, timestamp, bound, records), difficulty)
      invariant forall k :: start < k < n ==> !MeetsTarget(HashWith(h, index, previousHash, timestamp, k, records), difficulty)
      decreases bound - n
    {
      n := n + 1;
      found := HashWith(h, index, previousHash, timestamp, n, records);
    }
  }

  /** Mining at a difficulty that no digest can meet has no run that ends. */
  lemma UnreachableDifficultyCannotBeMined(b: Block, h: Hasher, difficulty: int)
    requires difficulty > 64 || -64 < difficulty < 0
    requires IsHexDigest(b.hash)
    ensures !(MeetsTarget(b.hash, difficulty) || exists n :: n > b.nonce && MeetsTarget(b.HashAt(h, n), difficulty))
  {
    DigestTargetRange(b.hash, difficulty);
    forall n | n > b.nonce ensures !MeetsTarget(b.HashAt(h, n), difficulty) {
      DigestTargetRange(b.HashAt(h, n), difficulty);
    }
  }
}
