/**
 A value transfer from a sender to a receiver, with a content hash over its
 four data fields and an optional RSA signature over that hash.

 The RSA scheme (key import, PKCS#1 v1.5 signing and verification) is a
 foreign library: signing and verifying are parameters, a `Signer` that gives
 the signature of a message under key material (or `None` when the key cannot
 be imported or signing fails) and a `Verifier` that says whether a signature
 checks out (any failure, an exception included, counts as `false`).
 */
module Transactions {
  import opened Wrappers
  import opened Encoding
  import opened Hashing
  import opened Serialization

  type Bytes = seq<bv8>

  type Signer = (Bytes, string) -> Option<Bytes>

  type Verifier = (Bytes, string, Bytes) -> bool

  /** The two `ValueError`s the constructor raises, in the order it checks for them. */
  datatype TransactionError = AmountNotPositive | EmptyAddress

  /** The `ValueError` of a failed signing. */
  datatype SigningError = SigningFailed

  /** `timestamp or time.time()`: a missing or zero timestamp falls back to the clock reading `now`. */
  function TimestampOr(timestamp: Option<int>, now: int): int
  {
    match timestamp
    case Some(t) => if t != 0 then t else now
    case None => now
  }

  /** The text a transaction's hash is computed from: sender, receiver, amount and timestamp, concatenated. */
  function TxDigestInput(sender: string, receiver: string, amount: int, timestamp: int): string
  {
    sender + receiver + IntToDecimal(amount) + IntToDecimal(timestamp)
  }

  /**
   The fields are written with nothing between them, so different amounts and
   timestamps can give the same hash input: amount 1 at time 23 and amount 12 at
   time 3 hash alike for every sender and receiver.
   */
  lemma TxDigestInputAmbiguous(sender: string, receiver: string)
    ensures TxDigestInput(sender, receiver, 1, 23) == TxDigestInput(sender, receiver, 12, 3)
  {
    assert IntToDecimal(1) == "1" && IntToDecimal(3) == "3";
    assert IntToDecimal(23) == "23" && IntToDecimal(12) == "12";
    assert TxDigestInput(sender, receiver, 1, 23) == (sender + receiver) + ("1" + "23");
    assert TxDigestInput(sender, receiver, 12, 3) == (sender + receiver) + ("12" + "3");
  }

  class Transaction {
    const sender: string
    const receiver: string
    const amount: int
    const timestamp: int
    var signature: Option<Bytes>
    var hash: string

    /** The success path of construction: `NewTransaction` checks the arguments first. */
    constructor (sender: string, receiver: string, amount: int, timestamp: Option<int>, now: int, h: Hasher)
      requires amount > 0 && sender != [] && receiver != []
      ensures this.sender == sender && this.receiver == receiver && this.amount == amount
      ensures this.timestamp == TimestampOr(timestamp, now)
      ensures signature == None
      ensures hash == CalculateHash(h)
      ensures IsValid(h)
    {
      this.sender := sender;
      this.receiver := receiver;
      this.amount := amount;
      this.timestamp := TimestampOr(timestamp, now);
      this.signature := None;
      this.hash := h(TxDigestInput(sender, receiver, amount, TimestampOr(timestamp, now)));
    }

    /** The hash of the current data fields; it reads neither the stored hash nor the signature. */
    function CalculateHash(h: Hasher): Digest
    {
      h(TxDigestInput(sender, receiver, amount, timestamp))
    }

    /** Structural validity: a positive amount, both endpoints given, and a stored hash that matches the fields. */
    predicate IsValid(h: Hasher)
      reads this`hash
    {
      amount > 0 && sender != [] && receiver != [] && hash == CalculateHash(h)
    }

    /** `self.__dict__`: the attributes as one value. */
    function Record(): TxRecord
      reads this`signature, this`hash
    {
      TxRecord(sender, receiver, amount, timestamp, signature, hash)
    }

    /**
     Signs the stored hash with `privateKey`. On failure the transaction keeps its
     old signature; either way nothing but the signature changes, so signing never
     affects structural validity.
     */
    method SignTransaction(privateKey: Bytes, sign: Signer) returns (r: Outcome<SigningError>)
      modifies this`signature
      ensures sign(privateKey, hash).None? ==> r == Fail(SigningFailed) && signature == old(signature)
      ensures sign(privateKey, hash).Some? ==> r == Pass && signature == sign(privateKey, hash)
      ensures forall h: Hasher :: IsValid(h) == old(IsValid(h))
    {
      var s := sign(privateKey, hash);
      if s.None? {
        return Fail(SigningFailed);
      }
      signature := s;
      return Pass;
    }

    /**
     Whether the signature checks out against `publicKey`. A transaction without a
     signature, or with an empty one, never verifies; the verifier decides the rest.
     */
    function VerifySignature(publicKey: Bytes, verify: Verifier): (r: bool)
      reads this`signature, this`hash
      ensures signature.None? ==> !r
      ensures signature == Some([]) ==> !r
      ensures r ==> signature.Some? && verify(publicKey, hash, signature.value)
      ensures signature.Some? && signature.value != [] ==> r == verify(publicKey, hash, signature.value)
    {
      match signature
      case None => false
      case Some(s) => if s == [] then false else verify(publicKey, hash, s)
    }
  }

  /**
   `Transaction(sender, receiver, amount, timestamp)`: fails on a non-positive
   amount first, then on an empty endpoint; otherwise a fresh, unsigned and
   structurally valid transaction.
   */
  method NewTransaction(sender: string, receiver: string, amount: int, timestamp: Option<int>, now: int, h: Hasher)
    returns (r: Result<Transaction, TransactionError>)
    ensures r == Failure(AmountNotPositive) <==> amount <= 0
    ensures r == Failure(EmptyAddress) <==> amount > 0 && (sender == [] || receiver == [])
    ensures r.Success? ==> fresh(r.value)
    ensures r.Success? ==>
      && r.value.sender == sender && r.value.receiver == receiver && r.value.amount == amount
      && r.value.timestamp == TimestampOr(timestamp, now) && r.value.signature == None
      && r.value.IsValid(h)
  {
    if amount <= 0 {
      return Failure(AmountNotPositive);
    }
    if sender == [] || receiver == [] {
      return Failure(EmptyAddress);
    }
    var t := new Transaction(sender, receiver, amount, timestamp, now, h);
    return Success(t);
  }

  /** RSA's own guarantee, as a hypothesis: whatever `sign` produces under the private key, `verify` accepts under the public one. */
  ghost predicate KeyPair(sign: Signer, verify: Verifier, privateKey: Bytes, publicKey: Bytes)
  {
    forall m: string, s: Bytes :: sign(privateKey, m) == Some(s) ==> verify(publicKey, m, s)
  }

  /**
   A transaction whose signature was produced by signing its stored hash with the
   private key of a key pair verifies under the public key, as long as the
   signature is not empty.
   */
  lemma SignedTransactionVerifies(t: Transaction, sign: Signer, verify: Verifier, privateKey: Bytes, publicKey: Bytes)
    requires KeyPair(sign, verify, privateKey, publicKey)
    requires t.signature == sign(privateKey, t.hash) && t.signature.Some? && t.signature.value != []
    ensures t.VerifySignature(publicKey, verify)
  {
  }
}
