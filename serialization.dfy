/**
 The `__dict__` of a transaction and `json.dumps([...], sort_keys=True)` over a
 list of them, the part of a block's hash input that covers its transactions.

 `json.dumps` cannot encode a `bytes` value, and a signed transaction holds its
 signature as bytes: the serialisation as written therefore fails on every list
 that holds a signed transaction (`DumpsAsWritten`). `Dumps` is the corrected
 serialisation, which writes the signature as a hexadecimal string; blocks use
 it.
 */
module Serialization {
  import opened Wrappers
  import opened Encoding

  /** The attributes of a transaction, as `t.__dict__` holds them. */
  datatype TxRecord = TxRecord(
    sender: string,
    receiver: string,
    amount: int,
    timestamp: int,
    signature: Option<seq<bv8>>,
    hash: string)

  /** A JSON string literal (escaping of quotes and non-ASCII characters is not modelled). */
  function JsonString(s: string): string
  {
    "\"" + s + "\""
  }

  /** One transaction as a JSON object with its keys sorted, given the text of its signature value. */
  function ObjectText(r: TxRecord, signatureText: string): string
  {
    "{\"amount\": " + IntToDecimal(r.amount)
    + ", \"hash\": " + JsonString(r.hash)
    + ", \"receiver\": " + JsonString(r.receiver)
    + ", \"sender\": " + JsonString(r.sender)
    + ", \"signature\": " + signatureText
    + ", \"timestamp\": " + IntToDecimal(r.timestamp) + "}"
  }

  /** The items of a JSON array joined by `json.dumps`' default separator. */
  function JoinItems(items: seq<string>): string
  {
    if |items| == 0 then ""
    else if |items| == 1 then items[0]
    else items[0] + ", " + JoinItems(items[1..])
  }

  /** The signature value as `json.dumps` handles it: `None` is `null`; bytes raise `TypeError` (here `None`). */
  function SignatureAsWritten(sig: Option<seq<bv8>>): Option<string>
  {
    match sig
    case None => Some("null")
    case Some(_) => None
  }

  /** The objects of a transaction list as `json.dumps` produces them, failing at the first it cannot encode. */
  function ItemsAsWritten(rs: seq<TxRecord>): Option<seq<string>>
  {
    if rs == [] then Some([])
    else
      match (SignatureAsWritten(rs[0].signature), ItemsAsWritten(rs[1..]))
      case (Some(st), Some(rest)) => Some([ObjectText(rs[0], st)] + rest)
      case _ => None
  }

  /** `json.dumps([t.__dict__ for t in ...], sort_keys=True)` as written; `None` stands for the `TypeError`. */
  function DumpsAsWritten(rs: seq<TxRecord>): Option<string>
  {
    match ItemsAsWritten(rs)
    case None => None
    case Some(items) => Some("[" + JoinItems(items) + "]")
  }

  /** The signature value in the corrected serialisation: `null`, or the bytes as a hexadecimal string. */
  function SignatureText(sig: Option<seq<bv8>>): string
  {
    match sig
    case None => "null"
    case Some(bytes) => JsonString(BytesToHex(bytes))
  }

  /** The objects of a transaction list in the corrected serialisation. */
  function Items(rs: seq<TxRecord>): seq<string>
  {
    if rs == [] then [] else [ObjectText(rs[0], SignatureText(rs[0].signature))] + Items(rs[1..])
  }

  /** The corrected serialisation of a transaction list: defined for every list, signed or not. */
  function Dumps(rs: seq<TxRecord>): string
  {
    "[" + JoinItems(Items(rs)) + "]"
  }

  /** The serialisation as written fails exactly when some transaction in the list carries a signature. */
  lemma {:induction false} DumpsAsWrittenFailsIffSigned(rs: seq<TxRecord>)
    ensures DumpsAsWritten(rs).None? <==> exists i :: 0 <= i < |rs| && rs[i].signature.Some?
  {
    ItemsAsWrittenFailsIffSigned(rs);
  }

  lemma {:induction false} ItemsAsWrittenFailsIffSigned(rs: seq<TxRecord>)
    ensures ItemsAsWritten(rs).None? <==> exists i :: 0 <= i < |rs| && rs[i].signature.Some?
  {
    if rs != [] {
      ItemsAsWrittenFailsIffSigned(rs[1..]);
      if rs[0].signature.None? {
        forall i | 1 <= i < |rs| && rs[i].signature.Some?
          ensures rs[1..][i - 1].signature.Some?
        {
        }
      }
    }
  }

  /** Wherever the serialisation as written succeeds, the corrected one produces the same text. */
  lemma {:induction false} DumpsExtendsAsWritten(rs: seq<TxRecord>)
    ensures DumpsAsWritten(rs).Some? ==> DumpsAsWritten(rs) == Some(Dumps(rs))
  {
    ItemsExtendAsWritten(rs);
  }

  lemma {:induction false} ItemsExtendAsWritten(rs: seq<TxRecord>)
    ensures ItemsAsWritten(rs).Some? ==> ItemsAsWritten(rs) == Some(Items(rs))
  {
    if rs != [] {
      ItemsExtendAsWritten(rs[1..]);
    }
  }
}
