/**
 SHA-256 as a hexadecimal digest, and the proof-of-work target of mining.

 The hash function is not defined here: every member that hashes takes it as a
 parameter `h`, of which nothing is known but that it is a function, so that
 equal inputs give equal digests, and that its digests are 64 lower-case
 hexadecimal characters.
 */
module Hashing {
  import Slices
  import Encoding

  /** The shape of `hexdigest()` of SHA-256. */
  predicate IsHexDigest(s: string)
  {
    |s| == 64 && forall i :: 0 <= i < |s| ==> Encoding.IsHexChar(s[i])
  }

  type Digest = s: string | IsHexDigest(s)
    witness seq(64, _ => '0')

  /** `hashlib.sha256(data.encode()).hexdigest()`, as an arbitrary function. */
  type Hasher = string -> Digest

  /** `"0" * d`: `d` zeros, and the empty string for `d <= 0`. */
  function Target(d: int): string
  {
    if d <= 0 then "" else seq(d, _ => '0')
  }

  /** The loop condition of mining: `hash[:d] == "0" * d`, with Python's slicing for every `d`. */
  predicate MeetsTarget(hash: string, d: int)
  {
    Slices.Take(hash, d) == Target(d)
  }

  /**
   What the target demands: for `0 <= d <= |hash|`, that the first `d` characters are zeros;
   for a negative `d`, that `hash[:d]` is empty, i.e. `|hash| <= -d`; for `d > |hash|`, the impossible.
   */
  lemma MeetsTargetIff(hash: string, d: int)
    ensures MeetsTarget(hash, d) <==>
      (0 <= d <= |hash| && forall i :: 0 <= i < d ==> hash[i] == '0') || (d < 0 && |hash| <= -d)
  {
    if 0 < d <= |hash| && forall i :: 0 <= i < d ==> hash[i] == '0' {
      assert Slices.Take(hash, d) == Target(d);
    }
    if MeetsTarget(hash, d) && 0 < d {
      assert |Slices.Take(hash, d)| == d;
      forall i | 0 <= i < d ensures hash[i] == '0' {
        assert Slices.Take(hash, d)[i] == Target(d)[i];
      }
    }
  }

  /**
   For a SHA-256 digest the target can be met only with `0 <= d <= 64` or `d <= -64`;
   with any other difficulty the mining loop never ends.
   */
  lemma DigestTargetRange(hash: Digest, d: int)
    requires d > 64 || -64 < d < 0
    ensures !MeetsTarget(hash, d)
  {
    MeetsTargetIff(hash, d);
  }
}
