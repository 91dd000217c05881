/**
 The keys of the lease map and of the replay cache. Both are the hex SHA-256 of
 `hostUUID + "\x00" + rest`; the digest is a parameter and its results are 64 hex digits.
 */
module LeaseKeys {
  import opened Strings
  import Hex

  const NUL: char := '\0'

  function Preimage(host: string, rest: string): string {
    host + [NUL] + rest
  }

  predicate HexDigit(c: char) {
    Hex.DigitAt(c).Some?
  }

  /** `hex.DecodeString` succeeds and yields 32 bytes. */
  predicate LeaseKey(key: string) {
    |key| == 64 && forall i | 0 <= i < |key| :: HexDigit(key[i])
  }

  lemma {:induction false} LeaseKeyExactly(key: string)
    ensures LeaseKey(key) <==> Hex.Decode(key).Some? && |Hex.Decode(key).value| == 32
  {
    Hex.DecodesExactly(key);
  }

  /** What the broker computes from a digest passes the loader's test. */
  lemma {:induction false} EncodedIsLeaseKey(bytes: Hex.Bytes)
    requires Hex.AreBytes(bytes) && |bytes| == 32
    ensures LeaseKey(Hex.Encode(bytes))
  {
    Hex.EncodeDecodes(bytes);
    LeaseKeyExactly(Hex.Encode(bytes));
  }

  type Digest = string -> string

  ghost predicate HexDigest(digest: Digest) {
    forall s :: LeaseKey(digest(s))
  }

  function LeaseStateKey(digest: Digest, host: string, volume: string): string {
    digest(Preimage(host, volume))
  }

  lemma {:induction false} NamesHaveNoNul(name: string, maximum: nat)
    requires ValidName(name, maximum)
    ensures NUL !in name
  {
    forall i | 0 <= i < |name|
      ensures name[i] != NUL
    {
      assert NameCharacter(name[i]);
    }
  }

  function BeforeNul(s: string): nat {
    if s == [] || s[0] == NUL then 0 else 1 + BeforeNul(s[1..])
  }

  lemma {:induction false} HostEndsAtNul(host: string, rest: string)
    requires NUL !in host
    ensures BeforeNul(Preimage(host, rest)) == |host|
  {
    if host != [] {
      assert Preimage(host, rest)[1..] == Preimage(host[1..], rest);
      HostEndsAtNul(host[1..], rest);
    }
  }

  /** The first NUL ends the host, so equal preimages come from equal pairs. */
  lemma {:induction false} PreimageInjective(h1: string, r1: string, h2: string, r2: string)
    requires NUL !in h1 && NUL !in h2
    requires Preimage(h1, r1) == Preimage(h2, r2)
    ensures h1 == h2 && r1 == r2
  {
    HostEndsAtNul(h1, r1);
    HostEndsAtNul(h2, r2);
    assert Preimage(h1, r1)[..|h1|] == h1 && Preimage(h2, r2)[..|h2|] == h2;
    assert Preimage(h1, r1)[|h1| + 1..] == r1 && Preimage(h2, r2)[|h2| + 1..] == r2;
  }

  /**
   Distinct valid (host, volume) pairs have distinct state keys, provided the digest does not
   collide on their two preimages.
   */
  lemma {:induction false} DistinctPairsDistinctKeys(digest: Digest, h1: string, v1: string, h2: string, v2: string)
    requires ValidName(h1, 128) && ValidName(h2, 128)
    requires digest(Preimage(h1, v1)) == digest(Preimage(h2, v2)) ==> Preimage(h1, v1) == Preimage(h2, v2)
    ensures LeaseStateKey(digest, h1, v1) == LeaseStateKey(digest, h2, v2) <==> h1 == h2 && v1 == v2
  {
    NamesHaveNoNul(h1, 128);
    NamesHaveNoNul(h2, 128);
    if LeaseStateKey(digest, h1, v1) == LeaseStateKey(digest, h2, v2) {
      PreimageInjective(h1, v1, h2, v2);
    }
  }
}
