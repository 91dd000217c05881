/** Which broker requests are valid, said of bytes, lists of characters and numbers. */
module ValidationLaws {
  import opened Strings
  import opened Requests
  import opened Paths
  import Utf8

  /** 1 to `maximum` bytes from the name alphabet, and not a special directory. */
  predicate GoodName(value: string, maximum: nat) {
    1 <= |Utf8.Bytes(value)| <= maximum && (forall c | c in value :: c in Utf8.NAME_ALPHABET) && value !in {".", ".."}
  }

  ghost predicate GoodPath(value: string) {
    && |Utf8.Bytes(value)| <= 240
    && exists parts :: IsSplit(value, parts) && |parts| <= 16 && forall i | 0 <= i < |parts| :: GoodName(parts[i], 64)
  }

  /** Slash-free pieces which, with slashes between them, are the value. */
  ghost predicate IsSplit(value: string, parts: seq<string>) {
    parts != [] && Join(parts) == value && forall i | 0 <= i < |parts| :: '/' !in parts[i]
  }

  lemma {:induction false} PathExactly(value: string)
    ensures SafePath(value) <==> GoodPath(value)
  {
    assert |Utf8.Bytes(value)| == ByteLength(value);
    forall name ensures ValidName(name, 64) <==> GoodName(name, 64) { Utf8.NameExactly(name, 64); }
    forall parts ensures parts == Split(value) <==> IsSplit(value, parts) { SplitExactly(value, parts); }
    assert IsSplit(value, Split(value));
  }

  /** 1 to 16 allowed names, each above the one before in the order of bytes. */
  ghost predicate GoodPolicies(allowed: set<string>, policies: seq<string>) {
    && 1 <= |policies| <= 16
    && (forall i | 0 <= i < |policies| :: GoodName(policies[i], 64) && policies[i] in allowed)
    && forall i, j | 0 <= i < j < |policies| :: Utf8.BytesBelow(Utf8.Bytes(policies[i]), Utf8.Bytes(policies[j]))
  }

  lemma {:induction false} PoliciesExactly(allowed: set<string>, policies: seq<string>)
    ensures PoliciesAccepted(allowed, policies) <==> GoodPolicies(allowed, policies)
  {
    forall name ensures ValidName(name, 64) <==> GoodName(name, 64) { Utf8.NameExactly(name, 64); }
    forall i, j | 0 <= i < j < |policies|
      ensures Below(policies[i], policies[j]) <==> Utf8.BytesBelow(Utf8.Bytes(policies[i]), Utf8.Bytes(policies[j]))
    {
      Utf8.BelowIsBytewise(policies[i], policies[j]);
    }
  }

  /** Without line breaks, 32 characters of the alphabet. */
  predicate GoodNonce(nonce: string) {
    var text := Base64.WithoutBreaks(nonce);
    |text| == 32 && forall c | c in text :: c in Base64.ALPHABET
  }

  lemma {:induction false} NonceExactly(nonce: string)
    ensures Base64.DecodedLength(nonce) == Some(24) <==> GoodNonce(nonce)
  {
    Base64.WholeGroups(nonce, 8);
    var text := Base64.WithoutBreaks(nonce);
    forall c ensures Base64.Sextet(c).Some? <==> c in Base64.ALPHABET { Base64.Listed(c); }
    if forall c | c in text :: c in Base64.ALPHABET {
      forall i | 0 <= i < |text| ensures Base64.Sextet(text[i]).Some? { assert text[i] in text; }
    }
  }

  lemma {:induction false} BreaksRemoved(text: string)
    ensures forall c :: c in Base64.WithoutBreaks(text) <==> c in text && c != '\r' && c != '\n'
  {
    if text != [] {
      BreaksRemoved(text[1..]);
      assert text == [text[0]] + text[1..];
    }
  }

  ghost predicate GoodFileFields(operation: Operation)
    requires operation.Issue?
  {
    GoodPath(operation.file) && Ownership(operation.uid) && Ownership(operation.gid) && OnlyReads(operation.mode)
  }

  predicate InTime(request: Request, ttl: int, now: int) {
    request.timestamp.Some? && now <= request.timestamp.value + ttl && request.timestamp.value <= now + ttl
  }

  ghost predicate GoodOperation(config: Config, operation: Operation) {
    operation.Issue? ==> GoodFileFields(operation) && GoodPolicies(config.allowed, operation.policies)
  }

  /** What `validate` asks of an issue or a revoke request at the reading `now`. */
  ghost predicate Good(config: Config, request: Request, now: int) {
    && request.version == 1 && GoodName(request.host, 128) && GoodName(request.volume, 128)
    && InTime(request, config.ttl, now) && GoodNonce(request.nonce)
    && GoodOperation(config, request.operation)
  }

  lemma {:induction false} FileExactly(operation: Operation)
    requires operation.Issue?
    ensures FileAccepted(operation) <==> GoodFileFields(operation)
  {
    PathExactly(operation.file);
    ModeExactly(operation.mode);
  }

  lemma {:induction false} FreshExactly(request: Request, ttl: int, now: int)
    ensures Fresh(request, ttl, now) <==> InTime(request, ttl, now) && GoodNonce(request.nonce)
  {
    NonceExactly(request.nonce);
  }

  lemma {:induction false} OperationExactly(config: Config, operation: Operation)
    ensures (operation.Issue? ==> FileAccepted(operation) && PoliciesAccepted(config.allowed, operation.policies))
       <==> GoodOperation(config, operation)
  {
    if operation.Issue? {
      FileExactly(operation);
      PoliciesExactly(config.allowed, operation.policies);
    }
  }

  lemma {:induction false} ValidExactly(config: Config, request: Request, now: int)
    ensures Valid(config, request, now) <==> Good(config, request, now)
  {
    Utf8.NameExactly(request.host, 128);
    Utf8.NameExactly(request.volume, 128);
    FreshExactly(request, config.ttl, now);
    OperationExactly(config, request.operation);
  }
}
