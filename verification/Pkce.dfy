/** Random tokens and PKCE (pkce.py, RFC 7636). SHA-256 is an uninterpreted function. */
module Pkce {
  import opened Wrappers
  import opened Base64Url
  import Utf8

  type Digest = seq<byte> -> seq<byte>

  /** `secrets.token_urlsafe`, given the random bytes it draws. */
  function TokenUrlsafe(random: seq<byte>): string
  {
    StripPad(Encode(random))
  }

  function GenerateCodeVerifier(random: seq<byte>): string
  {
    TokenUrlsafe(random)
  }

  function GenerateCodeChallenge(verifier: string, sha256: Digest): string
  {
    StripPad(Encode(sha256(Utf8.Encode(verifier))))
  }

  /** The characters section 4.1 of RFC 7636 allows in a verifier, and RFC 3986 never escapes. */
  predicate IsUnreserved(c: char)
  {
    'A' <= c <= 'Z' || 'a' <= c <= 'z' || '0' <= c <= '9' || c in "-._~"
  }

  /** A verifier has the 43 to 128 unreserved characters the standard asks for, and all the random bits drawn. */
  lemma VerifierIsWellFormed(random: seq<byte>)
    requires |random| == 32
    ensures |GenerateCodeVerifier(random)| == 43
    ensures Decode(Repad(GenerateCodeVerifier(random))) == Some(random)
    ensures forall c :: c in GenerateCodeVerifier(random) ==> IsUnreserved(c)
  {
    UnpaddedShape(random);
    UnpaddedRoundTrip(random);
    forall c | c in GenerateCodeVerifier(random) ensures IsUnreserved(c) {
      assert IsSymbol(c);
    }
  }

  /** Distinct random bytes give distinct tokens: encoding loses no entropy. */
  lemma TokensAreDistinct(a: seq<byte>, b: seq<byte>)
    ensures TokenUrlsafe(a) == TokenUrlsafe(b) <==> a == b
    ensures Decode(Repad(TokenUrlsafe(a))) == Some(a)
  {
    UnpaddedRoundTrip(a);
    if TokenUrlsafe(a) == TokenUrlsafe(b) {
      UnpaddedIsInjective(a, b);
    }
  }

  /** The challenge is the whole digest, and nothing but the digest. */
  lemma ChallengeCarriesDigest(verifier: string, sha256: Digest)
    requires |sha256(Utf8.Encode(verifier))| == 32
    ensures var challenge := GenerateCodeChallenge(verifier, sha256);
            |challenge| == 43 && Decode(Repad(challenge)) == Some(sha256(Utf8.Encode(verifier)))
  {
    UnpaddedShape(sha256(Utf8.Encode(verifier)));
    UnpaddedRoundTrip(sha256(Utf8.Encode(verifier)));
  }

  /** A verifier meets a challenge exactly when its digest is the one challenged. */
  lemma ChallengeMatches(verifier: string, other: string, sha256: Digest)
    ensures GenerateCodeChallenge(verifier, sha256) == GenerateCodeChallenge(other, sha256)
            <==> sha256(Utf8.Encode(verifier)) == sha256(Utf8.Encode(other))
  {
    if GenerateCodeChallenge(verifier, sha256) == GenerateCodeChallenge(other, sha256) {
      UnpaddedIsInjective(sha256(Utf8.Encode(verifier)), sha256(Utf8.Encode(other)));
    }
  }
}
