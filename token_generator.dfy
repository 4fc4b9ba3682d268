/**
 * IFormTokenGenerator: the JWT-bearer assertion the iFormBuilder client signs
 * and exchanges for an access token.
 *
 * JSON encoding, base64 encoding and the HMAC are the runtime's; they are
 * parameters here (`encode`, `base64`, `hmac`), and what the model states is
 * what the class does around them: the claim set, the URL-safe alphabet, the
 * algorithm dispatch, the three-segment assertion and the reading of the reply.
 * The clock is a parameter too.
 */
module IFormToken {
  import opened Php

  /** The grant type of the token request. */
  const GrantType := "urn:ietf:params:oauth:grant-type:jwt-bearer"

  /** Seconds a signed assertion stays valid. */
  const ExpSeconds := 10

  // ---------------------------------------------------------------------------
  // urlsafeB64Encode

  /** `strtr($s, '+/', '-_')` on one character. */
  function Translate(c: char): char
  {
    if c == '+' then '-' else if c == '/' then '_' else c
  }

  /** `strtr($s, '+/', '-_')`. */
  function Strtr(s: string): (r: string)
    ensures |r| == |s|
    ensures forall i :: 0 <= i < |s| ==> r[i] == Translate(s[i])
  {
    seq(|s|, i requires 0 <= i < |s| => Translate(s[i]))
  }

  /** The URL-safe form of base64 text: `+` and `/` translated, every `=` removed. */
  function UrlSafe(s: string): string
  {
    ReplaceAll(Strtr(s), "=", "")
  }

  /** The number of times `c` occurs in `s`. */
  function Count(s: string, c: char): nat
  {
    if s == [] then 0 else (if s[0] == c then 1 else 0) + Count(s[1..], c)
  }

  /**
   * Removing a character: none is left, the length drops by its count, and
   * every other character is still there and nothing new appears.
   */
  lemma {:induction false} RemoveChar(t: string, c: char)
    ensures c !in ReplaceAll(t, [c], "")
    ensures |ReplaceAll(t, [c], "")| == |t| - Count(t, c)
    ensures forall x :: x != c ==> (x in ReplaceAll(t, [c], "") <==> x in t)
    decreases |t|
  {
    if t != [] {
      RemoveChar(t[1..], c);
      var rest := ReplaceAll(t[1..], [c], "");
      if t[0] == c {
        assert t[..1] == [c];
        assert ReplaceAll(t, [c], "") == rest;
      } else {
        assert t[..1] != [c];
        assert ReplaceAll(t, [c], "") == [t[0]] + rest;
      }
      forall x | x != c ensures x in t <==> x == t[0] || x in t[1..] {
        assert t == [t[0]] + t[1..];
      }
    }
  }

  /** Translating keeps every `=` where it was and brings no `+` or `/`. */
  lemma {:induction false} StrtrSpec(s: string)
    ensures Count(Strtr(s), '=') == Count(s, '=')
    ensures '+' !in Strtr(s) && '/' !in Strtr(s)
    ensures forall x :: x != '-' && x != '_' && x != '+' && x != '/' ==> (x in Strtr(s) <==> x in s)
    decreases |s|
  {
    if s != [] {
      StrtrSpec(s[1..]);
      assert Strtr(s) == [Translate(s[0])] + Strtr(s[1..]);
      forall x ensures x in s <==> x == s[0] || x in s[1..] {
        assert s == [s[0]] + s[1..];
      }
    }
  }

  /**
   * The URL-safe text holds none of `+`, `/` and `=`, is shorter than its
   * input by the number of `=`, and holds no other character the input lacks.
   */
  lemma UrlSafeSpec(s: string)
    ensures '+' !in UrlSafe(s) && '/' !in UrlSafe(s) && '=' !in UrlSafe(s)
    ensures |UrlSafe(s)| == |s| - Count(s, '=')
    ensures forall x :: x != '-' && x != '_' ==> (x in UrlSafe(s) ==> x in s)
  {
    StrtrSpec(s);
    RemoveChar(Strtr(s), '=');
  }

  // ---------------------------------------------------------------------------
  // sign

  /**
   * `sign($msg, $key, $alg)`: the raw HMAC-SHA256 of the message for `HS256`,
   * the only supported algorithm; false (None) for any other.
   */
  function Sign(msg: string, key: Doc, alg: Doc, hmac: (string, Doc) -> string): (r: Option<string>)
    ensures r.Some? <==> alg == Str("HS256")
  {
    if alg == Str("HS256") then Some(hmac(msg, key)) else None
  }

  // ---------------------------------------------------------------------------
  // The assertion and the token request

  /** `is_array($output) && array_key_exists($key, $output)`: a decoded object with that key. */
  predicate HasKey(d: Doc, key: string)
  {
    d.Object? && exists i :: 0 <= i < |d.members| && d.members[i].key == key
  }

  /** A key a decoded object lacks reads as null. */
  lemma HasKeyGet(d: Doc, key: string)
    requires d.Object? && !HasKey(d, key)
    ensures Get(d, key) == Null
  {
    LookupMissing(d.members, key);
  }

  lemma {:induction false} LookupMissing(ms: seq<Member>, key: string)
    requires forall i :: 0 <= i < |ms| ==> ms[i].key != key
    ensures Lookup(ms, key) == Null
    decreases |ms|
  {
    if ms != [] {
      LookupMissing(ms[1..], key);
    }
  }

  /**
   * An assertion joins three URL-safe segments with `.`. When the base64
   * texts hold no `.`, it splits back into exactly those three segments, the
   * first two of which, joined, are the text that was signed.
   */
  lemma AssertionSegments(header64: string, claims64: string, signature64: string)
    requires '.' !in header64 && '.' !in claims64 && '.' !in signature64
    ensures var segments := [UrlSafe(header64), UrlSafe(claims64), UrlSafe(signature64)];
      && Explode('.', Implode('.', segments)) == segments
      && Implode('.', segments[..2]) == UrlSafe(header64) + "." + UrlSafe(claims64)
  {
    var segments := [UrlSafe(header64), UrlSafe(claims64), UrlSafe(signature64)];
    UrlSafeSpec(header64);
    UrlSafeSpec(claims64);
    UrlSafeSpec(signature64);
    ExplodeImplode('.', segments);
    assert segments[..2] == [UrlSafe(header64), UrlSafe(claims64)];
  }

  /** `implode('.', ...)` of two and of three segments. */
  lemma JoinSegments(a: string, b: string, c: string)
    ensures Implode('.', [a, b]) == a + "." + b
    ensures Implode('.', [a, b, c]) == a + "." + b + "." + c
  {
    assert [a, b][1..] == [b];
    assert [a, b, c][1..] == [b, c];
    assert [b, c][1..] == [c];
    assert Implode('.', [b, c]) == b + "." + c;
    assert a + "." + (b + "." + c) == a + "." + b + "." + c;
  }

  class TokenGenerator {
    const alg: Doc
    const key: Doc
    const secret: Doc
    const tokenUrl: Doc
    const iat: int
    const exp: int
    const header: Doc
    const claimSet: Doc

    /**
     * The claim set of an assertion issued at `now`: `alg` defaults to HS256,
     * the key, secret and URL to false; it expires ten seconds after issue.
     */
    constructor (params: Doc, now: int)
      ensures alg == (if Isset(params, "alg") then Get(params, "alg") else Str("HS256"))
      ensures key == (if Isset(params, "key") then Get(params, "key") else Bool(false))
      ensures secret == (if Isset(params, "secret") then Get(params, "secret") else Bool(false))
      ensures tokenUrl == (if Isset(params, "url") then Get(params, "url") else Bool(false))
      ensures iat == now && exp == now + ExpSeconds
      ensures header == Object([Member("alg", alg), Member("typ", Str("JWT"))])
      ensures claimSet == Object([Member("iss", key), Member("aud", tokenUrl), Member("exp", Num(exp)), Member("iat", Num(iat))])
    {
      alg := if Isset(params, "alg") then Get(params, "alg") else Str("HS256");
      key := if Isset(params, "key") then Get(params, "key") else Bool(false);
      secret := if Isset(params, "secret") then Get(params, "secret") else Bool(false);
      tokenUrl := if Isset(params, "url") then Get(params, "url") else Bool(false);
      iat := now;
      exp := now + ExpSeconds;
      header := Object([Member("alg", alg), Member("typ", Str("JWT"))]);
      claimSet := Object([Member("iss", key), Member("aud", tokenUrl), Member("exp", Num(now + ExpSeconds)), Member("iat", Num(now))]);
    }

    /**
     * getToken: sign the encoded header and claim set, POST the assertion to
     * the token URL, and return the reply's `access_token` when the decoded
     * reply has that key, false (None) otherwise. With an unsupported
     * algorithm the signature is false, which encodes as empty text.
     */
    method GetToken(encode: Doc -> string, base64: string -> string, hmac: (string, Doc) -> string, reply: Doc)
      returns (token: Option<Doc>, assertion: string, body: Doc)
      ensures var h, c := UrlSafe(base64(encode(header))), UrlSafe(base64(encode(claimSet)));
        var signature := Sign(h + "." + c, secret, alg, hmac);
        && assertion == h + "." + c + "." + UrlSafe(base64(signature.GetOr("")))
        && (alg != Str("HS256") ==> assertion == h + "." + c + "." + UrlSafe(base64("")))
      ensures body == Object([Member("grant_type", Str(GrantType)), Member("assertion", Str(assertion))])
      ensures token.Some? <==> HasKey(reply, "access_token")
      ensures token.Some? ==> token.value == Get(reply, "access_token")
      ensures token.None? && reply.Object? ==> Get(reply, "access_token") == Null
    {
      var segments: seq<string> := [];
      segments := segments + [UrlSafe(base64(encode(header)))];
      segments := segments + [UrlSafe(base64(encode(claimSet)))];
      var signingInput := Implode('.', segments);
      JoinSegments(segments[0], segments[1], "");
      assert segments == [segments[0], segments[1]];
      var signature := Sign(signingInput, secret, alg, hmac);
      // urlsafeB64Encode(false): false is the empty string to base64_encode
      segments := segments + [UrlSafe(base64(if signature.Some? then signature.value else ""))];
      assertion := Implode('.', segments);
      JoinSegments(segments[0], segments[1], segments[2]);
      assert segments == [segments[0], segments[1], segments[2]];
      body := Object([Member("grant_type", Str(GrantType)), Member("assertion", Str(assertion))]);
      if HasKey(reply, "access_token") {
        token := Some(Get(reply, "access_token"));
      } else {
        if reply.Object? {
          HasKeyGet(reply, "access_token");
        }
        token := None;
      }
    }
  }
}
