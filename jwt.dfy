/** A stand-in for the `jsonwebtoken` library: `jwt.sign(claims, secret, { expiresIn: '24h' })`
    and `jwt.verify(token, secret)`.

    A token is text that carries the claims, the issue time `iat`, the expiry `exp` and a
    signature over that text under the secret. The text is an injective encoding that never
    contains a space (as base64url never does). The signature here is the secret and the
    signed text side by side, so it is not a cryptographic signature: the model keeps only the
    laws verification obeys: a token verifies under the secret it was signed with and under
    no other, and every token that verifies is the signing of its own payload under that
    secret. Verification checks the signature before it reads any claim, and refuses an
    expired token, as `jsonwebtoken` does. */
module Jwt {
  import opened Wrappers

  /** The claim set the employee portal signs: `{ id, email, userType }`. */
  datatype Claims = Claims(id: nat, email: string, userType: string)

  /** The signed payload: the claims with the `iat` and `exp` that `jwt.sign` adds. */
  datatype Payload = Payload(claims: Claims, iat: nat, exp: nat)

  /** `expiresIn: '24h'`, in seconds. */
  const ExpiresIn: nat := 24 * 60 * 60

  // ---------------------------------------------------------------------------
  // The token text: each field is two characters per character and an end mark.

  function EncodeField(s: string): (t: string)
    ensures |t| >= 2 && ' ' !in t
  {
    if s == [] then "_e"
    else (if s[0] == ' ' then "_s" else [s[0], 'c']) + EncodeField(s[1..])
  }

  /** Reads one field from the front of `t`, giving the field and the text after it. */
  function DecodeField(t: string): (r: Option<(string, string)>)
    ensures r.Some? ==> |r.value.1| < |t| && r.value.1 == t[|t| - |r.value.1|..]
    decreases |t|
  {
    if |t| < 2 then None
    else if t[0] == '_' && t[1] == 'e' then Some(([], t[2..]))
    else if (t[0] == '_' && t[1] == 's') || (t[0] != ' ' && t[1] == 'c') then
      match DecodeField(t[2..])
      case None => None
      case Some(field) => Some(([if t[1] == 's' then ' ' else t[0]] + field.0, field.1))
    else None
  }

  lemma {:induction false} DecodeEncodeField(s: string, rest: string)
    ensures DecodeField(EncodeField(s) + rest) == Some((s, rest))
  {
    var t := EncodeField(s) + rest;
    if s == [] {
      assert t == "_e" + rest && t[2..] == rest;
    } else {
      var head := if s[0] == ' ' then "_s" else [s[0], 'c'];
      var tail := EncodeField(s[1..]) + rest;
      assert t == head + tail;
      assert t[0] == head[0] && t[1] == head[1] && t[2..] == tail;
      DecodeEncodeField(s[1..], rest);
      assert [s[0]] + s[1..] == s;
    }
  }

  lemma {:induction false} EncodeDecodeField(t: string)
    requires DecodeField(t).Some?
    ensures t == EncodeField(DecodeField(t).value.0) + DecodeField(t).value.1
    decreases |t|
  {
    if t[0] == '_' && t[1] == 'e' {
      assert t == "_e" + t[2..];
    } else {
      var inner := DecodeField(t[2..]).value;
      EncodeDecodeField(t[2..]);
      var ch := if t[1] == 's' then ' ' else t[0];
      var s := [ch] + inner.0;
      assert DecodeField(t).value == (s, inner.1);
      assert s[0] == ch && s[1..] == inner.0;
      var mark := if ch == ' ' then "_s" else [ch, 'c'];
      assert EncodeField(s) == mark + EncodeField(inner.0);
      assert mark == t[..2];
      assert t == t[..2] + t[2..];
    }
  }

  /** A number is written as a field of that many `1`s. */
  function Unary(n: nat): (s: string)
    ensures |s| == n
  {
    seq(n, _ => '1')
  }

  function ReadUnary(s: string): Option<nat> {
    if forall i :: 0 <= i < |s| ==> s[i] == '1' then Some(|s|) else None
  }

  lemma ReadUnaryInverse(s: string)
    requires ReadUnary(s).Some?
    ensures s == Unary(ReadUnary(s).value)
  {
  }

  function EncodeNat(n: nat): string {
    EncodeField(Unary(n))
  }

  function DecodeNat(t: string): (r: Option<(nat, string)>)
    ensures r.Some? ==> |r.value.1| < |t|
  {
    var f :- DecodeField(t);
    var n :- ReadUnary(f.0);
    Some((n, f.1))
  }

  lemma DecodeEncodeNat(n: nat, rest: string)
    ensures DecodeNat(EncodeNat(n) + rest) == Some((n, rest))
  {
    DecodeEncodeField(Unary(n), rest);
  }

  lemma EncodeDecodeNat(t: string)
    requires DecodeNat(t).Some?
    ensures t == EncodeNat(DecodeNat(t).value.0) + DecodeNat(t).value.1
  {
    EncodeDecodeField(t);
    ReadUnaryInverse(DecodeField(t).value.0);
  }

  function EncodePayload(p: Payload): string {
    EncodeNat(p.claims.id) + EncodeField(p.claims.email) + EncodeField(p.claims.userType)
      + EncodeNat(p.iat) + EncodeNat(p.exp)
  }

  /** Reads a payload from the front of `t`, giving the payload and the text after it. */
  function DecodePayload(t: string): (r: Option<(Payload, string)>)
    ensures r.Some? ==> |r.value.1| < |t|
  {
    var id :- DecodeNat(t);
    var email :- DecodeField(id.1);
    var userType :- DecodeField(email.1);
    var iat :- DecodeNat(userType.1);
    var exp :- DecodeNat(iat.1);
    Some((Payload(Claims(id.0, email.0, userType.0), iat.0, exp.0), exp.1))
  }

  lemma DecodeEncodePayload(p: Payload, rest: string)
    ensures DecodePayload(EncodePayload(p) + rest) == Some((p, rest))
  {
    var r4 := EncodeNat(p.exp) + rest;
    var r3 := EncodeNat(p.iat) + r4;
    var r2 := EncodeField(p.claims.userType) + r3;
    var r1 := EncodeField(p.claims.email) + r2;
    Reassemble(EncodeNat(p.claims.id) + r1, EncodeNat(p.claims.id), r1, EncodeField(p.claims.email), r2,
               EncodeField(p.claims.userType), r3, EncodeNat(p.iat), r4, EncodeNat(p.exp), rest);
    DecodeFields(p, rest, r1, r2, r3, r4);
  }

  lemma DecodeFields(p: Payload, rest: string, r1: string, r2: string, r3: string, r4: string)
    requires r1 == EncodeField(p.claims.email) + r2 && r2 == EncodeField(p.claims.userType) + r3
    requires r3 == EncodeNat(p.iat) + r4 && r4 == EncodeNat(p.exp) + rest
    ensures DecodePayload(EncodeNat(p.claims.id) + r1) == Some((p, rest))
  {
    DecodeEncodeNat(p.claims.id, r1);
    DecodeEncodeField(p.claims.email, r2);
    DecodeEncodeField(p.claims.userType, r3);
    DecodeEncodeNat(p.iat, r4);
    DecodeEncodeNat(p.exp, rest);
  }

  lemma EncodeDecodePayload(t: string)
    requires DecodePayload(t).Some?
    ensures t == EncodePayload(DecodePayload(t).value.0) + DecodePayload(t).value.1
  {
    var id := DecodeNat(t).value;
    var email := DecodeField(id.1).value;
    var userType := DecodeField(email.1).value;
    var iat := DecodeNat(userType.1).value;
    var exp := DecodeNat(iat.1).value;
    EncodeDecodeNat(t);
    EncodeDecodeField(id.1);
    EncodeDecodeField(email.1);
    EncodeDecodeNat(userType.1);
    EncodeDecodeNat(iat.1);
    var p := Payload(Claims(id.0, email.0, userType.0), iat.0, exp.0);
    assert DecodePayload(t).value == (p, exp.1);
    Reassemble(t, EncodeNat(p.claims.id), id.1, EncodeField(p.claims.email), email.1,
      EncodeField(p.claims.userType), userType.1, EncodeNat(p.iat), iat.1, EncodeNat(p.exp), exp.1);
  }

  /** Five fields read one after another stand side by side in the text. */
  lemma Reassemble(t: string, a: string, r1: string, b: string, r2: string, c: string, r3: string,
                   d: string, r4: string, e: string, rest: string)
    requires t == a + r1 && r1 == b + r2 && r2 == c + r3 && r3 == d + r4 && r4 == e + rest
    ensures t == a + b + c + d + e + rest
  {
  }

  /** The signature of the signed text under the secret (HMAC-SHA256 in `jsonwebtoken`). */
  function Signature(signed: string, secret: string): string {
    secret + signed
  }

  function SignPayload(p: Payload, secret: string): string {
    EncodePayload(p) + EncodeField(Signature(EncodePayload(p), secret))
  }

  /** `jwt.sign(claims, secret, { expiresIn: '24h' })` at time `iat` (seconds). */
  function Sign(claims: Claims, secret: string, iat: nat): (token: string)
    ensures token != "" && ' ' !in token
  {
    SignPayload(Payload(claims, iat, iat + ExpiresIn), secret)
  }

  // ---------------------------------------------------------------------------
  // Decoding and verification

  /** A token taken apart: the payload, the text the signature covers, and the signature. */
  datatype Decoded = Decoded(payload: Payload, signed: string, signature: string)

  function DecodeToken(token: string): Option<Decoded> {
    var payload :- DecodePayload(token);
    var signature :- DecodeField(payload.1);
    if signature.1 != [] then None
    else Some(Decoded(payload.0, token[..|token| - |payload.1|], signature.0))
  }

  /** `jwt.verify(token, secret)` at time `now`: the claims of a well-formed token whose
      signature matches and that has not expired (`now < exp`), and nothing otherwise. */
  function Verify(token: string, secret: string, now: nat): Option<Claims> {
    match DecodeToken(token)
    case None => None
    case Some(d) =>
      if d.signature != Signature(d.signed, secret) then None
      else if now >= d.payload.exp then None
      else Some(d.payload.claims)
  }

  lemma DecodeSigned(p: Payload, secret: string)
    ensures DecodeToken(SignPayload(p, secret))
         == Some(Decoded(p, EncodePayload(p), Signature(EncodePayload(p), secret)))
  {
    var sig := Signature(EncodePayload(p), secret);
    var f := EncodeField(sig);
    var token := SignPayload(p, secret);
    DecodeEncodePayload(p, f);
    assert f == f + [];
    DecodeEncodeField(sig, []);
    assert token[..|token| - |f|] == EncodePayload(p);
  }

  /** A token signed with the secret verifies to its claims until it expires. */
  lemma VerifySigned(claims: Claims, secret: string, iat: nat, now: nat)
    requires now < iat + ExpiresIn
    ensures Verify(Sign(claims, secret, iat), secret, now) == Some(claims)
  {
    DecodeSigned(Payload(claims, iat, iat + ExpiresIn), secret);
  }

  /** From 24 hours after issue a token fails verification, under any secret. */
  lemma VerifyExpired(claims: Claims, secret: string, iat: nat, key: string, now: nat)
    requires now >= iat + ExpiresIn
    ensures Verify(Sign(claims, secret, iat), key, now) == None
  {
    DecodeSigned(Payload(claims, iat, iat + ExpiresIn), secret);
  }

  /** A token signed with one secret fails verification under any other. */
  lemma VerifyForeignSecret(claims: Claims, secret: string, iat: nat, key: string, now: nat)
    requires key != secret
    ensures Verify(Sign(claims, secret, iat), key, now) == None
  {
    var p := Payload(claims, iat, iat + ExpiresIn);
    DecodeSigned(p, secret);
    SignatureBindsSecret(EncodePayload(p), secret, key);
  }

  /** Two secrets never give the same signature of the same text. */
  lemma SignatureBindsSecret(signed: string, secret: string, key: string)
    requires key != secret
    ensures Signature(signed, secret) != Signature(signed, key)
  {
    if |secret| == |key| {
      assert Signature(signed, secret)[..|secret|] == secret;
      assert Signature(signed, key)[..|key|] == key;
    }
  }

  /** Every token that verifies was signed with the secret: its text is exactly the signing
      of a payload that carries the claims returned and has not expired. */
  lemma VerifySound(token: string, secret: string, now: nat)
    requires Verify(token, secret, now).Some?
    ensures exists p: Payload :: token == SignPayload(p, secret)
                              && p.claims == Verify(token, secret, now).value && now < p.exp
  {
    var d := DecodeToken(token).value;
    DecodedTokenShape(token);
    assert d.signature == Signature(d.signed, secret) && now < d.payload.exp;
    assert token == SignPayload(d.payload, secret);
  }

  /** A token that decodes is the encoding of its payload followed by the encoding of its
      signature, and the signature covers exactly the encoded payload. */
  lemma DecodedTokenShape(token: string)
    requires DecodeToken(token).Some?
    ensures var d := DecodeToken(token).value;
            d.signed == EncodePayload(d.payload) && token == d.signed + EncodeField(d.signature)
  {
    var payload := DecodePayload(token).value;
    var signature := DecodeField(payload.1).value;
    EncodeDecodePayload(token);
    EncodeDecodeField(payload.1);
    assert signature.1 == [];
    assert payload.1 == EncodeField(signature.0);
    assert token[..|token| - |payload.1|] == EncodePayload(payload.0);
  }
}
