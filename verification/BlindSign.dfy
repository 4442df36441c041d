/**
 * Blinded two-party Schnorr signing: the client opens a session for the coin's taproot output
 * key, both parties sign with their share, and the sum must verify as in BIP 340.
 * Hashes and the taproot tweak are arbitrary functions and values.
 */
module BlindSign {
  import opened Bytes
  import opened Curve
  import KeyShares

  type Message = seq<Byte>

  /** The two hash functions of a session. They see points only through their encodings. */
  datatype Hashes = Hashes(
    nonceCoef: (int, int, int, Message) -> int,  // aggregate nonces, x-only key, message
    challenge: (int, int, Message) -> int)       // x-only nonce, x-only key, message

  datatype SecNonce = SecNonce(k1: int, k2: int, pk: int)

  datatype PubNonce = PubNonce(r1: int, r2: int)

  datatype Session = Session(finNonce: int, finNonceOdd: bool, nonceCoef: int, challenge: int, sPart: int)

  datatype Signature = Signature(rx: int, s: int)

  function PublicNonce(k: SecNonce): PubNonce { PubNonce(k.k1, k.k2) }

  predicate ValidSecNonce(g: Group, k: SecNonce) { IsScalar(g, k.k1) && IsScalar(g, k.k2) && IsKey(g, k.pk) }

  // ----- opening a session ----------------------------------------------------------------

  datatype Output = Output(parityAcc: bool, pubkey: int, tweak: int)

  /** blinded_musig_pubkey_xonly_tweak_add from a fresh accumulator. */
  function TweakOutput(g: Group, aggregate: int, tweak: int): (r: Option<Output>)
    requires IsKey(g, aggregate)
    ensures r.Some? ==> IsKey(g, r.value.pubkey)
  {
    if !IsScalar(g, tweak) then None
    else
      var q := Add(g, EvenY(g, aggregate), tweak);
      if q == 0 then None else Some(Output(g.oddY(aggregate), q, tweak))
  }

  /** blinded_musig_negate_seckey */
  function NegateSeckey(g: Group, out: Output): bool { g.oddY(out.pubkey) != out.parityAcc }

  /** The nonce point before its Y coordinate is looked at. */
  function BlindedNonce(g: Group, h: Hashes, msg: Message, q: int, c: PubNonce, s: PubNonce, blinding: int): (r: int)
    requires IsKey(g, q)
    ensures IsScalar(g, r)
  {
    var r1, r2 := Add(g, c.r1, s.r1), Add(g, c.r2, s.r2);
    var b := h.nonceCoef(r1, r2, EvenY(g, q), msg) % g.n;
    Add(g, Add(g, Mul(g, b, r2), r1), Mul(g, blinding, q))
  }

  /** blinded_musig_nonce_process_without_keyaggcoeff */
  function OpenSession(g: Group, h: Hashes, msg: Message, out: Output, c: PubNonce, s: PubNonce, blinding: int)
    : (r: Option<Session>)
    requires ValidGroup(g) && IsKey(g, out.pubkey)
  {
    var q := out.pubkey;
    if !IsScalar(g, out.tweak) || !IsKey(g, blinding) then None
    else
      var point := BlindedNonce(g, h, msg, q, c, s, blinding);
      var fin := if point == 0 then 1 else point;
      var b := h.nonceCoef(Add(g, c.r1, s.r1), Add(g, c.r2, s.r2), EvenY(g, q), msg) % g.n;
      var e := h.challenge(EvenY(g, fin), EvenY(g, q), msg) % g.n;
      var blinded := Add(g, e, if g.oddY(q) != g.oddY(fin) then Neg(g, blinding) else blinding);
      var et := Mul(g, blinded, out.tweak);
      Some(Session(EvenY(g, fin), g.oddY(fin), b, blinded, if g.oddY(q) then Neg(g, et) else et))
  }

  /** What the server is shown: the session without the final nonce. */
  function RemoveFinNonce(session: Session): Session { session.(finNonce := 0) }

  // ----- signing --------------------------------------------------------------------------

  /** blinded_musig_partial_sign_without_keyaggcoeff: refuses a nonce drawn for another key. */
  function PartialSign(g: Group, k: SecNonce, seckey: int, session: Session, negate: bool): (r: Option<int>)
    requires g.n > 0
    ensures r.Some? ==> IsScalar(g, r.value)
  {
    if !IsKey(g, seckey) || k.pk != seckey then None
    else
      var d := if negate then Neg(g, seckey) else seckey;
      var k1 := if session.finNonceOdd then Neg(g, k.k1) else k.k1;
      var k2 := if session.finNonceOdd then Neg(g, k.k2) else k.k2;
      Some(Add(g, Mul(g, session.challenge, d), Add(g, k1, Mul(g, session.nonceCoef, k2))))
  }

  /** blinded_musig_partial_sig_verify, the client's check of its own half. */
  function PartialVerify(g: Group, sig: int, nonce: PubNonce, pubkey: int, out: Output, session: Session): (ok: bool)
    requires g.n > 0
  {
    var r := Add(g, Mul(g, session.nonceCoef, nonce.r2), nonce.r1);
    var e := if NegateSeckey(g, out) then Neg(g, session.challenge) else session.challenge;
    Add(g, Add(g, Mul(g, e, pubkey), Neg(g, sig)), if session.finNonceOdd then Neg(g, r) else r) == 0
  }

  function Aggregate(g: Group, session: Session, client: int, server: int): (sig: Signature)
    requires g.n > 0
  {
    Signature(session.finNonce, Add(g, Add(g, session.sPart, client), server))
  }

  /** Verification of BIP 340 for an x-only key given by its even representative. */
  predicate SchnorrVerify(g: Group, h: Hashes, sig: Signature, msg: Message, key: int)
    requires g.n > 0
  {
    && IsScalar(g, sig.s)
    && var e := h.challenge(sig.rx, key, msg) % g.n;
       var r := Add(g, sig.s, Neg(g, Mul(g, e, key)));
       r != 0 && !g.oddY(r) && r == sig.rx
  }

  // ----- the signing equation -------------------------------------------------------------

  function Sign(negative: bool): int { if negative then -1 else 1 }

  lemma CongSigned(g: Group, negative: bool, a: int, b: int)
    requires g.n > 0 && Cong(g.n, a, b)
    ensures Cong(g.n, if negative then Neg(g, a) else a, Sign(negative) * b)
  {
    if negative {
      CongNeg(g.n, a, b);
      CongMod(g.n, -a);
    }
  }

  lemma EvenYSigned(g: Group, p: int)
    requires IsKey(g, p)
    ensures Cong(g.n, EvenY(g, p), Sign(g.oddY(p)) * p)
  {
    if g.oddY(p) { CongShift(g.n, -p, 1); }
  }

  /**
   * A half signature is given exactly for a nonce drawn under the key, and is the share's multiple
   * of the challenge plus the signed nonce.
   */
  lemma PartialSignEquation(g: Group, k: SecNonce, seckey: int, session: Session, negate: bool)
    requires g.n > 0
    ensures PartialSign(g, k, seckey, session, negate).Some? <==> IsKey(g, seckey) && k.pk == seckey
    ensures PartialSign(g, k, seckey, session, negate).Some? ==>
            Cong(g.n, PartialSign(g, k, seckey, session, negate).value,
                 session.challenge * (Sign(negate) * seckey)
                 + Sign(session.finNonceOdd) * (k.k1 + session.nonceCoef * k.k2))
  {
    var o, b, c := session.finNonceOdd, session.nonceCoef, session.challenge;
    var d := if negate then Neg(g, seckey) else seckey;
    CongSigned(g, negate, seckey, seckey);
    CongSigned(g, o, k.k1, k.k1);
    CongSigned(g, o, k.k2, k.k2);
    HalfSum(g, c, d, Sign(negate) * seckey, b, if o then Neg(g, k.k1) else k.k1, Sign(o) * k.k1,
            if o then Neg(g, k.k2) else k.k2, Sign(o) * k.k2);
    SignFactor(o, b, k.k1, k.k2);
  }

  lemma HalfSum(g: Group, c: int, d: int, d0: int, b: int, k1: int, l1: int, k2: int, l2: int)
    requires g.n > 0 && Cong(g.n, d, d0) && Cong(g.n, k1, l1) && Cong(g.n, k2, l2)
    ensures Cong(g.n, Add(g, Mul(g, c, d), Add(g, k1, Mul(g, b, k2))), c * d0 + (l1 + b * l2))
  {
    MulCong(g, c, c, d, d0);
    MulCong(g, b, b, k2, l2);
    AddCong(g, k1, l1, Mul(g, b, k2), b * l2);
    AddCong(g, Mul(g, c, d), c * d0, Add(g, k1, Mul(g, b, k2)), l1 + b * l2);
  }

  lemma SignFactor(o: bool, b: int, k1: int, k2: int)
    ensures Sign(o) * k1 + b * (Sign(o) * k2) == Sign(o) * (k1 + b * k2)
  {
  }

  /** The polynomial identity behind the scheme: the blinding and the tweak both cancel. */
  lemma SigningIdentity(g1: int, gq: int, gr: int, d: int, t: int, e: int, blind: int, r: int)
    requires gq * gq == 1
    ensures var q := g1 * d + t;
            (e + gq * gr * blind) * (gq * q) + gr * r == gr * (r + blind * q) + e * (gq * q)
  {
    var q := g1 * d + t;
    Distribute(e, gq * gr * blind, gq * q);
    assert (gq * gr * blind) * (gq * q) == (gq * gq) * (gr * (blind * q));
  }

  /** The output key is the tweaked, sign-corrected joint key. */
  lemma OutputKeyEquation(g: Group, dc: int, ds: int, tweak: int)
    requires ValidGroup(g) && IsKey(g, dc) && IsKey(g, ds)
    requires Combine(g, dc, ds).Some? && TweakOutput(g, Combine(g, dc, ds).value, tweak).Some?
    ensures var p := Combine(g, dc, ds).value;
            var out := TweakOutput(g, p, tweak).value;
            Cong(g.n, out.pubkey, Sign(g.oddY(p)) * (dc + ds) + tweak)
  {
    var p := Combine(g, dc, ds).value;
    EvenYSigned(g, p);
    CongMod(g.n, dc + ds);
    CongMul(g.n, Sign(g.oddY(p)), Sign(g.oddY(p)), p, dc + ds);
    CongAdd(g.n, EvenY(g, p), Sign(g.oddY(p)) * (dc + ds), tweak, tweak);
    CongMod(g.n, EvenY(g, p) + tweak);
  }

  /** The final nonce is the sum of the four nonces plus the blinded key. */
  lemma NonceEquation(g: Group, h: Hashes, msg: Message, q: int, q0: int, kc: SecNonce, ks: SecNonce, blinding: int)
    requires ValidGroup(g) && IsKey(g, q) && Cong(g.n, q, q0)
    ensures var b := h.nonceCoef(Add(g, kc.k1, ks.k1), Add(g, kc.k2, ks.k2), EvenY(g, q), msg) % g.n;
            Cong(g.n, BlindedNonce(g, h, msg, q, PublicNonce(kc), PublicNonce(ks), blinding),
                 (kc.k1 + b * kc.k2) + (ks.k1 + b * ks.k2) + blinding * q0)
  {
    var b := h.nonceCoef(Add(g, kc.k1, ks.k1), Add(g, kc.k2, ks.k2), EvenY(g, q), msg) % g.n;
    NonceSum(g, b, kc.k1, kc.k2, ks.k1, ks.k2, blinding, q, q0);
  }

  lemma NonceSum(g: Group, b: int, k1: int, k2: int, l1: int, l2: int, blinding: int, q: int, q0: int)
    requires g.n > 0 && Cong(g.n, q, q0)
    ensures Cong(g.n, Add(g, Add(g, Mul(g, b, Add(g, k2, l2)), Add(g, k1, l1)), Mul(g, blinding, q)),
                 (k1 + b * k2) + (l1 + b * l2) + blinding * q0)
  {
    AddCong(g, k1, k1, l1, l1);
    AddCong(g, k2, k2, l2, l2);
    MulCong(g, b, b, Add(g, k2, l2), k2 + l2);
    AddCong(g, Mul(g, b, Add(g, k2, l2)), b * (k2 + l2), Add(g, k1, l1), k1 + l1);
    MulCong(g, blinding, blinding, q, q0);
    AddCong(g, Add(g, Mul(g, b, Add(g, k2, l2)), Add(g, k1, l1)), b * (k2 + l2) + (k1 + l1), Mul(g, blinding, q), blinding * q0);
    assert b * (k2 + l2) + (k1 + l1) + blinding * q0 == (k1 + b * k2) + (l1 + b * l2) + blinding * q0 by {
      assert b * (k2 + l2) == b * k2 + b * l2;
    }
  }

  /** The challenge the parties sign is the Schnorr challenge shifted by the signed blinding. */
  lemma ChallengeEquation(g: Group, e: int, q: int, fin: int, blinding: int)
    requires ValidGroup(g)
    ensures Cong(g.n, Add(g, e, if g.oddY(q) != g.oddY(fin) then Neg(g, blinding) else blinding),
                 e + Sign(g.oddY(q)) * Sign(g.oddY(fin)) * blinding)
  {
    var flip := g.oddY(q) != g.oddY(fin);
    CongSigned(g, flip, blinding, blinding);
    assert Sign(flip) * blinding == Sign(g.oddY(q)) * Sign(g.oddY(fin)) * blinding;
    CongAdd(g.n, e, e, if flip then Neg(g, blinding) else blinding, Sign(flip) * blinding);
    CongMod(g.n, e + (if flip then Neg(g, blinding) else blinding));
  }

  // ----- the whole exchange ---------------------------------------------------------------

  /** One party's secrets: its key share and the nonce pair drawn for it. */
  datatype Signer = Signer(share: int, nonce: SecNonce)

  ghost predicate ValidSigner(g: Group, p: Signer)
  {
    IsKey(g, p.share) && ValidSecNonce(g, p.nonce) && p.nonce.pk == p.share
  }

  /** The session for the joint key of two signers, as the client computes it. */
  function SessionFor(g: Group, h: Hashes, msg: Message, client: Signer, server: Signer, tweak: int, blinding: int)
    : (r: Option<(Output, Session)>)
    requires ValidGroup(g)
    ensures r.Some? ==> IsKey(g, r.value.0.pubkey)
  {
    var p := Combine(g, client.share, server.share);
    if p.None? || !IsKey(g, tweak) then None
    else
      var out := TweakOutput(g, p.value, tweak);
      if out.None? then None
      else
        var session := OpenSession(g, h, msg, out.value, PublicNonce(client.nonce), PublicNonce(server.nonce), blinding);
        if session.None? then None else Some((out.value, session.value))
  }

  /** The exchange up to the aggregated signature: both halves use the client's negation flag. */
  function JointSignature(g: Group, h: Hashes, msg: Message, client: Signer, server: Signer, tweak: int, blinding: int)
    : (r: Option<Signature>)
    requires ValidGroup(g)
  {
    var ready := SessionFor(g, h, msg, client, server, tweak, blinding);
    if ready.None? then None
    else
      var (out, session) := ready.value;
      var negate := NegateSeckey(g, out);
      var sc := PartialSign(g, client.nonce, client.share, session, negate);
      var ss := PartialSign(g, server.nonce, server.share, RemoveFinNonce(session), negate);
      if sc.None? || ss.None? then None else Some(Aggregate(g, session, sc.value, ss.value))
  }

  /** s = nonce + challenge * key, all three with the signs that even Y coordinates demand. */
  lemma JointSignatureEquation(g: Group, h: Hashes, msg: Message, client: Signer, server: Signer, tweak: int, blinding: int)
    requires ValidGroup(g) && ValidSigner(g, client) && ValidSigner(g, server)
    requires SessionFor(g, h, msg, client, server, tweak, blinding).Some?
    ensures var (out, session) := SessionFor(g, h, msg, client, server, tweak, blinding).value;
            var q := out.pubkey;
            var point := BlindedNonce(g, h, msg, q, PublicNonce(client.nonce), PublicNonce(server.nonce), blinding);
            var e := h.challenge(session.finNonce, EvenY(g, q), msg) % g.n;
            && JointSignature(g, h, msg, client, server, tweak, blinding).Some?
            && Cong(g.n, JointSignature(g, h, msg, client, server, tweak, blinding).value.s,
                    Sign(session.finNonceOdd) * point + e * EvenY(g, q))
  {
    var (out, session) := SessionFor(g, h, msg, client, server, tweak, blinding).value;
    var q, kc, ks := out.pubkey, client.nonce, server.nonce;
    var p := Combine(g, client.share, server.share).value;
    var point := BlindedNonce(g, h, msg, q, PublicNonce(kc), PublicNonce(ks), blinding);
    SessionEquations(g, h, msg, client, server, tweak, blinding);
    FinNonceUnused(g, ks, server.share, session, NegateSeckey(g, out));
    SumOfSession(g, client, server, out, session, p, h.challenge(session.finNonce, EvenY(g, q), msg) % g.n, tweak, blinding, point);
  }

  lemma SumOfSession(g: Group, client: Signer, server: Signer, out: Output, session: Session, p: int, e: int,
                     tweak: int, blinding: int, point: int)
    requires ValidGroup(g) && ValidSigner(g, client) && ValidSigner(g, server) && IsKey(g, out.pubkey)
    requires out.parityAcc == g.oddY(p)
    requires var q0 := Sign(g.oddY(p)) * (client.share + server.share) + tweak;
             && Cong(g.n, out.pubkey, q0)
             && Cong(g.n, EvenY(g, out.pubkey), Sign(g.oddY(out.pubkey)) * out.pubkey)
             && Cong(g.n, session.challenge, e + Sign(g.oddY(out.pubkey)) * Sign(session.finNonceOdd) * blinding)
             && Cong(g.n, session.sPart, Sign(g.oddY(out.pubkey)) * (session.challenge * tweak))
             && Cong(g.n, point, (client.nonce.k1 + session.nonceCoef * client.nonce.k2)
                                 + (server.nonce.k1 + session.nonceCoef * server.nonce.k2) + blinding * q0)
    ensures var sc := PartialSign(g, client.nonce, client.share, session, NegateSeckey(g, out));
            var ss := PartialSign(g, server.nonce, server.share, session, NegateSeckey(g, out));
            Cong(g.n, Aggregate(g, session, sc.value, ss.value).s, Sign(session.finNonceOdd) * point + e * EvenY(g, out.pubkey))
  {
    var kc, ks, q := client.nonce, server.nonce, out.pubkey;
    HalfOf(g, kc, client.share, session, g.oddY(q), g.oddY(p));
    HalfOf(g, ks, server.share, session, g.oddY(q), g.oddY(p));
    AddParts(g, session.sPart, PartialSign(g, kc, client.share, session, NegateSeckey(g, out)).value,
             PartialSign(g, ks, server.share, session, NegateSeckey(g, out)).value,
             session.challenge, e, Sign(g.oddY(p)), Sign(g.oddY(q)), Sign(session.finNonceOdd), client.share, server.share,
             tweak, blinding, kc.k1 + session.nonceCoef * kc.k2, ks.k1 + session.nonceCoef * ks.k2, point, q, EvenY(g, q));
  }

  /** The server can sign without having been shown the final nonce. */
  lemma FinNonceUnused(g: Group, k: SecNonce, share: int, session: Session, negate: bool)
    requires g.n > 0
    ensures PartialSign(g, k, share, RemoveFinNonce(session), negate) == PartialSign(g, k, share, session, negate)
  {
  }

  /** The fields of an opened session, each up to a multiple of the group order. */
  lemma SessionEquations(g: Group, h: Hashes, msg: Message, client: Signer, server: Signer, tweak: int, blinding: int)
    requires ValidGroup(g) && ValidSigner(g, client) && ValidSigner(g, server)
    requires SessionFor(g, h, msg, client, server, tweak, blinding).Some?
    ensures var (out, session) := SessionFor(g, h, msg, client, server, tweak, blinding).value;
            var q, kc, ks := out.pubkey, client.nonce, server.nonce;
            var p := Combine(g, client.share, server.share).value;
            var q0 := Sign(g.oddY(p)) * (client.share + server.share) + tweak;
            var e := h.challenge(session.finNonce, EvenY(g, q), msg) % g.n;
            && out.parityAcc == g.oddY(p)
            && Cong(g.n, q, q0)
            && Cong(g.n, EvenY(g, q), Sign(g.oddY(q)) * q)
            && Cong(g.n, session.challenge, e + Sign(g.oddY(q)) * Sign(session.finNonceOdd) * blinding)
            && Cong(g.n, session.sPart, Sign(g.oddY(q)) * (session.challenge * tweak))
            && Cong(g.n, BlindedNonce(g, h, msg, q, PublicNonce(kc), PublicNonce(ks), blinding),
                    (kc.k1 + session.nonceCoef * kc.k2) + (ks.k1 + session.nonceCoef * ks.k2) + blinding * q0)
  {
    var (out, session) := SessionFor(g, h, msg, client, server, tweak, blinding).value;
    var q, kc, ks := out.pubkey, client.nonce, server.nonce;
    var p := Combine(g, client.share, server.share).value;
    var point := BlindedNonce(g, h, msg, q, PublicNonce(kc), PublicNonce(ks), blinding);
    var fin := if point == 0 then 1 else point;
    OutputKeyEquation(g, client.share, server.share, tweak);
    EvenYSigned(g, q);
    ChallengeEquation(g, h.challenge(EvenY(g, fin), EvenY(g, q), msg) % g.n, q, fin, blinding);
    TweakPart(g, session.challenge, tweak, g.oddY(q));
    NonceEquation(g, h, msg, q, Sign(g.oddY(p)) * (client.share + server.share) + tweak, kc, ks, blinding);
  }

  lemma HalfOf(g: Group, k: SecNonce, share: int, session: Session, oddQ: bool, oddP: bool)
    requires g.n > 0 && IsKey(g, share) && k.pk == share
    ensures Cong(g.n, PartialSign(g, k, share, session, oddQ != oddP).value,
                 session.challenge * (Sign(oddQ) * Sign(oddP) * share)
                 + Sign(session.finNonceOdd) * (k.k1 + session.nonceCoef * k.k2))
  {
    PartialSignEquation(g, k, share, session, oddQ != oddP);
    assert Sign(oddQ != oddP) * share == Sign(oddQ) * Sign(oddP) * share;
  }

  /** The aggregated s from the equations of its parts. */
  lemma AddParts(g: Group, sPart: int, sc: int, ss: int, c: int, e: int, g1: int, gq: int, gr: int, dc: int, ds: int,
                 tweak: int, blinding: int, rc: int, rs: int, point: int, q: int, key: int)
    requires g.n > 0 && gq * gq == 1
    requires Cong(g.n, c, e + gq * gr * blinding)
    requires Cong(g.n, sPart, gq * (c * tweak))
    requires Cong(g.n, sc, c * (gq * g1 * dc) + gr * rc)
    requires Cong(g.n, ss, c * (gq * g1 * ds) + gr * rs)
    requires Cong(g.n, q, g1 * (dc + ds) + tweak) && Cong(g.n, key, gq * q)
    requires Cong(g.n, point, rc + rs + blinding * (g1 * (dc + ds) + tweak))
    ensures Cong(g.n, Add(g, Add(g, sPart, sc), ss), gr * point + e * key)
  {
    HalvesAddUp(g, sPart, sc, ss, c, e + gq * gr * blinding, g1, gq, gr, dc, ds, tweak, rc, rs);
    Regroup(g, g1, gq, gr, dc + ds, tweak, e, blinding, rc + rs, point, q, key);
  }

  lemma TweakPart(g: Group, c: int, tweak: int, odd: bool)
    requires g.n > 0
    ensures Cong(g.n, if odd then Neg(g, Mul(g, c, tweak)) else Mul(g, c, tweak), Sign(odd) * (c * tweak))
  {
    CongMod(g.n, c * tweak);
    CongSigned(g, odd, Mul(g, c, tweak), c * tweak);
  }

  lemma Regroup(g: Group, g1: int, gq: int, gr: int, d: int, tweak: int, e: int, blinding: int, r: int,
                point: int, q: int, key: int)
    requires g.n > 0 && gq * gq == 1
    requires Cong(g.n, q, g1 * d + tweak) && Cong(g.n, key, gq * q)
    requires Cong(g.n, point, r + blinding * (g1 * d + tweak))
    ensures Cong(g.n, (e + gq * gr * blinding) * (gq * (g1 * d + tweak)) + gr * r, gr * point + e * key)
  {
    var n, q0 := g.n, g1 * d + tweak;
    SigningIdentity(g1, gq, gr, d, tweak, e, blinding, r);
    assert Cong(n, gr * point, gr * (r + blinding * q0)) by { CongMul(n, gr, gr, point, r + blinding * q0); }
    assert Cong(n, e * key, e * (gq * q0)) by {
      CongMul(n, gq, gq, q, q0);
      CongMul(n, e, e, key, gq * q0);
    }
    CongAdd(n, gr * point, gr * (r + blinding * q0), e * key, e * (gq * q0));
  }

  /** Adding the tweak part and the two halves collects the challenge on the output key. */
  lemma HalvesAddUp(g: Group, sPart: int, sc: int, ss: int, c: int, c0: int, g1: int, gq: int, gr: int,
                    dc: int, ds: int, tweak: int, rc: int, rs: int)
    requires g.n > 0 && Cong(g.n, c, c0)
    requires Cong(g.n, sPart, gq * (c * tweak))
    requires Cong(g.n, sc, c * (gq * g1 * dc) + gr * rc)
    requires Cong(g.n, ss, c * (gq * g1 * ds) + gr * rs)
    ensures Cong(g.n, Add(g, Add(g, sPart, sc), ss), c0 * (gq * (g1 * (dc + ds) + tweak)) + gr * (rc + rs))
  {
    var n := g.n;
    var y := gq * (g1 * (dc + ds) + tweak);
    CongAdd(n, sPart, gq * (c * tweak), sc, c * (gq * g1 * dc) + gr * rc);
    CongMod(n, sPart + sc);
    CongAdd(n, Add(g, sPart, sc), gq * (c * tweak) + (c * (gq * g1 * dc) + gr * rc), ss, c * (gq * g1 * ds) + gr * rs);
    CongMod(n, Add(g, sPart, sc) + ss);
    CongScale(n, c, c0, y);
    CongAdd(n, c * y, c0 * y, gr * (rc + rs), gr * (rc + rs));
    assert c * y + gr * (rc + rs) == gq * (c * tweak) + (c * (gq * g1 * dc) + gr * rc) + (c * (gq * g1 * ds) + gr * rs) by {
      Collect(c, gq, g1, dc, ds, tweak);
      assert gr * (rc + rs) == gr * rc + gr * rs;
    }
  }

  lemma Collect(c: int, gq: int, g1: int, dc: int, ds: int, tweak: int)
    ensures c * (gq * (g1 * (dc + ds) + tweak)) == gq * (c * tweak) + c * (gq * g1 * dc) + c * (gq * g1 * ds)
  {
    assert gq * (g1 * (dc + ds) + tweak) == gq * g1 * dc + gq * g1 * ds + gq * tweak by {
      assert g1 * (dc + ds) == g1 * dc + g1 * ds;
      Distribute(g1 * dc, g1 * ds, gq);
      Distribute(g1 * dc + g1 * ds, tweak, gq);
    }
    Distribute(gq * g1 * dc, gq * g1 * ds, c);
    Distribute(gq * g1 * dc + gq * g1 * ds, gq * tweak, c);
    assert c * (gq * tweak) == gq * (c * tweak);
  }

  /**
   * Completeness: the aggregated signature verifies under the output key exactly when the
   * blinded nonces do not cancel. (When they do, the library substitutes the generator.)
   */
  lemma SigningComplete(g: Group, h: Hashes, msg: Message, client: Signer, server: Signer, tweak: int, blinding: int)
    requires ValidGroup(g) && ValidSigner(g, client) && ValidSigner(g, server)
    requires SessionFor(g, h, msg, client, server, tweak, blinding).Some?
    ensures var (out, session) := SessionFor(g, h, msg, client, server, tweak, blinding).value;
            && JointSignature(g, h, msg, client, server, tweak, blinding).Some?
            && (SchnorrVerify(g, h, JointSignature(g, h, msg, client, server, tweak, blinding).value, msg, EvenY(g, out.pubkey))
                <==> BlindedNonce(g, h, msg, out.pubkey, PublicNonce(client.nonce), PublicNonce(server.nonce), blinding) != 0)
  {
    JointSignatureEquation(g, h, msg, client, server, tweak, blinding);
    var n := g.n;
    var (out, session) := SessionFor(g, h, msg, client, server, tweak, blinding).value;
    var sig := JointSignature(g, h, msg, client, server, tweak, blinding).value;
    var key := EvenY(g, out.pubkey);
    var point := BlindedNonce(g, h, msg, out.pubkey, PublicNonce(client.nonce), PublicNonce(server.nonce), blinding);
    var e := h.challenge(sig.rx, key, msg) % n;
    var r := Add(g, sig.s, Neg(g, Mul(g, e, key)));
    assert Cong(n, r, Sign(session.finNonceOdd) * point) by {
      MoveAcross(g, sig.s, Sign(session.finNonceOdd) * point, e, key);
    }
    if point != 0 {
      EvenYSigned(g, point);
      CongUnique(n, r, EvenY(g, point));
      EvenYIsEven(g, point);
    } else {
      CongUnique(n, r, 0);
    }
  }

  lemma CancelledFails(g: Group, h: Hashes, msg: Message, client: Signer, server: Signer, tweak: int, blinding: int, key: int)
    requires ValidGroup(g) && ValidSigner(g, client) && ValidSigner(g, server) && IsKey(g, key)
    requires SessionFor(g, h, msg, client, server, tweak, blinding).Some?
    requires SessionFor(g, h, msg, client, server, tweak, blinding).value.0.pubkey == key
    requires BlindedNonce(g, h, msg, key, PublicNonce(client.nonce), PublicNonce(server.nonce), blinding) == 0
    ensures JointSignature(g, h, msg, client, server, tweak, blinding).Some?
    ensures !SchnorrVerify(g, h, JointSignature(g, h, msg, client, server, tweak, blinding).value, msg, EvenY(g, key))
  {
    SigningComplete(g, h, msg, client, server, tweak, blinding);
  }

  /** A group of seven, the share 1 on both sides, and nonces 1 and 3 that cancel: the signature does not verify. */
  lemma CancelledNonces(h: Hashes, msg: Message) returns (g: Group, client: Signer, server: Signer)
    ensures ValidGroup(g) && ValidSigner(g, client) && ValidSigner(g, server)
    ensures JointSignature(g, h, msg, client, server, 1, 1).Some? && IsKey(g, 3)
    ensures !SchnorrVerify(g, h, JointSignature(g, h, msg, client, server, 1, 1).value, msg, EvenY(g, 3))
  {
    g, client, server := SmallSigners();
    SmallSession(g, h, msg, client, server);
    SmallNonce(g, h, msg);
    CancelledFails(g, h, msg, client, server, 1, 1, 3);
  }

  lemma SmallSigners() returns (g: Group, client: Signer, server: Signer)
    ensures ValidGroup(g) && ValidSigner(g, client) && ValidSigner(g, server) && g.n == 7 && !g.oddY(2)
    ensures client.share == 1 && server.share == 1
    ensures PublicNonce(client.nonce) == PubNonce(1, 0) && PublicNonce(server.nonce) == PubNonce(3, 0)
  {
    SmallGroup();
    g, client, server := Group(7, k => k > 3), Signer(1, SecNonce(1, 0, 1)), Signer(1, SecNonce(3, 0, 1));
  }

  lemma SmallSession(g: Group, h: Hashes, msg: Message, client: Signer, server: Signer)
    requires ValidGroup(g) && g.n == 7 && !g.oddY(2) && client.share == 1 && server.share == 1
    ensures SessionFor(g, h, msg, client, server, 1, 1).Some?
    ensures SessionFor(g, h, msg, client, server, 1, 1).value.0.pubkey == 3
  {
    assert Combine(g, 1, 1) == Some(2);
    assert TweakOutput(g, 2, 1) == Some(Output(false, 3, 1));
  }

  lemma SmallNonce(g: Group, h: Hashes, msg: Message)
    requires g.n == 7
    ensures BlindedNonce(g, h, msg, 3, PubNonce(1, 0), PubNonce(3, 0), 1) == 0
  {
    assert forall b :: Mul(g, b, 0) == 0;
    assert Add(g, 1, 3) == 4 && Add(g, 0, 0) == 0 && Add(g, 0, 4) == 4 && Mul(g, 1, 3) == 3 && Add(g, 4, 3) == 0;
  }

  lemma SmallGroup()
    ensures ValidGroup(Group(7, k => k > 3))
  {
    assert Pow256(1) == 256;
    assert Pow256(32) >= Pow256(1);
  }

  lemma MoveAcross(g: Group, s: int, r0: int, e: int, key: int)
    requires g.n > 0 && Cong(g.n, s, r0 + e * key)
    ensures Cong(g.n, Add(g, s, Neg(g, Mul(g, e, key))), r0)
  {
    MulCong(g, e, e, key, key);
    NegCong(g, Mul(g, e, key), e * key);
    AddCong(g, s, r0 + e * key, Neg(g, Mul(g, e, key)), -(e * key));
  }

  /** The client's own half always passes the client's check, and no other value does. */
  lemma ClientHalfVerifies(g: Group, h: Hashes, msg: Message, client: Signer, server: Signer, tweak: int, blinding: int, sig: int)
    requires ValidGroup(g) && ValidSigner(g, client) && ValidSigner(g, server) && IsScalar(g, sig)
    requires SessionFor(g, h, msg, client, server, tweak, blinding).Some?
    ensures var (out, session) := SessionFor(g, h, msg, client, server, tweak, blinding).value;
            PartialVerify(g, sig, PublicNonce(client.nonce), client.share, out, session)
            <==> PartialSign(g, client.nonce, client.share, session, NegateSeckey(g, out)) == Some(sig)
  {
    var (out, session) := SessionFor(g, h, msg, client, server, tweak, blinding).value;
    PartialSignEquation(g, client.nonce, client.share, session, NegateSeckey(g, out));
    var half := PartialSign(g, client.nonce, client.share, session, NegateSeckey(g, out)).value;
    HalfEquation(g, session.challenge, NegateSeckey(g, out), client.share, session.nonceCoef,
                 client.nonce.k1, client.nonce.k2, session.finNonceOdd, sig, half);
  }

  lemma HalfEquation(g: Group, c: int, negate: bool, d: int, b: int, k1: int, k2: int, odd: bool, sig: int, half: int)
    requires g.n > 0 && IsScalar(g, sig) && IsScalar(g, half)
    requires Cong(g.n, half, c * (Sign(negate) * d) + Sign(odd) * (k1 + b * k2))
    ensures var e := if negate then Neg(g, c) else c;
            var r := Add(g, Mul(g, b, k2), k1);
            Add(g, Add(g, Mul(g, e, d), Neg(g, sig)), if odd then Neg(g, r) else r) == 0 <==> sig == half
  {
    var n := g.n;
    var e := if negate then Neg(g, c) else c;
    var r := Add(g, Mul(g, b, k2), k1);
    assert Cong(n, Mul(g, e, d), c * (Sign(negate) * d)) by { SignedProduct(g, negate, c, d); }
    assert Cong(n, if odd then Neg(g, r) else r, Sign(odd) * (k1 + b * k2)) by {
      MulCong(g, b, b, k2, k2);
      AddCong(g, Mul(g, b, k2), b * k2, k1, k1);
      CongSigned(g, odd, r, k1 + b * k2);
    }
    ZeroDifference(g, Mul(g, e, d), if odd then Neg(g, r) else r, sig, half,
                   c * (Sign(negate) * d), Sign(odd) * (k1 + b * k2));
  }

  lemma SignedProduct(g: Group, negate: bool, c: int, d: int)
    requires g.n > 0
    ensures Cong(g.n, Mul(g, if negate then Neg(g, c) else c, d), c * (Sign(negate) * d))
  {
    if negate {
      NegCong(g, c, c);
      MulCong(g, Neg(g, c), -c, d, d);
      assert (-c) * d == c * (-1 * d);
    } else {
      MulCong(g, c, c, d, d);
    }
  }

  lemma ZeroDifference(g: Group, a: int, b: int, sig: int, half: int, a0: int, b0: int)
    requires g.n > 0 && IsScalar(g, sig) && IsScalar(g, half)
    requires Cong(g.n, a, a0) && Cong(g.n, b, b0) && Cong(g.n, half, a0 + b0)
    ensures Add(g, Add(g, a, Neg(g, sig)), b) == 0 <==> sig == half
  {
    var n := g.n;
    CongMod(n, -sig);
    CongAdd(n, a, a0, Neg(g, sig), -sig);
    CongMod(n, a + Neg(g, sig));
    CongAdd(n, Add(g, a, Neg(g, sig)), a0 - sig, b, b0);
    CongAdd(n, a0 + b0, half, -sig, -sig);
    assert Cong(n, Add(g, a, Neg(g, sig)) + b, half - sig);
    if Add(g, Add(g, a, Neg(g, sig)), b) == 0 {
      CongAdd(n, half - sig, 0, sig, sig);
      CongUnique(n, half, sig);
    }
  }

  /**
   * Completeness across transfers: after any run of transfers the current owner and the server
   * open sessions for the very output key fixed at deposit, with the same negation flag, and
   * their joint signatures verify under it (again exactly when the nonces do not cancel).
   */
  lemma SigningSurvivesTransfers(g: Group, h: Hashes, msg: Message, deposit: KeyShares.Shares, hs: seq<KeyShares.Handover>,
                                 tweak: int, blinding: int, kc: SecNonce, ks: SecNonce)
    requires ValidGroup(g) && KeyShares.ValidShares(g, deposit) && KeyShares.ValidHandovers(g, hs)
    requires Combine(g, deposit.owner, deposit.server).Some?
    requires TweakOutput(g, Combine(g, deposit.owner, deposit.server).value, tweak).Some?
    requires KeyShares.RunTransfers(g, deposit, hs).Some? && IsKey(g, blinding) && IsKey(g, tweak)
    requires var now := KeyShares.RunTransfers(g, deposit, hs).value;
             && ValidSecNonce(g, kc) && kc.pk == now.owner
             && ValidSecNonce(g, ks) && ks.pk == now.server
    ensures var now := KeyShares.RunTransfers(g, deposit, hs).value;
            var out := TweakOutput(g, Combine(g, deposit.owner, deposit.server).value, tweak).value;
            var client, server := Signer(now.owner, kc), Signer(now.server, ks);
            var sig := JointSignature(g, h, msg, client, server, tweak, blinding);
            && SessionFor(g, h, msg, client, server, tweak, blinding).Some?
            && SessionFor(g, h, msg, client, server, tweak, blinding).value.0 == out
            && sig.Some?
            && (SchnorrVerify(g, h, sig.value, msg, EvenY(g, out.pubkey))
                <==> BlindedNonce(g, h, msg, out.pubkey, PublicNonce(kc), PublicNonce(ks), blinding) != 0)
  {
    KeyShares.JointKeyConserved(g, deposit, hs);
    var now := KeyShares.RunTransfers(g, deposit, hs).value;
    assert Combine(g, now.owner, now.server) == Combine(g, deposit.owner, deposit.server);
    SigningComplete(g, h, msg, Signer(now.owner, kc), Signer(now.server, ks), tweak, blinding);
  }
}
