/**
  The finite-field Diffie-Hellman handshake of crypto/crypto.cpp and the
  derivation of the symmetric key from the shared secret. Group arithmetic is
  that of ModArith, the wire and hash-input encoding that of Ubin; the hash
  itself (sha256) is a parameter.
 */
module DiffieHellman {
  import opened Outcomes
  import opened ModArith
  import opened Ubin

  /** fetch_value_of_generator: the generator is fixed to 2, as in RFC 7919. */
  const Generator: nat := 2

  /**
    The ffdhe2048 modulus of RFC 7919, Appendix A.1: the value the deployment
    supplies, as hexadecimal text, in the environment variable p_variable.
   */
  const Ffdhe2048: nat := 0xFFFFFFFF_FFFFFFFF_ADF85458_A2BB4A9A_AFDC5620_273D3CF1_D8B9C583_CE2D3695_A9E13641_146433FB_CC939DCE_249B3EF9_7D2FE363_630C75D8_F681B202_AEC4617A_D3DF1ED5_D5FD6561_2433F51F_5F066ED0_85636555_3DED1AF3_B557135E_7F57C935_984F0C70_E0E68B77_E2A689DA_F3EFE872_1DF158A1_36ADE735_30ACCA4F_483A797A_BC0AB182_B324FB61_D108A94B_B2C8E3FB_B96ADAB7_60D7F468_1D4F42A3_DE394DF4_AE56EDE7_6372BB19_0B07A7C8_EE0A6D70_9E02FCE1_CDF7E2EC_C03404CD_28342F61_9172FE9C_E98583FF_8E4F1232_EEF28183_C3FE3B1B_4C6FAD73_3BB5FCBC_2EC22005_C58EF183_7D1683B2_C6F34A26_C1B2EFFA_886B4238_61285C97_FFFFFFFF_FFFFFFFF

  /** The hash applied to the encoded shared secret (sha256, not part of this model). */
  type Hash = seq<bv8> -> seq<bv8>

  /**
    generate_public_key: g^a mod p for the private key a; the code exits when
    mp_exptmod fails, which it does exactly when p is not positive.
   */
  function GeneratePublicKey(priv: nat, p: nat): (pub: Result<nat>)
    ensures pub.Ok? <==> p > 0
    ensures pub.Ok? ==> pub.value < p
  {
    ExptMod(Generator, priv, p)
  }

  /** The shared secret of calculate_symmetric_key: y^b mod p for the peer's value y. */
  function SharedSecret(peerPub: nat, priv: nat, p: nat): (s: Result<nat>)
    ensures s.Ok? <==> p > 0
    ensures s.Ok? ==> s.value < p
  {
    ExptMod(peerPub, priv, p)
  }

  /**
    calculate_symmetric_key: hashes the minimal big-endian encoding of the
    shared secret, produced by mp_to_buffer into a 256-byte buffer; the code
    exits when the exponentiation fails or the secret needs more than 256 bytes.
   */
  function CalculateSymmetricKey(hash: Hash, peerPub: nat, priv: nat, p: nat): (key: Result<seq<bv8>>)
    ensures key.Ok? <==> p > 0 && UbinSize(Pow(peerPub, priv) % p) <= MaxLen
    ensures key.Ok? ==> key.value == hash(ToUbin(Pow(peerPub, priv) % p))
  {
    match SharedSecret(peerPub, priv, p)
    case Err(e) => Err(e)
    case Ok(secret) =>
      match ToBuffer(secret)
      case Err(e) => Err(e)
      case Ok(bytes) => Ok(hash(bytes))
  }

  // ---------------------------------------------------------------------------
  // Properties of the exchange
  // ---------------------------------------------------------------------------

  /** Both peers reach the same shared secret, g^(ab) mod p. */
  lemma {:induction false} SharedSecretAgreement(a: nat, b: nat, p: nat)
    requires p > 0
    ensures SharedSecret(GeneratePublicKey(b, p).value, a, p) == Ok(Pow(Generator, a * b) % p)
    ensures SharedSecret(GeneratePublicKey(a, p).value, b, p) == Ok(Pow(Generator, a * b) % p)
  {
    PowModCommute(Generator, a, b, p);
  }

  /**
    What one side sends in the handshake: its public key g^priv mod p,
    written by mp_to_buffer in minimal big-endian form.
   */
  function PublicKeyMessage(priv: nat, p: nat): (msg: Result<seq<bv8>>)
    ensures msg.Ok? <==> p > 0 && UbinSize(Pow(Generator, priv) % p) <= MaxLen
    ensures msg.Ok? ==> |msg.value| <= MaxLen && UbinValue(msg.value) == Pow(Generator, priv) % p
  {
    match GeneratePublicKey(priv, p)
    case Err(e) => Err(e)
    case Ok(pub) => ToBuffer(pub)
  }

  /** What the receiving side derives: buffer_to_mp of the bytes, then calculate_symmetric_key. */
  function KeyFromMessage(hash: Hash, msg: seq<bv8>, priv: nat, p: nat): (key: Result<seq<bv8>>)
    ensures key.Ok? <==> p > 0 && UbinSize(Pow(UbinValue(msg), priv) % p) <= MaxLen
    ensures key.Ok? ==> key.value == hash(ToUbin(Pow(UbinValue(msg), priv) % p))
  {
    assert msg[..|msg|] == msg;
    CalculateSymmetricKey(hash, BufferToMp(msg, |msg|), priv, p)
  }

  /**
    The whole handshake for a modulus whose values fit the 256-byte buffers:
    each side sends its encoded public key, the other decodes it, and both
    derive the same symmetric key, the hash of the minimal encoding of
    g^(ab) mod p.
   */
  lemma {:induction false} HandshakeAgreement(hash: Hash, a: nat, b: nat, p: nat)
    requires 0 < p && UbinSize(p) <= MaxLen
    ensures PublicKeyMessage(a, p).Ok? && PublicKeyMessage(b, p).Ok?
    ensures KeyFromMessage(hash, PublicKeyMessage(b, p).value, a, p)
         == KeyFromMessage(hash, PublicKeyMessage(a, p).value, b, p)
         == Ok(hash(ToUbin(Pow(Generator, a * b) % p)))
  {
    ReceivedKey(hash, a, b, p);
    ReceivedKey(hash, b, a, p);
    PowModCommute(Generator, a, b, p);
  }

  /**
    One direction of the handshake: the key a side derives from the message
    of a peer with private key peerPriv is the hash of (g^peerPriv mod p)^priv
    mod p.
   */
  lemma {:induction false} ReceivedKey(hash: Hash, priv: nat, peerPriv: nat, p: nat)
    requires 0 < p && UbinSize(p) <= MaxLen
    ensures PublicKeyMessage(peerPriv, p).Ok?
    ensures KeyFromMessage(hash, PublicKeyMessage(peerPriv, p).value, priv, p)
         == Ok(hash(ToUbin(Pow(Pow(Generator, peerPriv) % p, priv) % p)))
  {
    var pub := Pow(Generator, peerPriv) % p;
    ResidueFits(pub, p);
    var msg := PublicKeyMessage(peerPriv, p).value;
    assert msg[..|msg|] == msg;
    ResidueFits(Pow(pub, priv) % p, p);
  }

  /** A value below a modulus that fits the 256-byte buffer fits it too. */
  lemma {:induction false} ResidueFits(v: nat, p: nat)
    requires v < p && UbinSize(p) <= MaxLen
    ensures UbinSize(v) <= MaxLen
  {
    UbinSizeMonotone(v, p);
  }

  /** The ffdhe2048 modulus is a 2048-bit number, so it fits the 256-byte buffers. */
  lemma {:induction false} Ffdhe2048Fits()
    ensures 1 < Ffdhe2048 < Pow(256, MaxLen)
  {
    // 256^256 by repeated squaring: 256^1, 256^2, 256^4, ..., 256^256
    var e, x := 1, 256;
    assert Pow(256, e) == x;
    PowAdd(256, e, e);
    e, x := e + e, x * x;
    PowAdd(256, e, e);
    e, x := e + e, x * x;
    PowAdd(256, e, e);
    e, x := e + e, x * x;
    PowAdd(256, e, e);
    e, x := e + e, x * x;
    PowAdd(256, e, e);
    e, x := e + e, x * x;
    PowAdd(256, e, e);
    e, x := e + e, x * x;
    PowAdd(256, e, e);
    e, x := e + e, x * x;
    PowAdd(256, e, e);
    e, x := e + e, x * x;
    assert e == MaxLen && Pow(256, e) == x;
  }

  /**
    With the ffdhe2048 modulus neither exit of the handshake is reachable:
    the public key always fits the 256-byte buffer, and so does the shared
    secret computed from any peer value, even one that was never validated.
   */
  lemma {:induction false} Ffdhe2048NeverOverflows(hash: Hash, priv: nat, peerPub: nat)
    ensures PublicKeyMessage(priv, Ffdhe2048).Ok?
    ensures CalculateSymmetricKey(hash, peerPub, priv, Ffdhe2048).Ok?
  {
    Ffdhe2048Fits();
    UbinSizeFits(Ffdhe2048, MaxLen);
    ResidueFits(Pow(Generator, priv) % Ffdhe2048, Ffdhe2048);
    ResidueFits(Pow(peerPub, priv) % Ffdhe2048, Ffdhe2048);
  }
}
