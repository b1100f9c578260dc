/**
 The RLPx key schedule (`p2p/rlpx.go`, `encHandshake`): both ends turn one ephemeral key agreement,
 two nonces and the two handshake packets into the same keys and mirrored MAC states. Sealing the
 packets (ECIES, EIP-8) is not part of this model; the elliptic-curve operations are parameters.
 */
module Handshake {
  import opened Bytes
  import opened Collections
  import opened Rlp
  import opened Rlpx

  type Key = seq<byte>

  datatype Curve = Curve(
    pub: Key -> Key,
    shared: (Key, Key) -> Option<Digest>,
    sign: (seq<byte>, Key) -> seq<byte>,
    recover: (seq<byte>, seq<byte>) -> Option<Key>)

  ghost predicate LawfulCurve(e: Curve) {
    && (forall a, b :: e.shared(a, e.pub(b)) == e.shared(b, e.pub(a)))
    && (forall m, k :: e.recover(m, e.sign(m, k)) == Some(e.pub(k)))
  }

  datatype AuthMsg = AuthMsg(signature: seq<byte>, initiatorPubkey: Key, nonce: Digest)
  datatype AuthResp = AuthResp(randomPubkey: Key, nonce: Digest)
  datatype Secrets = Secrets(remoteID: Key, keys: Keys, egressMac: seq<byte>, ingressMac: seq<byte>)

  /** The message with which the holder of `prv` opens a connection to `remoteID`, under an ephemeral key and a nonce. */
  function Opening(e: Curve, prv: Key, remoteID: Key, ephemeral: Key, nonce: Digest): Option<AuthMsg> {
    var token := e.shared(prv, remoteID);
    if token.None? then None
    else Some(AuthMsg(e.sign(Xor(token.value, nonce), ephemeral), e.pub(prv), nonce))
  }

  /** The ephemeral public key that the holder of `prv` finds in such a message. */
  function Recovered(e: Curve, prv: Key, msg: AuthMsg): Option<Key> {
    var token := e.shared(prv, msg.initiatorPubkey);
    if token.None? then None else e.recover(Xor(token.value, msg.nonce), msg.signature)
  }

  /** Whoever the opening is addressed to finds in it the ephemeral key it was signed with. */
  lemma RecoveredFromOpening(e: Curve, dialer: Key, listener: Key, ephemeral: Key, nonce: Digest)
    requires LawfulCurve(e)
    ensures var opening := Opening(e, dialer, e.pub(listener), ephemeral, nonce);
            && (opening.Some? <==> e.shared(listener, e.pub(dialer)).Some?)
            && (opening.Some? ==> opening.value.initiatorPubkey == e.pub(dialer)
                                  && Recovered(e, listener, opening.value) == Some(e.pub(ephemeral)))
  {
  }

  /** A signature speaks for its signer under the message signed, and under no other. */
  ghost predicate Unforgeable(e: Curve) {
    forall m, m', k :: e.recover(m', e.sign(m, k)) == Some(e.pub(k)) ==> m' == m
  }

  /**
   What is signed is the secret that the two static keys share, masked with the nonce. So under another
   nonce, or in the name of an identity with which the listener shares another secret, the opening does not
   give away its ephemeral key.
   */
  lemma OpeningBinds(e: Curve, dialer: Key, listener: Key, ephemeral: Key, nonce: Digest, claimed: Key, nonce': Digest)
    requires LawfulCurve(e) && Unforgeable(e) && Opening(e, dialer, e.pub(listener), ephemeral, nonce).Some?
    requires if claimed == e.pub(dialer) then nonce' != nonce
             else nonce' == nonce && e.shared(listener, claimed) != e.shared(listener, e.pub(dialer))
    ensures var opening := Opening(e, dialer, e.pub(listener), ephemeral, nonce).value;
            Recovered(e, listener, AuthMsg(opening.signature, claimed, nonce')) != Some(e.pub(ephemeral))
  {
    hide Xor;
    var token, token' := e.shared(listener, e.pub(dialer)), e.shared(listener, claimed);
    assert nonce[..32] == nonce && nonce'[..32] == nonce';
    if token'.Some? && Xor(token.value, nonce) == Xor(token'.value, nonce') {
      if claimed == e.pub(dialer) {
        XorInjective(token.value, nonce, nonce');
      } else {
        XorBinds(token.value, token'.value, nonce);
      }
    }
  }

  /** What both ends have agreed on, and the two packets as they were on the wire. */
  datatype Agreement = Agreement(ecdhe: Digest, initNonce: Digest, respNonce: Digest, auth: seq<byte>, authResp: seq<byte>)

  /** The keys of the connection, and the MAC states of what the initiator and of what the listener sends. */
  function Derive(c: Suite, a: Agreement): (Keys, seq<byte>, seq<byte>) {
    var sharedSecret := c.keccak(a.ecdhe + c.keccak(a.respNonce + a.initNonce));
    var aesSecret := c.keccak(a.ecdhe + sharedSecret);
    var macSecret := c.keccak(a.ecdhe + aesSecret);
    (Keys(aesSecret, macSecret), Xor(macSecret, a.respNonce) + a.auth, Xor(macSecret, a.initNonce) + a.authResp)
  }

  /** Two inputs that the hash does not tell apart. */
  ghost predicate Clash(c: Suite, x: seq<byte>, y: seq<byte>) {
    x != y && c.keccak(x) == c.keccak(y)
  }

  /** The hash of two digests in a row tells both of them, or it clashes. */
  lemma PairBinds(c: Suite, a: Digest, b: Digest, a': Digest, b': Digest)
    requires c.keccak(a + b) == c.keccak(a' + b')
    ensures (a == a' && b == b') || Clash(c, a + b, a' + b')
  {
    if a + b == a' + b' {
      assert a == (a + b)[..32] == (a' + b')[..32] == a' && b == (a + b)[32..] == (a' + b')[32..] == b';
    }
  }

  /** Either key tells the ephemeral secret and both nonces: if one is the same for two agreements, these are, or the hash clashes. */
  lemma KeysBind(c: Suite, a: Agreement, b: Agreement) returns (x: seq<byte>, y: seq<byte>)
    requires Derive(c, a).0.aes == Derive(c, b).0.aes || Derive(c, a).0.mac == Derive(c, b).0.mac
    ensures (a.ecdhe == b.ecdhe && a.initNonce == b.initNonce && a.respNonce == b.respNonce) || Clash(c, x, y)
  {
    hide Clash;
    var nonces, nonces' := c.keccak(a.respNonce + a.initNonce), c.keccak(b.respNonce + b.initNonce);
    var shared, shared' := c.keccak(a.ecdhe + nonces), c.keccak(b.ecdhe + nonces');
    var aes, aes' := c.keccak(a.ecdhe + shared), c.keccak(b.ecdhe + shared');
    x, y := a.ecdhe + aes, b.ecdhe + aes';
    if c.keccak(x) == c.keccak(y) {
      PairBinds(c, a.ecdhe, aes, b.ecdhe, aes');
    }
    if aes == aes' {
      PairBinds(c, a.ecdhe, shared, b.ecdhe, shared');
      if Clash(c, a.ecdhe + shared, b.ecdhe + shared') {
        x, y := a.ecdhe + shared, b.ecdhe + shared';
      } else {
        PairBinds(c, a.ecdhe, nonces, b.ecdhe, nonces');
        if Clash(c, a.ecdhe + nonces, b.ecdhe + nonces') {
          x, y := a.ecdhe + nonces, b.ecdhe + nonces';
        } else {
          PairBinds(c, a.respNonce, a.initNonce, b.respNonce, b.initNonce);
          x, y := a.respNonce + a.initNonce, b.respNonce + b.initNonce;
        }
      }
    }
  }

  /** Under one key the MAC state of either direction tells the nonce of the other end and the packet sent: they are the same exactly if these are. */
  lemma MacStatesBind(c: Suite, a: Agreement, b: Agreement)
    requires Derive(c, a).0.mac == Derive(c, b).0.mac
    ensures Derive(c, a).1 == Derive(c, b).1 <==> a.respNonce == b.respNonce && a.auth == b.auth
    ensures Derive(c, a).2 == Derive(c, b).2 <==> a.initNonce == b.initNonce && a.authResp == b.authResp
  {
    MaskBinds(Derive(c, a).0.mac, a.respNonce, a.auth, b.respNonce, b.auth);
    MaskBinds(Derive(c, a).0.mac, a.initNonce, a.authResp, b.initNonce, b.authResp);
  }

  lemma MaskBinds(mac: seq<byte>, nonce: Digest, packet: seq<byte>, nonce': Digest, packet': seq<byte>)
    requires |mac| == 32
    ensures Xor(mac, nonce) + packet == Xor(mac, nonce') + packet' <==> nonce == nonce' && packet == packet'
  {
    hide Xor;
    var x, y := Xor(mac, nonce) + packet, Xor(mac, nonce') + packet';
    if x == y {
      assert Xor(mac, nonce) == x[..32] == y[..32] == Xor(mac, nonce') && packet == x[32..] == y[32..] == packet';
      XorInjective(mac, nonce, nonce');
      assert nonce[..32] == nonce && nonce'[..32] == nonce';
    }
  }

  /** Two connections have the same keys and MAC states exactly if everything agreed on and both packets are the same, or the hash clashes. */
  lemma SecretsBind(c: Suite, a: Agreement, b: Agreement) returns (x: seq<byte>, y: seq<byte>)
    ensures (Derive(c, a) == Derive(c, b) <==> a == b) || Clash(c, x, y)
  {
    x, y := [], [];
    if Derive(c, a) == Derive(c, b) {
      x, y := KeysBind(c, a, b);
      MacStatesBind(c, a, b);
    }
  }

  class EncHandshake {
    const c: Suite
    const e: Curve
    const initiator: bool
    var remoteID: Key
    var initNonce: Digest
    var respNonce: Digest
    var randomPrivKey: Key
    var remoteRandomPub: Key

    /** The ends start knowing: the dialer whom it dials, the listener nothing. The ephemeral key is fresh. */
    constructor (c: Suite, e: Curve, initiator: bool, remoteID: Key, randomPrivKey: Key)
      ensures this.c == c && this.e == e && this.initiator == initiator
      ensures this.remoteID == remoteID && this.randomPrivKey == randomPrivKey
    {
      this.c, this.e, this.initiator, this.remoteID, this.randomPrivKey := c, e, initiator, remoteID, randomPrivKey;
      initNonce, respNonce, remoteRandomPub := seq(32, i => 0), seq(32, i => 0), [];
    }

    /** Whoever holds the key it is addressed to recovers from it who sent it, and the ephemeral key. */
    method MakeAuthMsg(prv: Key, nonce: Digest) returns (r: Option<AuthMsg>)
      modifies this`initNonce
      ensures initNonce == nonce && r == Opening(e, prv, remoteID, randomPrivKey, nonce)
      ensures LawfulCurve(e) && r.Some? ==>
                forall listener :: e.pub(listener) == remoteID ==>
                  r.value.initiatorPubkey == e.pub(prv) && Recovered(e, listener, r.value) == Some(e.pub(randomPrivKey))
    {
      initNonce := nonce;
      var token := e.shared(prv, remoteID);
      if token.None? {
        return None;
      }
      r := Some(AuthMsg(e.sign(Xor(token.value, nonce), randomPrivKey), e.pub(prv), nonce));
    }

    /** Learns the remote identity and, from the signature, the remote ephemeral key: those of whoever made the message for us. */
    method HandleAuthMsg(msg: AuthMsg, prv: Key) returns (ok: bool)
      modifies this`initNonce, this`remoteID, this`remoteRandomPub
      ensures initNonce == msg.nonce && remoteID == msg.initiatorPubkey
      ensures ok <==> Recovered(e, prv, msg).Some?
      ensures ok ==> Recovered(e, prv, msg) == Some(remoteRandomPub)
      ensures LawfulCurve(e) ==>
                forall dialer, ephemeral :: Opening(e, dialer, e.pub(prv), ephemeral, msg.nonce) == Some(msg) ==>
                  ok && remoteID == e.pub(dialer) && remoteRandomPub == e.pub(ephemeral)
    {
      initNonce, remoteID := msg.nonce, msg.initiatorPubkey;
      var token := e.shared(prv, remoteID);
      if token.None? {
        return false;
      }
      var pub := e.recover(Xor(token.value, initNonce), msg.signature);
      if pub.None? {
        return false;
      }
      remoteRandomPub := pub.value;
      ok := true;
    }

    method MakeAuthResp(nonce: Digest) returns (r: AuthResp)
      modifies this`respNonce
      ensures respNonce == nonce && r == AuthResp(e.pub(randomPrivKey), nonce)
    {
      respNonce := nonce;
      r := AuthResp(e.pub(randomPrivKey), nonce);
    }

    method HandleAuthResp(msg: AuthResp)
      modifies this`respNonce, this`remoteRandomPub
      ensures respNonce == msg.nonce && remoteRandomPub == msg.randomPubkey
    {
      respNonce, remoteRandomPub := msg.nonce, msg.randomPubkey;
    }

    /** The connection secrets, from the handshake values and the two packets as they were on the wire. */
    function Extract(auth: seq<byte>, authResp: seq<byte>): (r: Option<Secrets>)
      reads this
    {
      match e.shared(randomPrivKey, remoteRandomPub)
      case None => None
      case Some(ecdhe) =>
        var (keys, mac1, mac2) := Derive(c, Agreement(ecdhe, initNonce, respNonce, auth, authResp));
        Some(if initiator then Secrets(remoteID, keys, mac1, mac2) else Secrets(remoteID, keys, mac2, mac1))
    }
  }

  /** Each end's transmitting state is the other's receiving state, under the same keys. */
  ghost predicate Mirrored(a: FrameRW, b: FrameRW)
    reads a, b
  {
    && a.c == b.c && a.keys == b.keys && a.snappy == b.snappy
    && a.Tx() == b.Rx() && b.Tx() == a.Rx()
  }

  /**
   The whole exchange between a dialer that knows the listener's key and that listener: if the
   ephemeral keys agree on a secret, both ends get secrets, each knows who the other is, and the
   frame codecs built from them mirror each other, with the keys and states derived from all of it.
   */
  method Exchange(c: Suite, e: Curve, dialer: Key, listener: Key, dialerRandom: Key, listenerRandom: Key,
                  initNonce: Digest, respNonce: Digest, auth: seq<byte>, authResp: seq<byte>)
      returns (ends: Option<(FrameRW, FrameRW)>, dialed: Key, caller: Key)
    requires LawfulCurve(e)
    ensures ends.Some? <==> e.shared(dialer, e.pub(listener)).Some? && e.shared(dialerRandom, e.pub(listenerRandom)).Some?
    ensures ends.Some? ==> fresh(ends.value.0) && fresh(ends.value.1) && ends.value.0 != ends.value.1
    ensures ends.Some? ==> Mirrored(ends.value.0, ends.value.1) && ends.value.0.c == c
    ensures ends.Some? ==>
              var secret := e.shared(dialerRandom, e.pub(listenerRandom)).value;
              var (keys, dialing, listening) := Derive(c, Agreement(secret, initNonce, respNonce, auth, authResp));
              ends.value.0.keys == keys && ends.value.0.Tx() == Half(0, dialing) && ends.value.0.Rx() == Half(0, listening)
    ensures ends.Some? ==> dialed == e.pub(listener) && caller == e.pub(dialer)
    ensures ends.Some? ==> var (a, b) := ends.value; !a.snappy && !b.snappy && a.sent == b.sent == a.incoming == b.incoming == []
  {
    var i := new EncHandshake(c, e, true, e.pub(listener), dialerRandom);
    var r := new EncHandshake(c, e, false, [], listenerRandom);
    var authMsg := i.MakeAuthMsg(dialer, initNonce);
    RecoveredFromOpening(e, dialer, listener, dialerRandom, initNonce);
    if authMsg.None? {
      return None, [], [];
    }
    var _ := r.HandleAuthMsg(authMsg.value, listener);
    var resp := r.MakeAuthResp(respNonce);
    i.HandleAuthResp(resp);
    var si, sr := i.Extract(auth, authResp), r.Extract(auth, authResp);
    if si.None? || sr.None? {
      return None, [], [];
    }
    dialed, caller := si.value.remoteID, sr.value.remoteID;
    var a := new FrameRW(c, si.value.keys, si.value.egressMac, si.value.ingressMac);
    var b := new FrameRW(c, sr.value.keys, sr.value.egressMac, sr.value.ingressMac);
    ends := Some((a, b));
  }
}
