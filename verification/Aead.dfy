/**
 The authenticated cipher (AEAD_CHACHA20_POLY1305, section 2.8 of RFC 8439) and
 the key derivation (RFC 5869), known only by the laws the tunnel relies on.
 Every theorem holds for all ciphers that obey the laws; WitnessIsLawful shows
 that the laws can be met together.
 */
module Aead {
  import opened Bytes

  const KEY_LEN: nat := 32
  const NONCE_LEN: nat := 12
  const TAG_LEN: nat := 16
  const MAX_PLAINTEXT: nat := 0xFFFF - TAG_LEN
  const RELAY_BUF: nat := 16384

  // "vs-vpn-tunnel-v1"
  const HKDF_INFO: seq<byte> := [118, 115, 45, 118, 112, 110, 45, 116, 117, 110, 110, 101, 108, 45, 118, 49]

  type Key = seq<byte>

  datatype Cipher = Cipher(
    encrypt: (Key, seq<byte>, seq<byte>) -> seq<byte>,
    decrypt: (Key, seq<byte>, seq<byte>) -> Option<seq<byte>>)
  {
    /** A ciphertext is the plaintext's length plus the tag and opens under its own key and nonce. */
    ghost predicate Correct() {
      forall k, n, p :: |encrypt(k, n, p)| == |p| + TAG_LEN && decrypt(k, n, encrypt(k, n, p)) == Some(p)
    }

    /** Within one session a ciphertext made under another nonce or the other key does not open. */
    ghost predicate Separates(clientKey: Key, serverKey: Key) {
      forall k, n, k', n', p ::
        k in [clientKey, serverKey] && k' in [clientKey, serverKey] && |n| == |n'| == NONCE_LEN && (k, n) != (k', n')
        ==> decrypt(k, n, encrypt(k', n', p)) == None
    }
  }

  /** `full_nonce`: the counter in eight little-endian bytes, then four zero bytes. */
  function NonceBytes(counter: nat): (s: seq<byte>)
    ensures |s| == NONCE_LEN
  {
    LittleEndian(Wrap64(counter), 8) + [0, 0, 0, 0]
  }

  /** Two counters share a nonce exactly when they agree as u64 values. */
  lemma NonceInjective(a: nat, b: nat)
    ensures NonceBytes(a) == NonceBytes(b) <==> Wrap64(a) == Wrap64(b)
  {
    Pow256Of8();
    var x, y := Wrap64(a), Wrap64(b);
    LittleEndianRoundTrip(x, 8);
    LittleEndianRoundTrip(y, 8);
    if NonceBytes(a) == NonceBytes(b) {
      assert LittleEndian(x, 8) == NonceBytes(a)[..8];
      assert LittleEndian(y, 8) == NonceBytes(b)[..8];
    }
  }

  /** Four bytes of rising weight. */
  function Weigh4(a: byte, b: byte, c: byte, d: byte): nat {
    a as int + 0x100 * b as int + 0x1_0000 * c as int + 0x100_0000 * d as int
  }

  /** The layout of a nonce: eight bytes of rising weight that add up to the counter, then zeros. */
  lemma NonceLayout(counter: nat)
    ensures var n := NonceBytes(counter);
      && n[8..] == [0, 0, 0, 0]
      && Wrap64(counter) == Weigh4(n[0], n[1], n[2], n[3]) + 0x1_0000_0000 * Weigh4(n[4], n[5], n[6], n[7])
  {
    hide Wrap64, Weigh4, LittleEndian, FromLittleEndian;
    Pow256Of8();
    LittleEndianRoundTrip(Wrap64(counter), 8);
    EightBytes(LittleEndian(Wrap64(counter), 8));
  }

  lemma EightBytes(b: seq<byte>)
    requires |b| == 8
    ensures FromLittleEndian(b) == Weigh4(b[0], b[1], b[2], b[3]) + 0x1_0000_0000 * Weigh4(b[4], b[5], b[6], b[7])
  {
    hide Weigh4, FromLittleEndian;
    FourBytes(b);
    FourBytes(b[4..]);
    assert b[4..][4..] == [];
    NoBytes();
  }

  lemma NoBytes()
    ensures FromLittleEndian([]) == 0
  {
  }

  lemma FourBytes(b: seq<byte>)
    requires |b| >= 4
    ensures FromLittleEndian(b) == Weigh4(b[0], b[1], b[2], b[3]) + 0x1_0000_0000 * FromLittleEndian(b[4..])
  {
    assert FromLittleEndian(b) == b[0] as int + 256 * FromLittleEndian(b[1..]);
    assert b[1..][1..] == b[2..];
    assert FromLittleEndian(b[1..]) == b[1] as int + 256 * FromLittleEndian(b[2..]);
    assert b[2..][1..] == b[3..];
    assert FromLittleEndian(b[2..]) == b[2] as int + 256 * FromLittleEndian(b[3..]);
    assert b[3..][1..] == b[4..];
    assert FromLittleEndian(b[3..]) == b[3] as int + 256 * FromLittleEndian(b[4..]);
  }

  lemma NonceWraps(counter: nat)
    ensures NonceBytes(Wrap64(counter)) == NonceBytes(counter)
  {
    hide Wrap64, LittleEndian;
    Wrap64Add(counter, 0);
  }

  /** The two 32-byte halves of the 64 bytes HKDF yields. */
  datatype SessionKeys = SessionKeys(client: Key, server: Key)

  /** HKDF-Expand to 64 bytes, as a function of the pre-shared key and the info string. */
  type Kdf = (Key, seq<byte>) -> seq<byte>

  ghost predicate KdfYields64(kdf: Kdf) {
    forall k, info :: |kdf(k, info)| == 2 * KEY_LEN
  }

  function HkdfInfo(clientNonce: seq<byte>, serverNonce: seq<byte>): seq<byte> {
    HKDF_INFO + clientNonce + serverNonce
  }

  function DeriveSessionKeys(kdf: Kdf, psk: Key, clientNonce: seq<byte>, serverNonce: seq<byte>): SessionKeys
    requires KdfYields64(kdf)
  {
    var okm := kdf(psk, HkdfInfo(clientNonce, serverNonce));
    SessionKeys(okm[..KEY_LEN], okm[KEY_LEN..])
  }

  /** The client key is the first half of what HKDF yields and the server key the second. */
  lemma KeysAreHalves(kdf: Kdf, psk: Key, clientNonce: seq<byte>, serverNonce: seq<byte>)
    requires KdfYields64(kdf)
    ensures var keys := DeriveSessionKeys(kdf, psk, clientNonce, serverNonce);
      var okm := kdf(psk, HKDF_INFO + clientNonce + serverNonce);
      && keys.client + keys.server == okm && |keys.client| == |keys.server| == KEY_LEN
      && (keys.client == keys.server <==> okm[..KEY_LEN] == okm[KEY_LEN..])
  {
    var okm := kdf(psk, HkdfInfo(clientNonce, serverNonce));
    assert okm[..KEY_LEN] + okm[KEY_LEN..] == okm;
  }

  /** Handshakes with different nonce pairs ask HKDF for different outputs. */
  lemma HkdfInfoInjective(c: seq<byte>, s: seq<byte>, c': seq<byte>, s': seq<byte>)
    requires |c| == |s| == |c'| == |s'| == KEY_LEN
    ensures HkdfInfo(c, s) == HkdfInfo(c', s') <==> c == c' && s == s'
  {
    if HkdfInfo(c, s) == HkdfInfo(c', s') {
      assert HkdfInfo(c, s) == HKDF_INFO + (c + s);
      assert HkdfInfo(c', s') == HKDF_INFO + (c' + s');
      SplitUnique(HKDF_INFO, c + s, HKDF_INFO, c' + s');
      SplitUnique(c, s, c', s');
    }
  }

  // ---------------------------------------------------------------------------
  // A concrete cipher that obeys the laws: plaintext, nonce, direction, padding.
  // ---------------------------------------------------------------------------

  function WitnessTag(clientKey: Key, k: Key, n: seq<byte>): (t: seq<byte>)
    ensures |t| == TAG_LEN
  {
    var direction: byte := if k == clientKey then 0 else 1;
    (if |n| == NONCE_LEN then n else LittleEndian(0, NONCE_LEN)) + [direction, 0, 0, 0]
  }

  function WitnessCipher(clientKey: Key): Cipher {
    Cipher(
      (k: Key, n: seq<byte>, p: seq<byte>) => p + WitnessTag(clientKey, k, n),
      (k: Key, n: seq<byte>, ct: seq<byte>) =>
        if |ct| >= TAG_LEN && ct[|ct| - TAG_LEN..] == WitnessTag(clientKey, k, n)
        then Some(ct[..|ct| - TAG_LEN]) else None)
  }

  /** The laws are consistent: for every pair of different keys some cipher meets all of them. */
  lemma WitnessIsLawful(clientKey: Key, serverKey: Key)
    requires clientKey != serverKey
    ensures WitnessCipher(clientKey).Correct() && WitnessCipher(clientKey).Separates(clientKey, serverKey)
  {
    var c := WitnessCipher(clientKey);
    forall k, n, p
      ensures |c.encrypt(k, n, p)| == |p| + TAG_LEN && c.decrypt(k, n, c.encrypt(k, n, p)) == Some(p)
    {
      assert (p + WitnessTag(clientKey, k, n))[..|p|] == p;
    }
    forall k, n, k', n', p |
      k in [clientKey, serverKey] && k' in [clientKey, serverKey] && |n| == |n'| == NONCE_LEN && (k, n) != (k', n')
      ensures c.decrypt(k, n, c.encrypt(k', n', p)) == None
    {
      var ct := p + WitnessTag(clientKey, k', n');
      assert c.encrypt(k', n', p) == ct;
      assert ct[|ct| - TAG_LEN..] == WitnessTag(clientKey, k', n');
      assert WitnessTag(clientKey, k, n)[..NONCE_LEN] == n;
      assert WitnessTag(clientKey, k', n')[..NONCE_LEN] == n';
      assert WitnessTag(clientKey, k, n)[NONCE_LEN] != WitnessTag(clientKey, k', n')[NONCE_LEN] || k == k';
    }
  }
}
