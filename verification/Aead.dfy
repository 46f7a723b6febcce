/** The encrypted wire format, `[12-byte IV][ciphertext and 16-byte tag]`, over an abstract authenticated cipher. */
module Aead {
  import opened Prelude

  type Bytes = seq<byte>

  const IV_LEN: nat := 12
  const TAG_LEN: nat := 16

  type Key = k: Bytes | |k| == 32 witness seq(32, _ => 0)
  type Iv = b: Bytes | |b| == IV_LEN witness seq(IV_LEN, _ => 0)

  /** Sealing under a key and an IV, and opening, which fails when the tag does not match. */
  datatype Cipher = Cipher(seal: (Key, Iv, Bytes) -> Bytes, open: (Key, Iv, Bytes) -> Option<Bytes>)

  /** Under one key: the tag adds 16 bytes, and opening undoes sealing. */
  ghost predicate Opens(c: Cipher, key: Key) {
    forall iv: Iv, plain: Bytes ::
      |c.seal(key, iv, plain)| == |plain| + TAG_LEN && c.open(key, iv, c.seal(key, iv, plain)) == Some(plain)
  }

  /** What was sealed under `key` does not open under `other`. */
  ghost predicate Rejects(c: Cipher, key: Key, other: Key) {
    forall iv: Iv, plain: Bytes :: c.open(other, iv, c.seal(key, iv, plain)) == None
  }

  /** The two keys of a deployment, idealised. A 16-byte tag cannot promise this for all keys at once. */
  ghost predicate Ideal(c: Cipher, one: Key, two: Key) {
    Opens(c, one) && Opens(c, two) && Rejects(c, one, two) && Rejects(c, two, one)
  }

  function TagOf(key: Key, one: Key): Bytes {
    seq(TAG_LEN, _ => if key == one then 1 else 0)
  }

  /** The idealisation can be met for any two different keys, and for no key twice. */
  lemma IdealIsSatisfiable(one: Key, two: Key)
    ensures (exists c :: Ideal(c, one, two)) <==> one != two
  {
    if one != two {
      var c := Cipher((k: Key, iv: Iv, p: Bytes) => p + TagOf(k, one),
                      (k: Key, iv: Iv, s: Bytes) =>
                        if |s| >= TAG_LEN && s[|s| - TAG_LEN..] == TagOf(k, one) then Some(s[..|s| - TAG_LEN]) else None);
      forall k: Key, other: Key, iv: Iv, p: Bytes
        ensures |c.seal(k, iv, p)| == |p| + TAG_LEN && c.open(k, iv, c.seal(k, iv, p)) == Some(p)
        ensures TagOf(k, one) != TagOf(other, one) ==> c.open(other, iv, c.seal(k, iv, p)) == None
      {
        var s := c.seal(k, iv, p);
        assert s[|s| - TAG_LEN..] == TagOf(k, one) && s[..|s| - TAG_LEN] == p;
      }
      assert TagOf(one, one)[0] != TagOf(two, one)[0];
      assert Ideal(c, one, two);
    } else {
      forall c ensures !Ideal(c, one, two) {
        var iv: Iv := seq(IV_LEN, _ => 0);
        if Opens(c, one) {
          assert c.open(one, iv, c.seal(one, iv, [])) == Some([]);
        }
      }
    }
  }

  // ----- Encryption -------------------------------------------------------------------------------

  /** A nonce source that answers once: a second seal under the same IV is an error. */
  class OneShot {
    const iv: Iv
    var used: bool

    constructor (iv: Iv)
      ensures this.iv == iv && !used
    {
      this.iv := iv;
      used := false;
    }

    method Advance() returns (nonce: Option<Iv>)
      modifies this
      ensures used && nonce == (if old(used) then None else Some(iv))
    {
      if used {
        return None;
      }
      used := true;
      nonce := Some(iv);
    }
  }

  function Wire(c: Cipher, key: Key, iv: Iv, plain: Bytes): Bytes {
    iv + c.seal(key, iv, plain)
  }

  method Encrypt(c: Cipher, key: Key, iv: Iv, plain: Bytes) returns (out: Bytes)
    ensures out == Wire(c, key, iv, plain)
    ensures |out| >= 12 && out[..12] == iv && out[12..] == c.seal(key, iv, plain)
  {
    var sealing := new OneShot(iv);
    var buf := plain;
    var nonce := sealing.Advance();
    buf := c.seal(key, nonce.value, buf);
    out := iv;
    out := out + buf;
  }

  // ----- Decryption -------------------------------------------------------------------------------

  const MIN_LEN: nat := IV_LEN + TAG_LEN

  function Decrypt(c: Cipher, key: Key, wire: Bytes): Option<Bytes> {
    if |wire| < MIN_LEN then None else c.open(key, wire[..IV_LEN], wire[IV_LEN..])
  }

  /** What is shorter than an IV and a tag is refused, the rest is taken apart behind the twelfth byte. */
  lemma DecryptTakesApart(c: Cipher, key: Key, wire: Bytes)
    ensures Decrypt(c, key, wire) == if |wire| >= 28 then c.open(key, wire[..12], wire[12..]) else None
  {
  }

  lemma DecryptOwn(c: Cipher, key: Key, iv: Iv, plain: Bytes)
    requires Opens(c, key)
    ensures |Wire(c, key, iv, plain)| == IV_LEN + |plain| + TAG_LEN
    ensures Decrypt(c, key, Wire(c, key, iv, plain)) == Some(plain)
  {
    var wire := Wire(c, key, iv, plain);
    assert wire[..IV_LEN] == iv && wire[IV_LEN..] == c.seal(key, iv, plain);
  }

  /** The wire form is decrypted by its own key and by no other. */
  lemma DecryptWire(c: Cipher, key: Key, other: Key, iv: Iv, plain: Bytes)
    requires Ideal(c, key, other)
    ensures Decrypt(c, key, Wire(c, key, iv, plain)) == Some(plain)
    ensures Decrypt(c, other, Wire(c, key, iv, plain)) == None
  {
    DecryptOwn(c, key, iv, plain);
    var wire := Wire(c, key, iv, plain);
    assert wire[..IV_LEN] == iv && wire[IV_LEN..] == c.seal(key, iv, plain);
  }
}
