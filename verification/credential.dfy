/**
 The credential computed by `add_user`: a fresh 16-byte salt is drawn,
 SHA-256 is applied to `salt + password.encode()`, and only the 32-byte
 digest is kept. SHA-256 and the random source are outside the model: the
 hash is a parameter returning 32 bytes, the salt an arbitrary 16 bytes.
 */
module Credential {
  import opened Utf8

  const SaltLength: nat := 16
  const DigestLength: nat := 32

  /** What `secrets.token_bytes(16)` returns. */
  type Salt = s: seq<byte> | |s| == SaltLength witness seq(SaltLength, _ => 0)

  /** What `hashlib.sha256(...).digest()` returns. */
  type Digest = d: seq<byte> | |d| == DigestLength witness seq(DigestLength, _ => 0)

  /** The bytes handed to the hash: the salt, then the encoded password. */
  function HashInput(salt: Salt, password: string): seq<byte> {
    salt + Encode(password)
  }

  /** The value written to the `password` column. */
  function StoredDigest(sha256: seq<byte> -> Digest, salt: Salt, password: string): Digest {
    sha256(HashInput(salt, password))
  }

  /** Salt and password can both be read back from the hash input, so neither is lost before hashing. */
  lemma HashInputInjective(salt1: Salt, password1: string, salt2: Salt, password2: string)
    requires HashInput(salt1, password1) == HashInput(salt2, password2)
    ensures salt1 == salt2 && password1 == password2
  {
    var h := HashInput(salt1, password1);
    assert salt1 == h[..SaltLength] == salt2;
    assert Encode(password1) == h[SaltLength..] == Encode(password2);
    EncodeInjective(password1, password2);
  }

  /**
   Whatever the hash does, the stored value is not the password's own
   bytes unless the password happens to encode to exactly 32 bytes.
   */
  lemma DigestIsNotPlaintext(sha256: seq<byte> -> Digest, salt: Salt, password: string)
    requires |Encode(password)| != DigestLength
    ensures StoredDigest(sha256, salt, password) != Encode(password)
  {
  }

  /** The example password "hunter2" is never stored as itself. */
  lemma Hunter2NotStored(sha256: seq<byte> -> Digest, salt: Salt)
    ensures StoredDigest(sha256, salt, "hunter2") != Encode("hunter2")
  {
  }
}
