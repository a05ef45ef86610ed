/**
 * The credential scheme of PasswordService: a stored credential is
 * base64(salt) ';' base64(hash), where hash is the key derived from the password and salt.
 */
module Passwords {
  import opened Wrappers
  import opened Base64
  import Strings

  /** Salt length and derived-key length, in bytes. */
  const KeySize: nat := 64

  /** The character between the two encoded fields of a credential. */
  const Separator: char := ';'

  /** A salt or a derived key: exactly KeySize bytes. */
  type Key = s: seq<byte> | |s| == KeySize witness seq(64, _ => 0)

  /** PBKDF2 (section 5.2 of RFC 8018) with HMAC-SHA-512, 100,000 rounds and a KeySize-byte
    * output, applied to the UTF-8 bytes of the password. It is kept abstract: any
    * deterministic function from password and salt to KeySize bytes. */
  type DeriveKey = (string, seq<byte>) -> Key

  /** The exceptions Verify lets escape on a malformed credential. */
  datatype VerifyError =
    | FormatException          // a field is not valid Base64
    | IndexOutOfRangeException // there is no second field

  /** The key derived from password and salt; the salt may have any length. */
  function HashWithSalt(derive: DeriveKey, password: string, salt: seq<byte>): (hash: seq<byte>)
    ensures |hash| == KeySize
  {
    derive(password, salt)
  }

  /** The stored credential for password, with the random salt passed in. */
  function Encrypt(derive: DeriveKey, password: string, salt: Key): (encrypted: string)
    ensures |encrypted| == 2 * 88 + 1 && encrypted[88] == Separator
  {
    var hash := HashWithSalt(derive, password, salt);
    EncodedKeyShape(salt);
    EncodedKeyShape(hash);
    Encode(salt) + [Separator] + Encode(hash)
  }

  /** Enumerable.SequenceEqual on two byte arrays. */
  function SequenceEqual(a: seq<byte>, b: seq<byte>): (r: bool)
    ensures r <==> |a| == |b| && forall i :: 0 <= i < |a| ==> a[i] == b[i]
    ensures r <==> a == b
    decreases |a|
  {
    if |a| != |b| then false
    else if a == [] then true
    else a[0] == b[0] && SequenceEqual(a[1..], b[1..])
  }

  /** Splits the credential on ';', decodes the first field (the salt) and then the second
    * (the stored hash), and compares the stored hash with the one derived from password. */
  function Verify(derive: DeriveKey, password: string, encrypted: string): (r: Result<bool, VerifyError>)
    ensures Separator !in encrypted ==> r.Failure?
  {
    Strings.SplitCount(encrypted, Separator);
    var tokens := Strings.Split(encrypted, Separator);
    match Decode(tokens[0])
    case None => Failure(FormatException)
    case Some(salt) =>
      if |tokens| < 2 then Failure(IndexOutOfRangeException)
      else
        match Decode(tokens[1])
        case None => Failure(FormatException)
        case Some(hash) => Success(SequenceEqual(hash, HashWithSalt(derive, password, salt)))
  }

  // Properties

  /** A KeySize-byte field is 88 characters: 86 digits and then "==". */
  lemma EncodedKeyShape(k: seq<byte>)
    requires |k| == KeySize
    ensures |Encode(k)| == 88
    ensures forall i :: 0 <= i < 86 ==> IsDigit(Encode(k)[i])
    ensures Encode(k)[86..] == "=="
  {
    EncodeDigitsThenPad(k);
    assert PadCount(|k|) == 2;
  }

  /** Neither encoded field contains the separator. */
  lemma EncodedNoSeparator(b: seq<byte>)
    ensures Separator !in Encode(b)
  {
    EncodeAlphabet(b);
    NotDigits();
  }

  /** A credential has a fixed length and splits into exactly its two encoded fields. */
  lemma EncryptFormat(derive: DeriveKey, password: string, salt: Key)
    ensures Strings.Split(Encrypt(derive, password, salt), Separator)
            == [Encode(salt), Encode(HashWithSalt(derive, password, salt))]
  {
    var hash := HashWithSalt(derive, password, salt);
    EncodedKeyShape(salt);
    EncodedKeyShape(hash);
    EncodedNoSeparator(salt);
    EncodedNoSeparator(hash);
    Strings.SplitTwo(Encode(salt), Encode(hash), Separator);
  }

  /** Verify reads the first two ';'-separated fields and ignores any further ones. */
  lemma VerifyFields(derive: DeriveKey, password: string, a: string, b: string, tail: string)
    requires Separator !in a && Separator !in b
    requires tail == [] || tail[0] == Separator
    ensures Verify(derive, password, a + [Separator] + b + tail) ==
      if Decode(a).None? || Decode(b).None? then Failure(FormatException)
      else Success(Decode(b).value == HashWithSalt(derive, password, Decode(a).value))
  {
    var e := a + [Separator] + b + tail;
    assert e == a + [Separator] + (b + tail);
    Strings.SplitFirst(a, b + tail, Separator);
    if tail == [] {
      assert b + tail == b;
      Strings.SplitNoSeparator(b, Separator);
    } else {
      assert b + tail == b + [Separator] + tail[1..];
      Strings.SplitFirst(b, tail[1..], Separator);
    }
  }

  /** A credential with no ';' is malformed: Verify throws rather than answer false. */
  lemma VerifyNoSeparator(derive: DeriveKey, password: string, encrypted: string)
    requires Separator !in encrypted
    ensures Verify(derive, password, encrypted) ==
      Failure(if Decode(encrypted).None? then FormatException else IndexOutOfRangeException)
  {
    Strings.SplitNoSeparator(encrypted, Separator);
  }

  /** Verify recovers exactly the salt and hash that Encrypt wrote, and answers whether the
    * candidate's derived key equals the stored one. */
  lemma VerifyEncrypted(derive: DeriveKey, candidate: string, password: string, salt: Key)
    ensures Verify(derive, candidate, Encrypt(derive, password, salt)) ==
      Success(HashWithSalt(derive, candidate, salt) == HashWithSalt(derive, password, salt))
  {
    var hash := HashWithSalt(derive, password, salt);
    EncodedNoSeparator(salt);
    EncodedNoSeparator(hash);
    DecodeEncode(salt);
    DecodeEncode(hash);
    assert Encrypt(derive, password, salt) == Encode(salt) + [Separator] + Encode(hash) + [];
    VerifyFields(derive, candidate, Encode(salt), Encode(hash), []);
  }

  /** The round trip: a password verifies against its own credential, whatever the salt
    * (the empty password included). */
  lemma VerifyEncrypt(derive: DeriveKey, password: string, salt: Key)
    ensures Verify(derive, password, Encrypt(derive, password, salt)) == Success(true)
  {
    VerifyEncrypted(derive, password, password, salt);
  }

  /** A candidate whose derived key differs from the password's is rejected with false. */
  lemma VerifyWrongPassword(derive: DeriveKey, candidate: string, password: string, salt: Key)
    requires HashWithSalt(derive, candidate, salt) != HashWithSalt(derive, password, salt)
    ensures Verify(derive, candidate, Encrypt(derive, password, salt)) == Success(false)
  {
    VerifyEncrypted(derive, candidate, password, salt);
  }

  /** Different salts give different credentials for the same password. */
  lemma EncryptSaltInjective(derive: DeriveKey, password: string, salt1: Key, salt2: Key)
    requires Encrypt(derive, password, salt1) == Encrypt(derive, password, salt2)
    ensures salt1 == salt2
  {
    EncryptFormat(derive, password, salt1);
    EncryptFormat(derive, password, salt2);
    DecodeEncode(salt1);
    DecodeEncode(salt2);
  }
}
