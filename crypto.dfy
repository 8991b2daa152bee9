/** `CryptoUtils`: the salted xor obfuscation that protects the stored API
    key. The salt is 16 characters from `[A-Za-z0-9]`; the key is derived
    from the UTF-8 bytes of `password + salt`; the stored form is
    `salt + btoa(text xor key)`. */
module CryptoUtils {
  import opened Wrappers
  import opened JsString
  import opened Bits
  import Base64
  import Utf8

  const SaltLength: nat := 16
  const KeyLength: nat := 32

  /** A character `generateSalt` can draw. Its alphabet
      `ABCDEFGHIJKLMNOPQRSTUVWXYZabcdefghijklmnopqrstuvwxyz0123456789` is the
      base 64 alphabet without its last two characters, in the same order,
      so `chars.charAt(k)` is `Base64.SextetChar(k)` for every `k < 62`. */
  predicate IsSaltChar(u: int)
  {
    Base64.IsAlphabet(u) && Base64.SextetValue(u) < 62
  }

  /** What `generateSalt()` can return. */
  predicate IsSalt(s: Str)
  {
    |s| == SaltLength && forall k | 0 <= k < |s| :: IsSaltChar(s[k])
  }

  /** The salt spelled by the successive values of
      `Math.floor(Math.random() * chars.length)`; sixteen draws make a salt
      of the form `IsSalt` describes. */
  function SaltOf(picks: seq<int>): (salt: Str)
    requires forall i | 0 <= i < |picks| :: 0 <= picks[i] < 62
    ensures |salt| == |picks|
    ensures forall k | 0 <= k < |salt| :: IsSaltChar(salt[k]) && Base64.SextetValue(salt[k]) == picks[k]
    ensures IsSalt(salt) <==> |picks| == SaltLength
  {
    seq(|picks|, i requires 0 <= i < |picks| => Base64.SextetChar(picks[i]))
  }

  /** `generateSalt(length)`, with the random draws passed in: `picks[i]` is
      the alphabet index drawn in iteration `i`, so `length` is `|picks|`. */
  method GenerateSalt(picks: seq<int>) returns (salt: Str)
    requires forall i | 0 <= i < |picks| :: 0 <= picks[i] < 62
    ensures salt == SaltOf(picks)
    ensures forall k | 0 <= k < |salt| :: IsSaltChar(salt[k])
  {
    salt := [];
    var i := 0;
    while i < |picks|
      invariant 0 <= i <= |picks|
      invariant salt == SaltOf(picks)[..i]
    {
      salt := salt + [Base64.SextetChar(picks[i])];
      i := i + 1;
    }
  }

  /** The key before slicing: code unit `i` is
      `String.fromCharCode(keyMaterial[i] ^ (i * 7 + salt.length))`, where
      `fromCharCode` keeps the low 16 bits. */
  function RawKey(keyMaterial: seq<Base64.Byte>, saltLength: nat): (raw: Str)
    ensures |raw| == |keyMaterial|
  {
    if keyMaterial == [] then []
    else
      var n := |keyMaterial| - 1;
      RawKey(keyMaterial[..n], saltLength) + [Xor(keyMaterial[n], n * 7 + saltLength) % 0x1_0000]
  }

  lemma {:induction false} RawKeyAt(keyMaterial: seq<Base64.Byte>, saltLength: nat, i: nat)
    requires i < |keyMaterial|
    ensures RawKey(keyMaterial, saltLength)[i] == Xor(keyMaterial[i], i * 7 + saltLength) % 0x1_0000
  {
    var n := |keyMaterial| - 1;
    if i < n {
      RawKeyAt(keyMaterial[..n], saltLength, i);
    }
  }

  /** `raw.slice(0, 32).padEnd(32, '0')`. */
  function SliceAndPad(raw: Str): (key: Str)
    ensures |key| == KeyLength
  {
    if |raw| >= KeyLength then raw[..KeyLength]
    else raw + seq(KeyLength - |raw|, _ => 48)
  }

  /** The key `deriveKey(password, salt)` returns. */
  function DerivedKey(password: Str, salt: Str): (key: Str)
    ensures |key| == KeyLength
  {
    SliceAndPad(RawKey(Utf8.Encode(password + salt), |salt|))
  }

  /** `deriveKey(password, salt)`. */
  method DeriveKey(password: Str, salt: Str) returns (key: Str)
    ensures key == DerivedKey(password, salt)
  {
    var keyMaterial := Utf8.Encode(password + salt);
    var raw: Str := [];
    var i := 0;
    while i < |keyMaterial|
      invariant 0 <= i <= |keyMaterial|
      invariant raw == RawKey(keyMaterial[..i], |salt|)
    {
      assert keyMaterial[..i + 1][..i] == keyMaterial[..i];
      raw := raw + [Xor(keyMaterial[i], i * 7 + |salt|) % 0x1_0000];
      i := i + 1;
    }
    assert keyMaterial[..i] == keyMaterial;
    key := SliceAndPad(raw);
  }

  /** Whatever the password, a salt of at most 38 units (the userscript
      always uses 16) yields a key of exactly 32 units that all fit in a
      byte. */
  lemma KeyShape(password: Str, salt: Str)
    requires |salt| <= 38
    ensures |DerivedKey(password, salt)| == KeyLength
    ensures Base64.IsBinary(DerivedKey(password, salt))
  {
    SlicedKeyIsBinary(Utf8.Encode(password + salt), |salt|);
  }

  /** The first 32 units of the raw key are xor-ed with at most
      `31 * 7 + 38 = 255`, so they stay bytes, and so does the padding. */
  lemma SlicedKeyIsBinary(m: seq<Base64.Byte>, saltLength: nat)
    requires saltLength <= 38
    ensures Base64.IsBinary(SliceAndPad(RawKey(m, saltLength)))
  {
    var raw := RawKey(m, saltLength);
    var key := SliceAndPad(raw);
    forall i | 0 <= i < KeyLength
      ensures key[i] < 256
    {
      if i < |raw| {
        RawKeyAt(m, saltLength, i);
        XorByte(m[i], i * 7 + saltLength);
        assert key[i] == raw[i];
      }
    }
  }

  /** `text.charCodeAt(i) ^ key.charCodeAt(i % key.length)`. */
  function XorCode(a: Unit, b: Unit): Unit
  {
    XorUnit(a, b);
    Xor(a, b)
  }

  /** The loop of `encrypt` and of `decrypt`: every unit xor-ed with the key,
      cyclically. */
  function XorWithKey(text: Str, key: Str): (r: Str)
    requires |key| > 0
    ensures |r| == |text|
  {
    if text == [] then []
    else
      var n := |text| - 1;
      XorWithKey(text[..n], key) + [XorCode(text[n], key[n % |key|])]
  }

  /** Unit `i` of the result is unit `i` of the text xor-ed with unit
      `i mod |key|` of the key. */
  lemma {:induction false} XorWithKeyAt(text: Str, key: Str, i: nat)
    requires |key| > 0 && i < |text|
    ensures XorWithKey(text, key)[i] == XorCode(text[i], key[i % |key|])
  {
    var n := |text| - 1;
    if i < n {
      XorWithKeyAt(text[..n], key, i);
    }
  }

  lemma XorWithKeyInvolutive(text: Str, key: Str)
    requires |key| > 0
    ensures XorWithKey(XorWithKey(text, key), key) == text
  {
    var once := XorWithKey(text, key);
    forall i | 0 <= i < |text|
      ensures XorWithKey(once, key)[i] == text[i]
    {
      XorWithKeyAt(text, key, i);
      XorWithKeyAt(once, key, i);
      XorInvolutive(text[i], key[i % |key|]);
    }
  }

  /** With a key of bytes, the xor-ed text is binary exactly when the text
      is. */
  lemma XorWithKeyBinary(text: Str, key: Str)
    requires |key| > 0 && Base64.IsBinary(key)
    ensures Base64.IsBinary(XorWithKey(text, key)) <==> Base64.IsBinary(text)
  {
    forall i | 0 <= i < |text|
      ensures XorWithKey(text, key)[i] < 256 <==> text[i] < 256
    {
      XorWithKeyAt(text, key, i);
      XorByte(text[i], key[i % |key|]);
    }
  }

  /** `validateEncryptionKey(key)`: only the length is checked. */
  predicate ValidateEncryptionKey(key: Str): (valid: bool)
    ensures valid ==> key != []
  {
    8 <= |key| <= 32
  }

  /** What `encrypt(text, password)` returns when `generateSalt()` returned
      `salt`; None stands for the `null` returned after `btoa` threw. */
  function Encryption(text: Str, password: Str, salt: Str): Option<Str>
  {
    match Base64.Btoa(XorWithKey(text, DerivedKey(password, salt)))
    case None => None
    case Some(payload) => Some(salt + payload)
  }

  /** `encrypt(text, password)`; `picks` are the salt's random draws. */
  method Encrypt(text: Str, password: Str, picks: seq<int>) returns (r: Option<Str>)
    requires |picks| == SaltLength
    requires forall i | 0 <= i < |picks| :: 0 <= picks[i] < 62
    ensures r == Encryption(text, password, SaltOf(picks))
  {
    var salt := GenerateSalt(picks);
    var key := DeriveKey(password, salt);
    var result: Str := [];
    var i := 0;
    while i < |text|
      invariant 0 <= i <= |text|
      invariant result == XorWithKey(text[..i], key)
    {
      assert text[..i + 1][..i] == text[..i];
      result := result + [XorCode(text[i], key[i % |key|])];
      i := i + 1;
    }
    assert text[..i] == text;
    var encoded := Base64.Btoa(result);
    if encoded.None? {
      return None;
    }
    r := Some(salt + encoded.value);
  }

  /** What `decrypt(encryptedText, password)` returns; None stands for
      `null` (input shorter than the salt, or `atob` threw). */
  function Decryption(encrypted: Str, password: Str): Option<Str>
  {
    if |encrypted| < SaltLength then None
    else
      match Base64.Atob(encrypted[SaltLength..])
      case None => None
      case Some(decoded) => Some(XorWithKey(decoded, DerivedKey(password, encrypted[..SaltLength])))
  }

  /** `decrypt(encryptedText, password)`. */
  method Decrypt(encrypted: Str, password: Str) returns (r: Option<Str>)
    ensures r == Decryption(encrypted, password)
  {
    if |encrypted| < SaltLength {
      return None;
    }
    var salt := encrypted[..SaltLength];
    var encryptedData := encrypted[SaltLength..];
    var key := DeriveKey(password, salt);
    var decodedData := Base64.Atob(encryptedData);
    if decodedData.None? {
      return None;
    }
    var data: Str := decodedData.value;
    var result: Str := [];
    var i := 0;
    while i < |data|
      invariant 0 <= i <= |data|
      invariant result == XorWithKey(data[..i], key)
    {
      assert data[..i + 1][..i] == data[..i];
      result := result + [XorCode(data[i], key[i % |key|])];
      i := i + 1;
    }
    assert data[..i] == data;
    r := Some(result);
  }

  /** `encrypt` returns null exactly when some code unit of the text does
      not fit in a byte, whatever the password. */
  lemma EncryptionFailsOnWideUnits(text: Str, password: Str, salt: Str)
    requires |salt| == SaltLength
    ensures Encryption(text, password, salt).None? <==> !Base64.IsBinary(text)
  {
    KeyShape(password, salt);
    XorWithKeyBinary(text, DerivedKey(password, salt));
  }

  /** The stored form: the salt, then the base 64 of a string as long as the
      text (four characters per started group of three), made of alphabet
      characters and `=` padding, which decodes to the text xor-ed with the
      key. */
  lemma EncryptionFormat(text: Str, password: Str, salt: Str)
    requires IsSalt(salt) && Base64.IsBinary(text)
    ensures Encryption(text, password, salt).Some?
    ensures var c := Encryption(text, password, salt).value;
      |c| == SaltLength + 4 * ((|text| + 2) / 3) && c[..SaltLength] == salt &&
      (forall k | SaltLength <= k < |c| :: Base64.IsAlphabet(c[k]) || c[k] == Base64.Pad) &&
      Base64.Atob(c[SaltLength..]) == Some(XorWithKey(text, DerivedKey(password, salt))) &&
      |XorWithKey(text, DerivedKey(password, salt))| == |text|
  {
    var key := DerivedKey(password, salt);
    var data := XorWithKey(text, key);
    KeyShape(password, salt);
    XorWithKeyBinary(text, key);
    Base64.AtobInvertsBtoa(data);
    Base64.BtoaCharacters(data);
    SaltThenPayload(salt, Base64.Btoa(data).value);
  }

  lemma SaltThenPayload(salt: Str, payload: Str)
    requires forall k | 0 <= k < |payload| :: Base64.IsAlphabet(payload[k]) || payload[k] == Base64.Pad
    ensures var c := salt + payload;
      c[..|salt|] == salt && c[|salt|..] == payload &&
      forall k | |salt| <= k < |c| :: Base64.IsAlphabet(c[k]) || c[k] == Base64.Pad
  {
    var c := salt + payload;
    forall k | |salt| <= k < |c|
      ensures Base64.IsAlphabet(c[k]) || c[k] == Base64.Pad
    {
      assert c[k] == payload[k - |salt|];
    }
  }

  /** `decrypt(encrypt(text, password), password) == text` for every binary
      text and every password. */
  lemma DecryptionInvertsEncryption(text: Str, password: Str, salt: Str)
    requires |salt| == SaltLength && Base64.IsBinary(text)
    ensures Encryption(text, password, salt).Some?
    ensures Decryption(Encryption(text, password, salt).value, password) == Some(text)
  {
    var key := DerivedKey(password, salt);
    var data := XorWithKey(text, key);
    KeyShape(password, salt);
    XorWithKeyBinary(text, key);
    Base64.AtobInvertsBtoa(data);
    var c := salt + Base64.Btoa(data).value;
    assert c[..SaltLength] == salt && c[SaltLength..] == Base64.Btoa(data).value;
    XorWithKeyInvolutive(text, key);
  }

  /** There is no integrity check: decrypting with any password yields a
      binary string of the text's length, never null. */
  lemma WrongPasswordStillDecrypts(text: Str, password: Str, other: Str, salt: Str)
    requires |salt| == SaltLength && Base64.IsBinary(text)
    ensures Encryption(text, password, salt).Some?
    ensures var d := Decryption(Encryption(text, password, salt).value, other);
      d.Some? && |d.value| == |text| && Base64.IsBinary(d.value)
  {
    var key := DerivedKey(password, salt);
    var data := XorWithKey(text, key);
    KeyShape(password, salt);
    KeyShape(other, salt);
    XorWithKeyBinary(text, key);
    Base64.AtobInvertsBtoa(data);
    var c := salt + Base64.Btoa(data).value;
    assert c[..SaltLength] == salt && c[SaltLength..] == Base64.Btoa(data).value;
    XorWithKeyBinary(data, DerivedKey(other, salt));
  }

  /** The key depends on the first 32 bytes of `password + salt` only, so a
      password of 32 or more UTF-8 bytes makes the salt irrelevant: every
      salt of the same length gives the same key. */
  lemma KeyIgnoresSaltForLongPasswords(password: Str, salt1: Str, salt2: Str)
    requires |Utf8.Encode(password)| >= KeyLength
    requires |salt1| == |salt2|
    requires salt1 == [] || !Utf8.IsLowSurrogate(salt1[0])
    requires salt2 == [] || !Utf8.IsLowSurrogate(salt2[0])
    ensures DerivedKey(password, salt1) == DerivedKey(password, salt2)
  {
    SameMaterialPrefixSameKey(password, salt1, password, salt2);
  }

  /** Two passwords whose UTF-8 encodings share their first 32 bytes derive
      the same key, so either one decrypts what the other encrypted. */
  lemma SharedPrefixDecrypts(text: Str, password: Str, other: Str, salt: Str)
    requires IsSalt(salt) && Base64.IsBinary(text)
    requires |Utf8.Encode(password)| >= KeyLength && |Utf8.Encode(other)| >= KeyLength
    requires Utf8.Encode(password)[..KeyLength] == Utf8.Encode(other)[..KeyLength]
    ensures Encryption(text, password, salt).Some?
    ensures Decryption(Encryption(text, password, salt).value, other) == Some(text)
  {
    SameMaterialPrefixSameKey(password, salt, other, salt);
    DecryptionInvertsEncryption(text, password, salt);
    DecryptionInvertsEncryption(text, other, salt);
  }

  /** Keys from key material agreeing on its first 32 bytes are equal. */
  lemma RawKeyPrefix(m1: seq<Base64.Byte>, m2: seq<Base64.Byte>, saltLength: nat)
    requires |m1| >= KeyLength && |m2| >= KeyLength && m1[..KeyLength] == m2[..KeyLength]
    ensures SliceAndPad(RawKey(m1, saltLength)) == SliceAndPad(RawKey(m2, saltLength))
  {
    var r1 := RawKey(m1, saltLength);
    var r2 := RawKey(m2, saltLength);
    forall i | 0 <= i < KeyLength
      ensures r1[i] == r2[i]
    {
      RawKeyAt(m1, saltLength, i);
      RawKeyAt(m2, saltLength, i);
      assert m1[i] == m1[..KeyLength][i];
      assert m2[i] == m2[..KeyLength][i];
    }
    assert r1[..KeyLength] == r2[..KeyLength];
  }

  lemma SameMaterialPrefixSameKey(p1: Str, s1: Str, p2: Str, s2: Str)
    requires |Utf8.Encode(p1)| >= KeyLength && |Utf8.Encode(p2)| >= KeyLength
    requires Utf8.Encode(p1)[..KeyLength] == Utf8.Encode(p2)[..KeyLength]
    requires |s1| == |s2|
    requires s1 == [] || !Utf8.IsLowSurrogate(s1[0])
    requires s2 == [] || !Utf8.IsLowSurrogate(s2[0])
    ensures DerivedKey(p1, s1) == DerivedKey(p2, s2)
  {
    var e1, e2 := Utf8.Encode(p1), Utf8.Encode(p2);
    Utf8.EncodeAppend(p1, s1);
    Utf8.EncodeAppend(p2, s2);
    var m1, m2 := e1 + Utf8.Encode(s1), e2 + Utf8.Encode(s2);
    assert m1[..KeyLength] == e1[..KeyLength];
    assert m2[..KeyLength] == e2[..KeyLength];
    RawKeyPrefix(m1, m2, |s1|);
  }
}
