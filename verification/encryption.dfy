/** The note cipher wrapper.  The AES primitive and its key are not modelled:
    a `Cipher` is any pair of total functions that either produce a text or
    throw, and the round trip is proved for notes on which decryption undoes
    encryption. */
module Encryption {

  /** What a call into the cipher does: return a text or throw. */
  datatype CipherResult = Ok(text: string) | Throws

  /** `AES.encrypt(note, key).toString()` and
      `AES.decrypt(text, key).toString(Utf8)` for the fixed key. */
  datatype Cipher = Cipher(encrypt: string -> CipherResult, decrypt: string -> CipherResult)

  /** `encryptNote(note)`: the empty note stays empty; otherwise the cipher
      text, or the note itself when the cipher throws. */
  function EncryptNote(c: Cipher, note: string): (r: string)
    ensures note == "" ==> r == ""
    ensures note != "" && c.encrypt(note).Throws? ==> r == note
    ensures note != "" && c.encrypt(note).Ok? ==> r == c.encrypt(note).text
  {
    if note == "" then ""
    else
      match c.encrypt(note)
      case Ok(text) => text
      case Throws => note
  }

  /** JavaScript's `length`: the number of UTF-16 code units, two for a
      character outside the Basic Multilingual Plane. */
  function Utf16Length(s: string): (n: nat)
    ensures |s| <= n <= 2 * |s|
  {
    if |s| == 0 then 0
    else Utf16Length(s[..|s| - 1]) + (if s[|s| - 1] as int > 0xFFFF then 2 else 1)
  }

  /** A string of Basic Multilingual Plane characters has one code unit per
      character. */
  lemma {:induction false} BmpUtf16Length(s: string)
    requires forall i :: 0 <= i < |s| ==> s[i] as int <= 0xFFFF
    ensures Utf16Length(s) == |s|
  {
    if |s| > 0 {
      BmpUtf16Length(s[..|s| - 1]);
    }
  }

  /** The test for an old plain-text note: no "/", no "+", shorter than 20
      code units. */
  predicate LooksPlain(s: string)
  {
    '/' !in s && '+' !in s && Utf16Length(s) < 20
  }

  /** `decryptNote(cipherText)`: never throws.  The empty text stays empty, a
      text that looks plain is returned without calling the cipher, and a
      decryption that throws or yields the empty string returns the input. */
  function DecryptNote(c: Cipher, cipherText: string): (r: string)
    ensures cipherText == "" ==> r == ""
    ensures LooksPlain(cipherText) ==> r == cipherText
    ensures r == cipherText || (c.decrypt(cipherText) == Ok(r) && r != "" && !LooksPlain(cipherText))
    ensures cipherText != "" ==> r != ""
    ensures cipherText != "" && !LooksPlain(cipherText) && c.decrypt(cipherText).Ok? && c.decrypt(cipherText).text != "" ==>
      r == c.decrypt(cipherText).text
    ensures cipherText != "" && !LooksPlain(cipherText) && (c.decrypt(cipherText).Throws? || c.decrypt(cipherText) == Ok("")) ==>
      r == cipherText
  {
    if cipherText == "" then ""
    else if LooksPlain(cipherText) then cipherText
    else
      match c.decrypt(cipherText)
      case Ok(originalText) => if originalText == "" then cipherText else originalText
      case Throws => cipherText
  }

  /** A note the cipher round-trips: empty, or encrypted to a text that does
      not look plain and decrypts back to the note. */
  predicate RoundTrips(c: Cipher, note: string)
  {
    note == ""
    || (c.encrypt(note).Ok? && !LooksPlain(c.encrypt(note).text)
        && c.decrypt(c.encrypt(note).text) == Ok(note))
  }

  /** Decrypting an encrypted note gives the note back. */
  lemma NoteRoundTrip(c: Cipher, note: string)
    requires RoundTrips(c, note)
    ensures DecryptNote(c, EncryptNote(c, note)) == note
  {
  }

  /** When encryption throws, the note is stored as plain text, and it reads
      back unchanged if it looks plain or the cipher cannot decrypt it. */
  lemma FailedEncryptionReadsBack(c: Cipher, note: string)
    requires c.encrypt(note).Throws?
    requires LooksPlain(note) || c.decrypt(note).Throws? || c.decrypt(note) == Ok("")
    ensures DecryptNote(c, EncryptNote(c, note)) == note
  {
  }

  /** `encryptArray(items)`: [] for an empty list, else each item encrypted. */
  function EncryptArray(c: Cipher, items: seq<string>): (r: seq<string>)
    ensures |r| == |items|
    ensures forall i :: 0 <= i < |items| ==> r[i] == EncryptNote(c, items[i])
  {
    if |items| == 0 then []
    else EncryptArray(c, items[..|items| - 1]) + [EncryptNote(c, items[|items| - 1])]
  }

  /** `decryptArray(items)`: [] for an empty list, else each item decrypted. */
  function DecryptArray(c: Cipher, items: seq<string>): (r: seq<string>)
    ensures |r| == |items|
    ensures forall i :: 0 <= i < |items| ==> r[i] == DecryptNote(c, items[i])
  {
    if |items| == 0 then []
    else DecryptArray(c, items[..|items| - 1]) + [DecryptNote(c, items[|items| - 1])]
  }

  /** A list whose every item round-trips reads back as the same list. */
  lemma ArrayRoundTrip(c: Cipher, items: seq<string>)
    requires forall i :: 0 <= i < |items| ==> RoundTrips(c, items[i])
    ensures DecryptArray(c, EncryptArray(c, items)) == items
  {
    var r := DecryptArray(c, EncryptArray(c, items));
    forall i | 0 <= i < |items|
      ensures r[i] == items[i]
    {
      NoteRoundTrip(c, items[i]);
    }
  }
}
