/**
 Encrypted secrets as values: the key file, the "enc2:" envelope, and what comes back after any
 use of the store in between. The cipher is a pair of functions of which only one law is used.
 */
module Envelope {
  import opened Wrappers
  import opened Bytes
  import opened Hex
  import opened Widths

  const KEY_LEN := 32
  const NONCE_LEN := 12
  const TAG_LEN := 16

  // "enc2:"
  const PREFIX: seq<byte> := [101, 110, 99, 50, 58]

  // seal(key, nonce, plain) is the ciphertext with its tag; open undoes it or refuses.
  datatype Aead = Aead(
    seal: (seq<byte>, seq<byte>, seq<byte>) -> Option<seq<byte>>,
    open: (seq<byte>, seq<byte>, seq<byte>) -> Option<seq<byte>>)

  // A text whose length fits an int is sealed with a 16-byte tag and opened again.
  ghost predicate Lawful(a: Aead) {
    forall key, nonce, plain {:trigger a.seal(key, nonce, plain)} :: |plain| < TWO_TO_31 ==>
      && a.seal(key, nonce, plain).Some?
      && |a.seal(key, nonce, plain).value| == |plain| + TAG_LEN
      && a.open(key, nonce, a.seal(key, nonce, plain).value) == Some(plain)
  }

  // ---- The key file ----

  // The key a use of the store gets, given the file and fresh random bytes.
  function KeyFrom(file: Option<seq<byte>>, writable: bool, random: seq<byte>): (key: Option<seq<byte>>) {
    match file
    case Some(c) => if |c| >= KEY_LEN then Some(c[..KEY_LEN]) else None
    case None => if writable then Some(random) else None
  }

  function FileAfterKey(file: Option<seq<byte>>, writable: bool, random: seq<byte>): Option<seq<byte>> {
    if file.None? && writable then Some(random) else file
  }

  // ---- Encrypting and decrypting, given what the key file yields ----

  function Encrypted(a: Aead, enabled: bool, plain: seq<byte>, key: Option<seq<byte>>, nonce: seq<byte>): seq<byte> {
    if !enabled || plain == [] || key.None? then plain
    else
      match a.seal(key.value, nonce, plain)
      case Some(ct) => PREFIX + Encode(nonce + ct)
      case None => plain
  }

  // The blob in an envelope, where it is well formed; its length passes through an int.
  function Blob(text: seq<byte>): (blob: Option<seq<byte>>)
    requires PREFIX <= text
    ensures blob.Some? ==> |blob.value| >= NONCE_LEN + TAG_LEN
  {
    match Decode(text[5..])
    case Some(blob) => if ToInt32(|blob|) < 0 || |blob| < NONCE_LEN + TAG_LEN then None else Some(blob)
    case None => None
  }

  // Whether decrypting gets as far as asking for the key.
  predicate AsksForKey(enabled: bool, text: seq<byte>) {
    enabled && PREFIX <= text && Blob(text).Some?
  }

  function Decrypted(a: Aead, enabled: bool, text: seq<byte>, key: Option<seq<byte>>): seq<byte> {
    if !(PREFIX <= text) then text
    else if !enabled then text[5..]
    else if Blob(text).None? || key.None? then []
    else
      var blob := Blob(text).value;
      match a.open(key.value, blob[..NONCE_LEN], blob[NONCE_LEN..])
      case Some(plain) => CString(plain)
      case None => []
  }

  lemma BlobOfEnvelope(blob: seq<byte>)
    ensures PREFIX <= PREFIX + Encode(blob)
    ensures Blob(PREFIX + Encode(blob)) ==
            if ToInt32(|blob|) < 0 || |blob| < NONCE_LEN + TAG_LEN then None else Some(blob)
  {
    DecodeEncode(blob);
    assert (PREFIX + Encode(blob))[5..] == Encode(blob);
  }

  // The envelope splits back into nonce and ciphertext, and the cipher undoes itself.
  lemma EnvelopeOpens(a: Aead, plain: seq<byte>, key: seq<byte>, nonce: seq<byte>)
    requires Lawful(a) && NulFree(plain) && plain != [] && |nonce| == NONCE_LEN && |plain| < TWO_TO_31
    ensures Decrypted(a, true, Encrypted(a, true, plain, Some(key), nonce), Some(key)) ==
            if |plain| + NONCE_LEN + TAG_LEN < TWO_TO_31 then plain else []
  {
    var ct := a.seal(key, nonce, plain).value;
    var blob := nonce + ct;
    assert |ct| == |plain| + TAG_LEN;
    BlobOfEnvelope(blob);
    assert blob[..NONCE_LEN] == nonce && blob[NONCE_LEN..] == ct;
    CStringOf(plain, []);
    assert plain + [] == plain;
  }

  // An enabled store with a key writes "enc2:" and the hexadecimal of the nonce and the sealed
  // secret; nothing of the secret is left in the clear.
  lemma EncryptSeals(a: Aead, plain: seq<byte>, key: seq<byte>, nonce: seq<byte>)
    requires plain != [] && a.seal(key, nonce, plain).Some?
    ensures var text, blob := Encrypted(a, true, plain, Some(key), nonce), nonce + a.seal(key, nonce, plain).value;
            && |text| == 5 + 2 * |blob| && text[..5] == [101, 110, 99, 50, 58]
            && text[5..] == Encode(blob) && Decode(text[5..]) == Some(blob)
  {
    var blob := nonce + a.seal(key, nonce, plain).value;
    DecodeEncode(blob);
    assert (PREFIX + Encode(blob))[5..] == Encode(blob);
  }

  // A secret is left in the clear exactly where the store is disabled, the secret is empty, or there
  // is no key.
  lemma LeftInClearExactly(a: Aead, enabled: bool, plain: seq<byte>, key: Option<seq<byte>>, nonce: seq<byte>)
    requires Lawful(a) && |plain| < TWO_TO_31
    ensures Encrypted(a, enabled, plain, key, nonce) == plain <==> !enabled || plain == [] || key.None?
  {
    if enabled && plain != [] && key.Some? {
      EncryptSeals(a, plain, key.value, nonce);
    }
  }

  // An envelope, in whatever case its digits are, is opened with its first 12 bytes as the nonce and
  // the rest as the ciphertext; where the cipher refuses, the text is empty.
  lemma DecryptOpens(a: Aead, text: seq<byte>, key: seq<byte>, nonce: seq<byte>, ct: seq<byte>)
    requires PREFIX <= text && Decode(text[5..]) == Some(nonce + ct)
    requires |nonce| == 12 && 16 <= |ct| < TWO_TO_31 - 12
    ensures Decrypted(a, true, text, Some(key)) ==
            match a.open(key, nonce, ct) case Some(plain) => CString(plain) case None => []
    ensures Decrypted(a, true, text, None) == []
  {
    var blob := nonce + ct;
    assert blob[..12] == nonce && blob[12..] == ct;
  }

  // What does not begin like an envelope is left as it is; a disabled store only takes "enc2:" off.
  lemma DecryptLeaves(a: Aead, text: seq<byte>, enabled: bool, key: Option<seq<byte>>)
    ensures (|text| < 5 || text[..5] != [101, 110, 99, 50, 58]) ==> Decrypted(a, enabled, text, key) == text
    ensures Decrypted(a, false, [101, 110, 99, 50, 58] + text, key) == text
  {
    assert ([101, 110, 99, 50, 58] + text)[5..] == text;
  }

  // What comes back whole: nothing sealed needs more than an int for its envelope, and nothing
  // left unsealed looks like an envelope.
  predicate Recoverable(enabled: bool, plain: seq<byte>, key: Option<seq<byte>>) {
    || plain == []
    || (if enabled && key.Some? then |plain| + NONCE_LEN + TAG_LEN < TWO_TO_31 else !(PREFIX <= plain))
  }

  // Decrypting what was encrypted gives back the secret exactly in these cases.
  lemma RoundTripExactly(a: Aead, enabled: bool, plain: seq<byte>, key: Option<seq<byte>>, nonce: seq<byte>)
    requires Lawful(a) && NulFree(plain) && |nonce| == NONCE_LEN && |plain| < TWO_TO_31
    ensures Decrypted(a, enabled, Encrypted(a, enabled, plain, key, nonce), key) == plain
            <==> Recoverable(enabled, plain, key)
  {
    if plain != [] && enabled && key.Some? {
      EnvelopeOpens(a, plain, key.value, nonce);
    } else if PREFIX <= plain && !enabled {
      assert |plain[5..]| < |plain|;
    }
  }

  // An envelope of an odd length, with another character than a hexadecimal digit, or too short for
  // a nonce and a tag decrypts to the empty text.
  lemma MalformedIsEmpty(a: Aead, text: seq<byte>, key: Option<seq<byte>>)
    requires PREFIX <= text
    requires |text| % 2 == 0 || !AllHex(text[5..]) || |text| < 5 + 2 * (NONCE_LEN + TAG_LEN)
    ensures Decrypted(a, true, text, key) == [] && !AsksForKey(true, text)
  {
    DecodesExactly(text[5..]);
    assert |text[5..]| == |text| - 5;
  }

  // ---- Any number of uses of one key file ----

  datatype Use =
    | Seal(plain: seq<byte>, random: seq<byte>)
    | Unseal(text: seq<byte>, random: seq<byte>)

  function FileAfter(file: Option<seq<byte>>, writable: bool, use: Use): Option<seq<byte>> {
    match use
    case Seal(plain, random) => if plain == [] then file else FileAfterKey(file, writable, random)
    case Unseal(text, random) => if AsksForKey(true, text) then FileAfterKey(file, writable, random) else file
  }

  // The key is the first 32 bytes of the file whatever else it holds; without a file fresh random
  // bytes are the key and the file from then on, if it can be created.
  lemma KeyExactly(writable: bool, key: seq<byte>, rest: seq<byte>, random: seq<byte>)
    requires |random| == 32
    ensures |key| == 32 ==> KeyFrom(Some(key + rest), writable, random) == Some(key)
    ensures |key| < 32 ==> KeyFrom(Some(key), writable, random) == None
    ensures FileAfterKey(Some(key), writable, random) == Some(key)
    ensures KeyFrom(None, writable, random) == FileAfterKey(None, writable, random) ==
            if writable then Some(random) else None
  {
    assert |key| == 32 ==> (key + rest)[..32] == key;
  }

  // A use creates the key file exactly when there is none, it can be created, and there is something
  // to seal, or a well-formed envelope to open whose length an int holds.
  lemma FileCreatedExactly(file: Option<seq<byte>>, writable: bool, use: Use)
    ensures FileAfter(file, writable, use) != file <==>
            && file.None? && writable
            && match use
               case Seal(plain, _) => plain != []
               case Unseal(text, _) =>
                 && PREFIX <= text && |text| % 2 == 1 && AllHex(text[5..]) && |text| >= 5 + 2 * 28
                 && (|text| - 5) / 2 % 0x1_0000_0000 < 0x8000_0000
    ensures FileAfter(file, writable, use) != file ==> FileAfter(file, writable, use) == Some(use.random)
  {
    if use.Unseal? && PREFIX <= use.text {
      DecodesExactly(use.text[5..]);
    }
  }

  function FileAfterAll(file: Option<seq<byte>>, writable: bool, uses: seq<Use>): Option<seq<byte>>
    decreases |uses|
  {
    if uses == [] then file else FileAfterAll(FileAfter(file, writable, uses[0]), writable, uses[1..])
  }

  // Once there, or once it cannot be created, the key file stays as it is.
  lemma {:induction false} FileStays(file: Option<seq<byte>>, writable: bool, uses: seq<Use>)
    requires file.Some? || !writable
    ensures FileAfterAll(file, writable, uses) == file
    decreases |uses|
  {
    if uses != [] {
      FileStays(file, writable, uses[1..]);
    }
  }

  // A secret sealed by an enabled store after any uses, and unsealed after any further uses, comes
  // back exactly when it would have at once: the key is made once and read again ever after.
  lemma SecretsSurvive(a: Aead, writable: bool, file: Option<seq<byte>>, before: seq<Use>,
                       plain: seq<byte>, random: seq<byte>, nonce: seq<byte>, between: seq<Use>, random': seq<byte>)
    requires Lawful(a) && NulFree(plain) && |plain| < TWO_TO_31
    requires |nonce| == NONCE_LEN && |random| == KEY_LEN
    ensures var found := FileAfterAll(file, writable, before);
            var key := KeyFrom(found, writable, random);
            var text := Encrypted(a, true, plain, key, nonce);
            var later := FileAfterAll(FileAfter(found, writable, Seal(plain, random)), writable, between);
            Decrypted(a, true, text, KeyFrom(later, writable, random')) == plain <==> Recoverable(true, plain, key)
  {
    var found := FileAfterAll(file, writable, before);
    var key := KeyFrom(found, writable, random);
    RoundTripExactly(a, true, plain, key, nonce);
    if plain != [] {
      var sealed := FileAfter(found, writable, Seal(plain, random));
      FileStays(sealed, writable, between);
      assert random[..KEY_LEN] == random;
      assert KeyFrom(sealed, writable, random') == key;
    }
  }
}
