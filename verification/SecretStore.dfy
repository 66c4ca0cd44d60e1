/** The secret store: buffers allocated and filled in sequence, and a key file made on first use. */
module SecretStore {
  import opened Wrappers
  import opened Bytes
  import opened Hex
  import opened Envelope

  // The key file: None while it does not exist; writable says whether it can be created.
  class KeyFile {
    var content: Option<seq<byte>>
    const writable: bool

    constructor (content: Option<seq<byte>>, writable: bool)
      ensures this.content == content && this.writable == writable
    {
      this.content := content;
      this.writable := writable;
    }
  }

  class SecretStore {
    const aead: Aead
    const file: KeyFile
    const enabled: bool

    constructor (aead: Aead, file: KeyFile, enabled: bool)
      ensures this.aead == aead && this.file == file && this.enabled == enabled
    {
      this.aead := aead;
      this.file := file;
      this.enabled := enabled;
    }

    // load_or_create_key; random is what the random source would give.
    method LoadOrCreateKey(random: seq<byte>) returns (key: Option<seq<byte>>)
      requires |random| == KEY_LEN
      modifies file
      ensures key == KeyFrom(old(file.content), file.writable, random)
      ensures file.content == FileAfterKey(old(file.content), file.writable, random)
    {
      if file.content.Some? {
        if |file.content.value| < KEY_LEN {
          return None;
        }
        return Some(file.content.value[..KEY_LEN]);
      }
      if !file.writable {
        return None;
      }
      file.content := Some(random);
      return Some(random);
    }

    // The envelope of a nonce and a ciphertext, put together in buffers.
    method Seal(nonce: seq<byte>, ct: seq<byte>) returns (text: seq<byte>)
      requires |nonce| == NONCE_LEN
      ensures text == PREFIX + Encode(nonce + ct)
    {
      var blobLen := NONCE_LEN + |ct|;
      var blob := new byte[blobLen];
      forall i | 0 <= i < NONCE_LEN {
        blob[i] := nonce[i];
      }
      forall i | 0 <= i < |ct| {
        blob[NONCE_LEN + i] := ct[i];
      }
      assert blob[..blobLen] == nonce + ct;
      var hex := new byte[blobLen * 2 + 1];
      HexEncode(blob, blobLen, hex);
      return PREFIX + hex[..blobLen * 2];
    }

    // nc_secret_store_encrypt
    method Encrypt(plain: Option<seq<byte>>, random: seq<byte>, nonce: seq<byte>) returns (text: seq<byte>)
      requires plain.Some? ==> NulFree(plain.value)
      requires |random| == KEY_LEN && |nonce| == NONCE_LEN
      modifies file
      ensures plain.None? ==> text == [] && file.content == old(file.content)
      ensures plain.Some? ==>
                var key := KeyFrom(old(file.content), file.writable, random);
                && text == Encrypted(aead, enabled, plain.value, key, nonce)
                && (enabled && plain.value != [] && key.Some? && aead.seal(key.value, nonce, plain.value).Some? ==>
                      var blob := nonce + aead.seal(key.value, nonce, plain.value).value;
                      PREFIX <= text && Decode(text[5..]) == Some(blob))
                && file.content ==
                   if enabled then FileAfter(old(file.content), file.writable, Use.Seal(plain.value, random))
                   else old(file.content)
    {
      if plain.None? {
        return [];
      }
      if !enabled || plain.value == [] {
        return plain.value;
      }
      var key := LoadOrCreateKey(random);
      if key.None? {
        return plain.value;
      }
      var ct := aead.seal(key.value, nonce, plain.value);
      if ct.None? {
        return plain.value;
      }
      text := Seal(nonce, ct.value);
      EncryptSeals(aead, plain.value, key.value, nonce);
    }

    // The blob of an envelope, decoded into a buffer; null when it is refused.
    method Unseal(text: seq<byte>) returns (blob: array?<byte>)
      requires PREFIX <= text
      ensures blob == null <==> Blob(text).None?
      ensures blob != null ==> fresh(blob) && blob[..] == Blob(text).value
    {
      var hexLen := |text| - 5;
      var hex := new byte[hexLen](i requires 0 <= i < hexLen => text[5 + i]);
      assert hex[..hexLen] == text[5..];
      var blobLen := hexLen / 2;
      var buffer := new byte[blobLen];
      var n := HexDecode(hex, hexLen, buffer, blobLen);
      if n < 0 {
        return null;
      }
      if blobLen < NONCE_LEN + TAG_LEN {
        return null;
      }
      assert buffer[..blobLen] == buffer[..];
      return buffer;
    }

    // nc_secret_store_decrypt
    method Decrypt(text: Option<seq<byte>>, random: seq<byte>) returns (plain: Option<seq<byte>>)
      requires |random| == KEY_LEN
      modifies file
      ensures text.None? ==> plain == None && file.content == old(file.content)
      ensures text.Some? ==>
                var key := KeyFrom(old(file.content), file.writable, random);
                && plain == Some(Decrypted(aead, enabled, text.value, key))
                && file.content ==
                   if enabled then FileAfter(old(file.content), file.writable, Use.Unseal(text.value, random))
                   else old(file.content)
    {
      if text.None? {
        return None;
      }
      if !(PREFIX <= text.value) {
        return Some(text.value);
      }
      if !enabled {
        return Some(text.value[5..]);
      }
      var blob := Unseal(text.value);
      if blob == null {
        return Some([]);
      }
      var key := LoadOrCreateKey(random);
      if key.None? {
        return Some([]);
      }
      ghost var whole := Blob(text.value).value;
      assert blob[..NONCE_LEN] == whole[..NONCE_LEN] && blob[NONCE_LEN..] == whole[NONCE_LEN..];
      var unsealed := aead.open(key.value, blob[..NONCE_LEN], blob[NONCE_LEN..]);
      if unsealed.None? {
        return Some([]);
      }
      return Some(CString(unsealed.value));
    }
  }
}
