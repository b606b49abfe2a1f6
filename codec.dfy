/**
  The codec of `Storage.encoder` / `Storage.decoder`: JSON first, then either
  AES encryption (when the passphrase is non-empty) or percent-encoding (when the
  encode flag is on) or nothing. Encryption takes precedence over encoding.
*/
module Codec {
  import opened Wrappers
  import opened JsHost

  /** Which of the three transforms a configuration selects. */
  datatype Mode = Encrypted | PercentEncoded | RawJson

  /** The policy: a truthy (non-empty) passphrase wins over the encode flag. */
  function ModeOf(encode: bool, encryptKey: string): (m: Mode)
    ensures m == Encrypted <==> encryptKey != ""
    ensures m == PercentEncoded <==> encryptKey == "" && encode
    ensures m == RawJson <==> encryptKey == "" && !encode
  {
    if encryptKey != "" then Encrypted
    else if encode then PercentEncoded
    else RawJson
  }

  /**
    `Storage.encoder(obj, encode, encryptKey)`: the JSON text, put through the
    transform the configuration selects. `salt` is the draw CryptoJS makes.
  */
  function Encoder(h: Host, obj: JsValue, encode: bool, encryptKey: string, salt: Salt): (text: string)
    ensures ModeOf(encode, encryptKey) == Encrypted ==> text == h.encrypt(h.stringify(obj), encryptKey, salt)
    ensures ModeOf(encode, encryptKey) == PercentEncoded ==> text == h.encodeUri(h.stringify(obj))
    ensures ModeOf(encode, encryptKey) == RawJson ==> text == h.stringify(obj)
  {
    var json := h.stringify(obj);
    if encryptKey != "" then h.encrypt(json, encryptKey, salt)
    else if encode then h.encodeUri(json)
    else json
  }

  /** What a built-in that converts its argument to a string sees: `null` becomes "null". */
  function JsText(raw: Option<string>): (t: string)
    ensures raw.Some? ==> t == raw.value
    ensures raw.None? ==> t == "null"
  {
    if raw.Some? then raw.value else "null"
  }

  /** `JSON.parse(text)`, with its SyntaxError made explicit. */
  function Parse(h: Host, text: string): (r: Result<JsValue, Error>)
    ensures r.Ok? <==> h.parse(text).Some?
    ensures r.Ok? ==> r.value == h.parse(text).value
    ensures r.Err? ==> r.error == ParseFailed
  {
    match h.parse(text)
    case Some(v) => Ok(v)
    case None => Err(ParseFailed)
  }

  /**
    `Storage.decoder(value, encode, encryptKey)`; `raw` is `None` when the backend
    returned `null`. AES decryption of `null` throws (CryptoJS reads properties of
    its ciphertext argument); the other two branches read `null` as the text "null".
    Each mode undoes its own transform and hands the text to `JSON.parse`.
  */
  function Decoder(h: Host, raw: Option<string>, encode: bool, encryptKey: string): (r: Result<JsValue, Error>)
    ensures ModeOf(encode, encryptKey) == Encrypted ==>
      r == if raw.Some? && h.decrypt(raw.value, encryptKey).Some? then Parse(h, h.decrypt(raw.value, encryptKey).value)
           else Err(DecryptFailed)
    ensures ModeOf(encode, encryptKey) == PercentEncoded ==>
      r == if h.decodeUri(JsText(raw)).Some? then Parse(h, h.decodeUri(JsText(raw)).value) else Err(UriMalformed)
    ensures ModeOf(encode, encryptKey) == RawJson ==> r == Parse(h, JsText(raw))
  {
    if encryptKey != "" then
      if raw.None? then Err(DecryptFailed)
      else match h.decrypt(raw.value, encryptKey)
        case None => Err(DecryptFailed)
        case Some(text) => Parse(h, text)
    else if encode then
      match h.decodeUri(JsText(raw))
      case None => Err(UriMalformed)
      case Some(text) => Parse(h, text)
    else Parse(h, JsText(raw))
  }

  /**
    With a non-empty passphrase the AES branch is taken whatever the encode flag
    says: for the same salt both settings store the same ciphertext, and decoding
    `null` throws in both.
  */
  lemma EncryptionTakesPrecedence(h: Host, obj: JsValue, encryptKey: string, salt: Salt)
    requires encryptKey != ""
    ensures ModeOf(true, encryptKey) == ModeOf(false, encryptKey) == Encrypted
    ensures Encoder(h, obj, true, encryptKey, salt) == Encoder(h, obj, false, encryptKey, salt)
              == h.encrypt(h.stringify(obj), encryptKey, salt)
    ensures Decoder(h, None, true, encryptKey) == Decoder(h, None, false, encryptKey) == Err(DecryptFailed)
  {
  }

  /**
    Round trip: for every configuration used consistently on both ends and every
    salt, decoding what was encoded gives back the value JSON preserves of `obj`.
  */
  lemma RoundTrip(h: Host, obj: JsValue, encode: bool, encryptKey: string, salt: Salt)
    requires Lawful(h)
    requires !obj.Undefined? && Plain(obj)
    ensures Decoder(h, Some(Encoder(h, obj, encode, encryptKey, salt)), encode, encryptKey) == Ok(ToJson(h, obj))
  {
    var text := h.stringify(obj);
    assert h.parse(text) == Some(ToJson(h, obj));
    if encryptKey != "" {
      assert h.decrypt(h.encrypt(text, encryptKey, salt), encryptKey) == Some(text);
    } else if encode {
      assert h.decodeUri(h.encodeUri(text)) == Some(text);
    }
  }

  /**
    Decoding `null` (an absent key): without a passphrase it yields the JSON value
    null, with one it throws.
  */
  lemma DecodeAbsent(h: Host, encode: bool, encryptKey: string)
    requires NullLaws(h)
    ensures encryptKey == "" ==> Decoder(h, None, encode, encryptKey) == Ok(Null)
    ensures encryptKey != "" ==> Decoder(h, None, encode, encryptKey) == Err(DecryptFailed)
  {
  }

  /** A decoding failure is reported as the error of the stage that failed, never as a value. */
  lemma DecodeErrors(h: Host, raw: Option<string>, encode: bool, encryptKey: string)
    ensures Decoder(h, raw, encode, encryptKey).Err? ==>
      Decoder(h, raw, encode, encryptKey).error ==
        match ModeOf(encode, encryptKey)
        case Encrypted => if raw.Some? && h.decrypt(raw.value, encryptKey).Some? then ParseFailed else DecryptFailed
        case PercentEncoded => if h.decodeUri(JsText(raw)).Some? then ParseFailed else UriMalformed
        case RawJson => ParseFailed
  {
  }
}
