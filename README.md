# Data-Storage, modelled in Dafny

This project models `dataStorage.mjs`, a namespaced key-value store for browser
clients. A `Storage` facade holds one backend: sessionStorage, localStorage, an
in-process `MemoryStorage`, or a `CookieStorage` over `document.cookie`. It also
holds a codec configuration (an encode flag and an AES passphrase) and a field
delimiter. Every entry lives at the composite key `field + delimiter + key`.
`removeItems` and `getItems` act on every backend key that starts with
`field + delimiter`.

Modules, one per component of the source file:

- `Wrappers`: `Option` (JavaScript `null`) and `Result` (an exception that is not caught).
- `JsHost`: the JavaScript values that are stored, and the host built-ins. These
  are JSON, CryptoJS AES, `encodeURIComponent`/`decodeURIComponent` and the Date
  strings. A `Host` value carries them as function values. The predicate `Lawful`
  states their inverse laws, the JSON law only for `Plain` values (those some
  JavaScript value corresponds to: numbers are finite doubles, `IsDouble`,
  Dates are valid, object keys are distinct and in JavaScript's key order).
  `ThirdIsNotDouble` shows that a real such as 1/3 falls outside the law, so a
  host whose `JSON.stringify` prints the shortest digits of a double can be
  lawful. Encryption takes the random salt CryptoJS draws as an argument.
- `Codec`: `Storage.encoder` and `Storage.decoder`. A non-empty passphrase takes
  precedence over percent-encoding, which takes precedence over raw JSON.
- `CookieText`: the cookie strings. This covers one-character `split` and `join`,
  `trim`, the regex-metacharacter escaping of a cookie name, the search
  `(?:^|; )name=([^;]*)`, and the text assigned to `document.cookie`.
- `Backends`: `NativeStorage` (sessionStorage and localStorage as maps),
  `MemoryStorage`, `Document` (the cookie header) and `CookieStorage`. It also
  holds the specification of `reloadItems`.
- `DataStorage`: the `Storage` facade. A tagged `Backend` datatype replaces the
  source's `instanceof CookieStorage` tests.

Behaviour of the code that the model keeps:

- `getItem` returns the whole decoded envelope `{value, exp}`, not only its
  `value` (dataStorage.mjs:47).
- A missing key is not short-circuited. The backend's `null` goes through the
  decoder. Without a passphrase, `JSON.parse` reads it as the text "null" and
  returns `null`. With a passphrase, AES decryption of `null` throws.
- The cookie lookup is the regex search at dataStorage.mjs:105-107: the first
  `name=` at the start of the header or after "; ".
- `removeItem` on the cookie backend expires the cookie at the current time
  (`new Date`).
- The cookie mirror is never pruned. After `removeItems`, the removed cookies are
  still in the mirror.

Proved about the model: with the encode flag on and no passphrase, a value read
from the cookie backend is percent-decoded twice. `CookieStorage.getItem`
decodes it once, and `Storage.decoder` decodes it again. So the JSON text itself
goes through `decodeURIComponent`. The read throws a URI error when that step
throws, for example on a stored string with a '%' not followed by two hex digits.
The round trip holds when that step leaves the text unchanged
(`Backends.CookieReadDecodesTwice`).

## Model

| member | source | states |
|---|---|---|
| `Codec.ModeOf` | dataStorage.mjs:29-30 | Encryption is selected exactly when the passphrase is non-empty. Percent-encoding is selected exactly when the passphrase is empty and the flag is on. Raw JSON is selected otherwise. |
| `Codec.EncryptionTakesPrecedence` | dataStorage.mjs:27-38 | With a non-empty passphrase both flag settings select encryption. For the same salt they store the same AES ciphertext of the JSON text. Decoding `null` then throws in both flag settings. |
| `Codec.Encoder` | dataStorage.mjs:27-32 | Each mode applies only its own transform to the JSON text: AES encryption under the given salt, percent-encoding, or nothing. |
| `Codec.Decoder` | dataStorage.mjs:34-38 | Each mode undoes only its own transform and hands the text to `JSON.parse`. In AES mode, `null` or a text the host cannot decrypt raises a decryption error. The other two modes read `null` as the text "null". |
| `Codec.RoundTrip` | dataStorage.mjs:27-38 | Under the inverse laws, for every plain value, every encode flag and passphrase used on both ends, and every salt, decoding the encoded value gives back the value JSON keeps of it. |
| `Codec.DecodeAbsent` | dataStorage.mjs:34-38 | Given only the laws of the text "null": decoding `null` gives the JSON `null` without a passphrase. With a passphrase it raises a decryption error. |
| `Codec.DecodeErrors` | dataStorage.mjs:34-38 | A failed decode reports the error of the stage that failed (decryption, percent-decoding or JSON parsing). It never returns a value. |
| `Codec.Parse` | dataStorage.mjs:37 | `JSON.parse` succeeds exactly when the host parser accepts the text. Otherwise it raises a parse error. |
| `CookieText.Split` | dataStorage.mjs:91 | `split` on one character returns at least one piece. No piece contains the separator. There is exactly one piece when the text has no separator. |
| `CookieText.JoinSplit` | dataStorage.mjs:91 | Joining the pieces of a split with the separator gives back the original header. |
| `CookieText.SplitJoin` | dataStorage.mjs:93 | Splitting a join of separator-free pieces gives back those pieces. |
| `CookieText.TrimStartSpec` | dataStorage.mjs:93 | `TrimStart` keeps the longest suffix that does not start with ECMAScript white space. Everything dropped is white space. |
| `CookieText.TrimEndSpec` | dataStorage.mjs:93 | `TrimEnd` keeps the longest prefix that does not end with white space. Everything dropped is white space. |
| `CookieText.Trim` | dataStorage.mjs:93 | `trim` never lengthens the text, and the result neither starts nor ends with white space. |
| `CookieText.TrimSpec` | dataStorage.mjs:93 | `trim` drops only white space, at both ends, and keeps the text in between unchanged. |
| `CookieText.Escape` | dataStorage.mjs:106 | The escaped name is a literal pattern: every character of the escaped set (the fifteen regex metacharacters the source lists) is preceded by a backslash, and no other character is. Removing the inserted backslashes gives back the name. |
| `CookieText.EscapeAppend` | dataStorage.mjs:106 | Escaping works character by character: the escape of a concatenation is the concatenation of the escapes. |
| `CookieText.EscapeKeepsPlain` | dataStorage.mjs:106 | A name without metacharacters is not altered. |
| `CookieText.Search` | dataStorage.mjs:105-107 | Finds the leftmost position where `name=` starts the header or follows "; ". Returns null when there is none. |
| `CookieText.UpToSemicolon` | dataStorage.mjs:106 | `([^;]*)` captures the longest prefix without ';'. It stops at the first ';' or at the end. |
| `CookieText.FindCookie` | dataStorage.mjs:105-108 | The lookup returns null exactly when no cookie pair of that name exists in the header. Otherwise it returns the `([^;]*)` capture right after the leftmost `name=` match. |
| `CookieText.CookieAssignment` | dataStorage.mjs:100 | The assigned text is the pair `fieldKey=value` followed by `; path=/; expires=` and the expiry text. |
| `CookieText.AssignmentReadsBack` | dataStorage.mjs:100 | The text assigned to `document.cookie` starts with the pair `fieldKey=value`. The lookup reads `value` back when it has no ';'. |
| `Backends.MemoryRead` | dataStorage.mjs:77-80 | A key reads as its stored string exactly when it is present and the string is truthy (non-empty). Otherwise it reads as `null`. |
| `Backends.MemorySetThenGet` | dataStorage.mjs:73-80 | After storing a truthy value, that key reads it back and every other key reads as before. |
| `Backends.MemoryFalsyReadsNull` | dataStorage.mjs:78 | A stored empty string is present but reads as `null`. |
| `Backends.MemoryRemoveThenGet` | dataStorage.mjs:77-84 | After a removal, that key reads as `null` and every other key reads as before. |
| `Backends.MemoryStorage.constructor` | dataStorage.mjs:4 | A new memory backend is empty. Each facade gets its own, so two facades do not share entries. |
| `Backends.MemoryStorage.SetItem` | dataStorage.mjs:73-75 | The entry map becomes the old map with `fieldKey` set to the value. |
| `Backends.MemoryStorage.GetItem` | dataStorage.mjs:77-80 | Reads with the falsy-to-null rule of `MemoryRead`. |
| `Backends.MemoryStorage.RemoveItem` | dataStorage.mjs:82-84 | Deletes exactly `fieldKey`. |
| `Backends.ParseSegment` | dataStorage.mjs:93 | The raw name is the trimmed segment up to its first '='. The value is the '='-free text after the first '=', up to the second '=' or the end. A segment without '=' has the value "undefined". |
| `Backends.ParseAllAt` | dataStorage.mjs:91-93 | Parsing the header's segments parses each segment on its own: the i-th pair is the parse of the i-th segment. |
| `Backends.ReadSegment` | dataStorage.mjs:94 | A segment is skipped exactly when its raw name does not start with the prefix. Otherwise it raises a URI error exactly when the name or the value fails to decode, and stores the decoded name and value when both decode. |
| `Backends.SecondEqualsTruncates` | dataStorage.mjs:93-94 | For a segment `name=a=b`, the value kept is `a`. Everything after the second '=' is lost. |
| `Backends.Reload` | dataStorage.mjs:90-96 | The reload over the segments from left to right. The only error that stops it is a URI error. |
| `Backends.ReloadKeepsKeys` | dataStorage.mjs:90-96 | A reload never deletes a mirror entry. |
| `Backends.ReloadOnlyWritesPrefixed` | dataStorage.mjs:90-96 | Every mirror entry that a reload adds or changes comes from a segment whose raw name starts with `field + delimiter`. Every other entry keeps its value. |
| `Backends.CookieStorage.ReloadItems` | dataStorage.mjs:90-96 | The new mirror and the error that stopped the loop are those of the left-to-right reload over the header's ';'-segments. |
| `Backends.ExpiryText` | dataStorage.mjs:99-100 | A Date is written as its UTC string. A text is written as itself, and a missing expiry as "undefined". |
| `Backends.CookieStorage.SetItem` | dataStorage.mjs:98-102 | Assigns `fieldKey=value; path=/; expires=<exp>` to `document.cookie`. A Date is written as its UTC string. |
| `Backends.CookieRead` | dataStorage.mjs:104-109 | The escaped-name regex finds the first cookie with exactly that name. Its value is percent-decoded, or the result is `null` when there is no such cookie. |
| `Backends.CookieStorage.GetItem` | dataStorage.mjs:104-109 | Reads the current header with `CookieRead`. |
| `Backends.CookieStorage.RemoveItem` | dataStorage.mjs:111-114 | Assigns an empty value that expires now. The mirror is left unchanged. |
| `Backends.CookieReadDecodesTwice` | dataStorage.mjs:36 | For the cookie backend with encoding on, the lookup already undoes the percent-encoding, and the codec percent-decodes the JSON text a second time. The read throws when that second step throws, and gives back the value JSON keeps when that step leaves the text unchanged. |
| `DataStorage.CompositeKey` | dataStorage.mjs:43 | The composite key starts with `field + delimiter`, and what follows is the key. |
| `DataStorage.Prefixed` | dataStorage.mjs:56 | Keeps exactly the keys that start with the prefix. |
| `DataStorage.WithoutPrefix` | dataStorage.mjs:56-57 | Removes exactly the prefixed keys. Every other key keeps its value. |
| `DataStorage.Envelope` | dataStorage.mjs:41-42 | The payload is exactly `{value, exp}`, or exactly `{value}` for the cookie backend. |
| `DataStorage.EnvelopePlain` | dataStorage.mjs:41-42 | The envelope of a plain value and a plain expiry is plain, so the JSON law applies to it. |
| `DataStorage.FieldsDoNotCollide` | dataStorage.mjs:56 | When neither field name contains the delimiter's first character, a composite key lies in exactly one field's namespace. |
| `DataStorage.DelimiterChangeHidesEntries` | dataStorage.mjs:23-25 | After a change to a delimiter with a different first character, entries written under the old delimiter are outside their field's namespace. |
| `DataStorage.AbsentKeyReadsNull` | dataStorage.mjs:46-48 | Given only the laws of the text "null": on a map backend, an unwritten key reads as `null` without a passphrase. With a passphrase it raises a decryption error. |
| `DataStorage.Storage.constructor` | dataStorage.mjs:4-13 | The encode flag is on, there is no passphrase and the delimiter is ".". The backend is the one named. |
| `DataStorage.Storage.SetEncryptKey` | dataStorage.mjs:15-17 | Sets the passphrase. The rest of the configuration is unchanged. |
| `DataStorage.Storage.SetEncode` | dataStorage.mjs:19-21 | Sets the encode flag. The rest of the configuration is unchanged. |
| `DataStorage.Storage.SetDelimiter` | dataStorage.mjs:23-25 | A non-empty delimiter replaces the old one. An empty one leaves the previous delimiter in place. |
| `DataStorage.Storage.WriteKey` | dataStorage.mjs:43 | Writes `text` at exactly `k` in a map backend. For cookies it assigns the cookie text with the expiry, and the mirror is unchanged. |
| `DataStorage.Storage.RemoveKey` | dataStorage.mjs:51 | Deletes exactly `k` from a map backend. For cookies it assigns an empty value that expires at `now`, and the mirror is unchanged. |
| `DataStorage.Storage.Read` | dataStorage.mjs:47 | The raw read from each backend: a map lookup for session and local storage, the falsy-to-null rule for memory, and `CookieRead` over the current header for cookies. |
| `DataStorage.Storage.SetItem` | dataStorage.mjs:40-44 | Stores the encoded envelope at exactly `field + delimiter + key`, and nothing else changes. For cookies it assigns the cookie text. On a map backend, under the inverse laws and for a plain value and expiry, the key then reads back as the envelope JSON keeps. |
| `DataStorage.ReadsBackEncoded` | dataStorage.mjs:46-48 | On a map backend, an entry holding the encoding of a plain value reads back through `getItem` as the value JSON keeps of it. |
| `DataStorage.Storage.GetItem` | dataStorage.mjs:46-48 | Decodes the raw value at exactly `field + delimiter + key` and returns the whole envelope. A backend error propagates. |
| `DataStorage.Storage.RemoveItem` | dataStorage.mjs:50-52 | Deletes exactly `field + delimiter + key` from a map backend. For cookies it expires that cookie. |
| `DataStorage.Storage.RemoveItems` | dataStorage.mjs:54-58 | On a map backend, removes exactly the keys starting with `field + delimiter`; the others are unchanged. For cookies it reloads the mirror, then expires each prefixed mirror key once. The mirror keeps those keys. |
| `DataStorage.Storage.ExpirePrefixed` | dataStorage.mjs:56-57 | Removes, or for cookies expires, each key that starts with the prefix exactly once. On a map backend exactly the prefixed keys go and the rest is unchanged. The cookie header becomes the old header after one expiring assignment per prefixed mirror key. |
| `DataStorage.Storage.DecodeAll` | dataStorage.mjs:63-64 | If every prefixed entry decodes, the result's keys are exactly the prefixed keys and each maps to its decoded value. Otherwise the result is the error of one prefixed entry. |
| `DataStorage.Storage.GetItems` | dataStorage.mjs:60-66 | Returns `DecodeAll` over the backend's entries. Only the cookie backend changes state, by reloading its mirror first. A reload error propagates. |

## Left out

- CryptoJS AES, `JSON.stringify`/`JSON.parse`, `encodeURIComponent`/`decodeURIComponent` and the Date string methods are host code. They are fields of `Host`. Only the laws in `JsHost.Lawful` are assumed, and nothing is claimed about decryption with a wrong passphrase.
- Randomness: CryptoJS derives the key and IV of a passphrase encryption from a fresh random salt, so two encryptions of the same text differ. The model does not draw the salt. `setItem` takes it as the argument `salt`, and `Host.encrypt` is a function of the text, the passphrase and that salt.
- Numbers: `Num` carries a real, and `Plain` admits only the reals a finite IEEE double holds exactly (`IsDouble`: a significand below 2^53 times 2^e with -1074 <= e <= 971), so the JSON law is stated for values whose numbers are doubles already. Rounding of other reals to the nearest double, -0, NaN and the infinities are not modelled.
- The browser's handling of `document.cookie = text` is the opaque function `Document.assign`. Expiry eviction and path scoping are not modelled, so nothing is proved about what a cookie read returns after a cookie write.
- sessionStorage and localStorage are plain string maps. Quota, persistence and cross-tab storage events are not modelled.
- JavaScript's dynamic typing: fields, keys and the passphrase are strings, and the encode flag is a boolean. An expiry is undefined, a Date or a text. Other expiry values (numbers, objects) are not modelled. Numbers are reals, without NaN or Infinity.
- Inherited properties: `MemoryStorage` and `CookieStorage` store entries as properties of the object itself. A key such as `getItem` or `__proto__` would hit the prototype. Entries are modelled as a map that those names do not touch.
- `Object.keys` order: `removeItems` and `getItems` pick the prefixed keys in an unspecified order. `RemoveItems` returns the order it used as a ghost result. Which error `getItems` reports, when several entries fail, depends on that order.
- Clock: `removeItem` on cookies calls `new Date` once per key. The model takes one `now` for the whole call.
- The constructor accepts only the four known kind names. The source builds both a memory and a cookie backend for every instance and uses one of them. The model builds only the one it uses.
- Characters are Unicode scalar values, not UTF-16 code units.
- DataStorage.Storage.SetItem: the read-back clause covers only the map backends, because reading a cookie back depends on the browser's assignment semantics.
- DataStorage.Storage.GetItem: for the cookie backend, the contract states only that the read goes through `Read` and the decoder. Whether a written cookie is found depends on the browser.
