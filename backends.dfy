/**
  The four backends behind the facade: the browser's sessionStorage and
  localStorage (host objects, modelled as maps), the in-process `MemoryStorage`,
  and `CookieStorage` over the browser's `document.cookie`.
*/
module Backends {
  import opened Wrappers
  import opened JsHost
  import opened CookieText
  import Codec

  // ---------------------------------------------------------------- native storage

  /** sessionStorage or localStorage: a string-to-string map owned by the browser. */
  class NativeStorage {
    var items: map<string, string>

    constructor(items: map<string, string>)
      ensures this.items == items
    {
      this.items := items;
    }

    method SetItem(key: string, value: string)
      modifies this
      ensures items == old(items)[key := value]
    {
      items := items[key := value];
    }

    /** `getItem`: the stored string, or null when the key is absent. */
    function GetItem(key: string): (r: Option<string>)
      reads this
      ensures r.Some? <==> key in items
      ensures r.Some? ==> r.value == items[key]
    {
      if key in items then Some(items[key]) else None
    }

    method RemoveItem(key: string)
      modifies this
      ensures items == old(items) - {key}
    {
      items := items - {key};
    }
  }

  // ---------------------------------------------------------------- memory storage

  /**
    `MemoryStorage.getItem` on the map of its own properties: a stored value that
    is falsy (for a string, the empty one) reads back as null, like an absent key.
  */
  function MemoryRead(items: map<string, string>, key: string): (r: Option<string>)
    ensures r.Some? <==> key in items && items[key] != ""
    ensures r.Some? ==> r.value == items[key]
  {
    if key in items && items[key] != "" then Some(items[key]) else None
  }

  /** After storing a truthy value, that key reads it back and every other key reads as before. */
  lemma MemorySetThenGet(items: map<string, string>, key: string, value: string, other: string)
    requires value != ""
    ensures MemoryRead(items[key := value], key) == Some(value)
    ensures other != key ==> MemoryRead(items[key := value], other) == MemoryRead(items, other)
  {
  }

  /** Storing the empty string makes the key read as null although it is present. */
  lemma MemoryFalsyReadsNull(items: map<string, string>, key: string)
    ensures key in items[key := ""]
    ensures MemoryRead(items[key := ""], key) == None
  {
  }

  /** After a removal that key reads as null and every other key reads as before. */
  lemma MemoryRemoveThenGet(items: map<string, string>, key: string, other: string)
    ensures MemoryRead(items - {key}, key) == None
    ensures other != key ==> MemoryRead(items - {key}, other) == MemoryRead(items, other)
  {
  }

  /** The in-process backend: its own enumerable properties are the stored entries. */
  class MemoryStorage {
    var items: map<string, string>

    constructor()
      ensures items == map[]
    {
      items := map[];
    }

    /** `this[fieldKey] = value`. */
    method SetItem(fieldKey: string, value: string)
      modifies this
      ensures items == old(items)[fieldKey := value]
    {
      items := items[fieldKey := value];
    }

    /** `if (this[fieldKey]) return this[fieldKey]; return null;` */
    function GetItem(fieldKey: string): (r: Option<string>)
      reads this
      ensures r == MemoryRead(items, fieldKey)
    {
      MemoryRead(items, fieldKey)
    }

    /** `delete this[fieldKey]`. */
    method RemoveItem(fieldKey: string)
      modifies this
      ensures items == old(items) - {fieldKey}
    {
      items := items - {fieldKey};
    }
  }

  // ---------------------------------------------------------------- cookies

  /**
    The browser document, reduced to its cookie header. Assigning to
    `document.cookie` is handled by the browser (`assign`), whose expiry and path
    rules are not modelled; reading it gives the current header.
  */
  class Document {
    var cookie: string
    const assign: (string, string) -> string

    constructor(cookie: string, assign: (string, string) -> string)
      ensures this.cookie == cookie && this.assign == assign
    {
      this.cookie := cookie;
      this.assign := assign;
    }

    /** `document.cookie = text`. */
    method SetCookie(text: string)
      modifies this
      ensures cookie == assign(old(cookie), text)
    {
      cookie := assign(cookie, text);
    }
  }

  /**
    The text of the `expires` attribute: a Date's UTC string, otherwise what
    string concatenation makes of the value (a text itself, undefined "undefined").
  */
  function ExpiryText(h: Host, exp: Expiry): (r: string)
    ensures exp.DateExpiry? ==> r == h.utcString(exp.time)
    ensures exp.TextExpiry? ==> r == exp.text
    ensures exp.NoExpiry? ==> r == "undefined"
  {
    match exp
    case DateExpiry(t) => h.utcString(t)
    case TextExpiry(s) => s
    case NoExpiry => "undefined"
  }

  /** A header segment as `reloadItems` splits it: `c.trim().split("=")`, parts `[0]` and `[1]`. */
  datatype RawPair = RawPair(name: string, value: string)

  /**
    The raw name and value texts of one header segment. The name is the trimmed
    segment up to its first '='. The value is the text between the first and the
    second '=' (or the end); a segment without '=' has the value `undefined`,
    which reads as the text "undefined".
  */
  function ParseSegment(segment: string): (p: RawPair)
    ensures var t := Trim(segment);
      && p.name <= t && '=' !in p.name
      && ('=' !in t ==> p.name == t && p.value == "undefined")
      && ('=' in t ==>
            && p.name + "=" + p.value <= t && '=' !in p.value
            && (|p.name + "=" + p.value| == |t| || t[|p.name + "=" + p.value|] == '='))
  {
    var t := Trim(segment);
    var parts := Split(t, '=');
    JoinSplit(t, '=');
    assert |parts| > 1 ==> t == parts[0] + ['='] + Join(parts[1..], '=');
    assert |parts| > 2 ==> parts[1..][1..] == parts[2..];
    assert |parts| > 2 ==> Join(parts[1..], '=') == parts[1] + ['='] + Join(parts[2..], '=');
    RawPair(parts[0], if |parts| >= 2 then parts[1] else "undefined")
  }

  /** Every ';'-segment of a cookie header, parsed. */
  function Segments(cookie: string): seq<RawPair>
  {
    ParseAll(Split(cookie, ';'))
  }

  /** Parses each segment in turn. */
  function ParseAll(segments: seq<string>): (ps: seq<RawPair>)
    ensures |ps| == |segments|
  {
    if segments == [] then [] else [ParseSegment(segments[0])] + ParseAll(segments[1..])
  }

  /** The `i`-th parsed pair is the parse of the `i`-th segment. */
  lemma {:induction false} ParseAllAt(segments: seq<string>, i: nat)
    requires i < |segments|
    ensures ParseAll(segments)[i] == ParseSegment(segments[i])
  {
    if i > 0 {
      ParseAllAt(segments[1..], i - 1);
      assert ParseAll(segments)[i] == ParseAll(segments[1..])[i - 1];
      assert segments[1..][i - 1] == segments[i];
    }
  }

  /**
    What `reloadItems` does with one segment: nothing when the raw name does not
    start with `prefix`, otherwise the percent-decoded name and value to store,
    or the URIError either decoding throws.
  */
  function ReadSegment(h: Host, pair: RawPair, prefix: string): (r: Result<Option<(string, string)>, Error>)
    ensures r == Ok(None) <==> !(prefix <= pair.name)
    ensures r.Err? <==> prefix <= pair.name && (h.decodeUri(pair.name).None? || h.decodeUri(pair.value).None?)
    ensures r.Err? ==> r.error == UriMalformed
    ensures r.Ok? && r.value.Some? ==>
      && prefix <= pair.name
      && h.decodeUri(pair.name) == Some(r.value.value.0)
      && h.decodeUri(pair.value) == Some(r.value.value.1)
  {
    if !(prefix <= pair.name) then Ok(None)
    else match h.decodeUri(pair.name)
      case None => Err(UriMalformed)
      case Some(key) =>
        match h.decodeUri(pair.value)
        case None => Err(UriMalformed)
        case Some(value) => Ok(Some((key, value)))
  }

  /** The mirror after a reload, and the URIError that stopped it, if any. */
  datatype Reloaded = Reloaded(mirror: map<string, string>, failure: Option<Error>)

  /** `segments.forEach(...)` from left to right; a thrown URIError stops it, and is the only error. */
  function Reload(h: Host, mirror: map<string, string>, segments: seq<RawPair>, prefix: string): (r: Reloaded)
    decreases |segments|
    ensures r.failure.Some? ==> r.failure.value == UriMalformed
  {
    if segments == [] then Reloaded(mirror, None)
    else match ReadSegment(h, segments[0], prefix)
      case Err(e) => Reloaded(mirror, Some(e))
      case Ok(None) => Reload(h, mirror, segments[1..], prefix)
      case Ok(Some(entry)) => Reload(h, mirror[entry.0 := entry.1], segments[1..], prefix)
  }

  /** One step of the reload: the segment at `i` decides how the rest goes on. */
  lemma ReloadUnfold(h: Host, mirror: map<string, string>, segments: seq<RawPair>, i: nat, prefix: string)
    requires i < |segments|
    ensures var step := ReadSegment(h, segments[i], prefix);
      Reload(h, mirror, segments[i..], prefix) ==
        if step.Err? then Reloaded(mirror, Some(step.error))
        else if step.value.None? then Reload(h, mirror, segments[i + 1..], prefix)
        else Reload(h, mirror[step.value.value.0 := step.value.value.1], segments[i + 1..], prefix)
  {
    assert segments[i..][0] == segments[i] && segments[i..][1..] == segments[i + 1..];
  }

  /** Some segment of the header, read with `prefix`, yields the entry `key=value`. */
  ghost predicate Written(h: Host, segments: seq<RawPair>, prefix: string, key: string, value: string)
  {
    exists i :: 0 <= i < |segments| && ReadSegment(h, segments[i], prefix) == Ok(Some((key, value)))
  }

  /** An entry written by a later segment is written by the whole header. */
  lemma WrittenTail(h: Host, segments: seq<RawPair>, prefix: string, key: string, value: string)
    requires segments != []
    requires Written(h, segments[1..], prefix, key, value)
    ensures Written(h, segments, prefix, key, value)
  {
    var i :| 0 <= i < |segments[1..]| && ReadSegment(h, segments[1..][i], prefix) == Ok(Some((key, value)));
    assert segments[1..][i] == segments[i + 1];
  }

  /** A reload never deletes a mirror entry. */
  lemma {:induction false} ReloadKeepsKeys(h: Host, mirror: map<string, string>, segments: seq<RawPair>, prefix: string)
    ensures mirror.Keys <= Reload(h, mirror, segments, prefix).mirror.Keys
    decreases |segments|
  {
    if segments != [] {
      var step := ReadSegment(h, segments[0], prefix);
      if step.Ok? && step.value.None? {
        ReloadKeepsKeys(h, mirror, segments[1..], prefix);
      } else if step.Ok? {
        var entry := step.value.value;
        ReloadKeepsKeys(h, mirror[entry.0 := entry.1], segments[1..], prefix);
      }
    }
  }

  /**
    Every entry a reload adds or changes comes from a segment whose trimmed raw
    name starts with the prefix; every other entry keeps its value.
  */
  lemma {:induction false} ReloadOnlyWritesPrefixed(h: Host, mirror: map<string, string>, segments: seq<RawPair>, prefix: string)
    ensures var m := Reload(h, mirror, segments, prefix).mirror;
      forall k :: k in m ==> (k in mirror && m[k] == mirror[k]) || Written(h, segments, prefix, k, m[k])
    decreases |segments|
  {
    if segments != [] {
      var m := Reload(h, mirror, segments, prefix).mirror;
      var step := ReadSegment(h, segments[0], prefix);
      if step.Ok? && step.value.None? {
        ReloadOnlyWritesPrefixed(h, mirror, segments[1..], prefix);
        forall k | k in m && !(k in mirror && m[k] == mirror[k])
          ensures Written(h, segments, prefix, k, m[k])
        {
          WrittenTail(h, segments, prefix, k, m[k]);
        }
      } else if step.Ok? {
        var entry := step.value.value;
        var next := mirror[entry.0 := entry.1];
        ReloadOnlyWritesPrefixed(h, next, segments[1..], prefix);
        forall k | k in m && !(k in mirror && m[k] == mirror[k])
          ensures Written(h, segments, prefix, k, m[k])
        {
          if k in next && m[k] == next[k] {
            assert ReadSegment(h, segments[0], prefix) == Ok(Some((k, m[k])));
          } else {
            WrittenTail(h, segments, prefix, k, m[k]);
          }
        }
      }
    }
  }

  /**
    `reloadItems` keeps only the text between the first and the second '=': of a
    segment `name=a=b` the value stored is the decoding of `a`.
  */
  lemma SecondEqualsTruncates(name: string, a: string, b: string)
    requires '=' !in name && '=' !in a && '=' !in b
    requires Trim(name + "=" + a + "=" + b) == name + "=" + a + "=" + b
    ensures ParseSegment(name + "=" + a + "=" + b) == RawPair(name, a)
  {
    var parts := [name, a, b];
    assert Join(parts, '=') == name + "=" + a + "=" + b by {
      assert Join(parts[1..], '=') == a + "=" + b by {
        assert parts[1..][1..] == [b];
      }
    }
    SplitJoin(parts, '=');
  }

  /**
    The lookup of `CookieStorage.getItem`: searches the header with the regex
    built from the escaped name and percent-decodes the captured value; null when
    no cookie has that name. Because the escaped name is a literal pattern, the
    search is for `fieldKey` itself.
  */
  function CookieRead(h: Host, cookie: string, fieldKey: string): (r: Result<Option<string>, Error>)
    ensures FindCookie(cookie, fieldKey).None? ==> r == Ok(None)
    ensures FindCookie(cookie, fieldKey).Some? ==>
      r == match h.decodeUri(FindCookie(cookie, fieldKey).value)
           case Some(v) => Ok(Some(v))
           case None => Err(UriMalformed)
  {
    var pattern := Escape(fieldKey);
    match FindCookie(cookie, Unescape(pattern))
    case None => Ok(None)
    case Some(raw) =>
      match h.decodeUri(raw)
      case Some(v) => Ok(Some(v))
      case None => Err(UriMalformed)
  }

  /**
    With the encode flag on and no passphrase, a cookie read is percent-decoded
    twice: once by the lookup and once more by the codec. The JSON text itself
    goes through decodeURIComponent: the read throws when that throws, and the
    round trip holds when it leaves the text unchanged.
  */
  lemma CookieReadDecodesTwice(h: Host, cookie: string, fieldKey: string, obj: JsValue, salt: Salt)
    requires Lawful(h) && !obj.Undefined? && Plain(obj)
    requires FindCookie(cookie, fieldKey) == Some(Codec.Encoder(h, obj, true, "", salt))
    ensures CookieRead(h, cookie, fieldKey) == Ok(Some(h.stringify(obj)))
    ensures Codec.Decoder(h, Some(h.stringify(obj)), true, "") ==
      match h.decodeUri(h.stringify(obj))
      case None => Err(UriMalformed)
      case Some(text) => Codec.Parse(h, text)
    ensures h.decodeUri(h.stringify(obj)) == Some(h.stringify(obj)) ==>
      Codec.Decoder(h, Some(h.stringify(obj)), true, "") == Ok(ToJson(h, obj))
  {
  }

  /**
    The cookie backend. Its own enumerable properties (`mirror`) are a snapshot of
    the cookies that `reloadItems` has seen; nothing ever deletes from it.
  */
  class CookieStorage {
    const document: Document
    const host: Host
    var mirror: map<string, string>

    constructor(document: Document, host: Host)
      ensures this.document == document && this.host == host && mirror == map[]
    {
      this.document := document;
      this.host := host;
      mirror := map[];
    }

    /** Re-parses the header and records every cookie whose raw name starts with `field + delimiter`. */
    method ReloadItems(field: string, delimiter: string) returns (failure: Option<Error>)
      modifies this
      ensures Reloaded(mirror, failure) == Reload(host, old(mirror), Segments(document.cookie), field + delimiter)
    {
      var prefix := field + delimiter;
      var pairs := Segments(document.cookie);
      var i := 0;
      while i < |pairs|
        invariant 0 <= i <= |pairs|
        invariant Reload(host, old(mirror), pairs, prefix) == Reload(host, mirror, pairs[i..], prefix)
      {
        var step := ReadSegment(host, pairs[i], prefix);
        ReloadUnfold(host, mirror, pairs, i, prefix);
        if step.Err? {
          return Some(step.error);
        }
        if step.value.Some? {
          mirror := mirror[step.value.value.0 := step.value.value.1];
        }
        i := i + 1;
      }
      return None;
    }

    /** Writes `fieldKey=value; path=/; expires=<exp>` to `document.cookie`. */
    method SetItem(fieldKey: string, value: string, exp: Expiry)
      modifies document
      ensures document.cookie == document.assign(old(document.cookie), CookieAssignment(fieldKey, value, ExpiryText(host, exp)))
    {
      document.SetCookie(CookieAssignment(fieldKey, value, ExpiryText(host, exp)));
    }

    /** `getItem`: the percent-decoded value of the cookie named `fieldKey`, or null. */
    function GetItem(fieldKey: string): (r: Result<Option<string>, Error>)
      reads this, document
      ensures r == CookieRead(host, document.cookie, fieldKey)
    {
      CookieRead(host, document.cookie, fieldKey)
    }

    /** Overwrites the cookie with an empty value expiring now; the mirror keeps its entry. */
    method RemoveItem(fieldKey: string, now: int)
      modifies document
      ensures document.cookie == document.assign(old(document.cookie), CookieAssignment(fieldKey, "", host.utcString(now)))
      ensures mirror == old(mirror)
    {
      SetItem(fieldKey, "", DateExpiry(now));
    }
  }
}
