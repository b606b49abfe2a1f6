/**
  The `Storage` facade: one backend chosen at construction, a codec
  configuration (encode flag, passphrase) and a field delimiter. Every entry
  lives at the composite key `field + delimiter + key`; the bulk operations
  address every backend key that starts with `field + delimiter`.
*/
module DataStorage {
  import opened Wrappers
  import opened JsHost
  import opened Codec
  import opened CookieText
  import opened Backends

  /** The four names the constructor accepts. */
  datatype Kind = Session | Local | Memory | Cookie

  /** The backend a facade talks to, tagged by kind (the source tests `instanceof CookieStorage`). */
  datatype Backend =
    | SessionBackend(native: NativeStorage)
    | LocalBackend(native: NativeStorage)
    | MemoryBackend(memory: MemoryStorage)
    | CookieBackend(cookies: CookieStorage)
  {
    /** The objects whose state the backend's operations may change. */
    function Objects(): set<object>
    {
      match this
      case SessionBackend(n) => {n}
      case LocalBackend(n) => {n}
      case MemoryBackend(m) => {m}
      case CookieBackend(c) => {c, c.document}
    }

    /** The objects `getItems` may change: only the cookie mirror, when it reloads. */
    function MirrorObjects(): set<object>
    {
      if CookieBackend? then {cookies} else {}
    }
  }

  /** The backend-visible key of `key` in the namespace `field`. */
  function CompositeKey(field: string, delimiter: string, key: string): (k: string)
    ensures field + delimiter <= k && k[|field + delimiter|..] == key
  {
    field + delimiter + key
  }

  /** `Object.keys(storage).filter(k => k.startsWith(prefix))`. */
  function Prefixed(keys: set<string>, prefix: string): (r: set<string>)
    ensures r <= keys
    ensures forall k :: k in keys ==> (k in r <==> prefix <= k)
  {
    set k | k in keys && prefix <= k
  }

  /** The entries of `m` outside the namespace `prefix`. */
  function WithoutPrefix(m: map<string, string>, prefix: string): (r: map<string, string>)
    ensures r.Keys == m.Keys - Prefixed(m.Keys, prefix)
    ensures forall k :: k in r ==> r[k] == m[k]
  {
    map k | k in m && !(prefix <= k) :: m[k]
  }

  /**
    The payload stored for a value: `{value, exp}`, or only `{value}` for the
    cookie backend, whose expiry goes into the cookie itself.
  */
  function Envelope(forCookie: bool, value: JsValue, expiry: Expiry): (env: JsValue)
    ensures env.Obj? && |env.props| >= 1 && env.props[0] == Prop("value", value)
    ensures |env.props| == if forCookie then 1 else 2
    ensures !forCookie ==> env.props[1] == Prop("exp", expiry.Value())
  {
    if forCookie then Obj([Prop("value", value)])
    else Obj([Prop("value", value), Prop("exp", expiry.Value())])
  }

  /** The envelope of a plain value and a plain expiry is plain: two distinct, non-index names. */
  lemma EnvelopePlain(forCookie: bool, value: JsValue, expiry: Expiry)
    requires Plain(value) && Plain(expiry.Value())
    ensures Plain(Envelope(forCookie, value, expiry))
  {
    assert !IsArrayIndex("value") && !IsArrayIndex("exp");
  }

  /**
    What the cookie header becomes when the keys of `removed` are expired one
    after the other, each with `expires` as its date.
  */
  function ExpireAll(assign: (string, string) -> string, cookie: string, removed: seq<string>, expires: string): string
  {
    if removed == [] then cookie
    else assign(ExpireAll(assign, cookie, removed[..|removed| - 1], expires),
                CookieAssignment(removed[|removed| - 1], "", expires))
  }

  /** Two namespaces whose names do not contain the delimiter's first character never share a key. */
  lemma FieldsDoNotCollide(field: string, other: string, delimiter: string, key: string)
    requires delimiter != []
    requires delimiter[0] !in field && delimiter[0] !in other
    requires other + delimiter <= CompositeKey(field, delimiter, key)
    ensures other == field
  {
    var k := CompositeKey(field, delimiter, key);
    var c := delimiter[0];
    assert k == field + [c] + (delimiter[1..] + key);
    FirstIndexAfter(field, c, delimiter[1..] + key);
    var n := |other + delimiter|;
    assert k == other + [c] + (delimiter[1..] + k[n..]);
    FirstIndexAfter(other, c, delimiter[1..] + k[n..]);
    assert field == k[..|field|] && other == k[..|other|];
  }

  /** The position of the first `c` in `s`, or `|s|` when there is none. */
  function FirstIndexOf(s: string, c: char): (i: nat)
    ensures i <= |s| && c !in s[..i]
    ensures i < |s| ==> s[i] == c
  {
    if s == [] then 0
    else if s[0] == c then 0
    else 1 + FirstIndexOf(s[1..], c)
  }

  /** In `p + [c] + rest` with no `c` in `p`, the first `c` is right after `p`. */
  lemma {:induction false} FirstIndexAfter(p: string, c: char, rest: string)
    requires c !in p
    ensures FirstIndexOf(p + [c] + rest, c) == |p|
  {
    if p != [] {
      assert (p + [c] + rest)[1..] == p[1..] + [c] + rest;
      FirstIndexAfter(p[1..], c, rest);
    }
  }

  /**
    After the delimiter changes to one with a different first character, an entry
    written under the old delimiter is outside its field's namespace.
  */
  lemma DelimiterChangeHidesEntries(field: string, oldDelimiter: string, newDelimiter: string, key: string)
    requires oldDelimiter != [] && newDelimiter != [] && oldDelimiter[0] != newDelimiter[0]
    ensures !(field + newDelimiter <= CompositeKey(field, oldDelimiter, key))
  {
    var k := CompositeKey(field, oldDelimiter, key);
    assert k[|field|] == oldDelimiter[0];
    assert (field + newDelimiter)[|field|] == newDelimiter[0];
  }

  /**
    Reading a key nobody wrote (from a map backend) yields the JSON value null
    without a passphrase, and throws with one.
  */
  lemma AbsentKeyReadsNull(s: Storage, field: string, key: string)
    requires NullLaws(s.host) && !s.backend.CookieBackend?
    requires CompositeKey(field, s.delimiter, key) !in s.Items()
    ensures s.encryptKey == "" ==> s.GetItem(field, key) == Ok(Null)
    ensures s.encryptKey != "" ==> s.GetItem(field, key) == Err(DecryptFailed)
  {
    DecodeAbsent(s.host, s.encode, s.encryptKey);
  }

  /**
    A map-backend entry holding the encoding of a plain value reads back, through
    `getItem`, as the value JSON keeps of it.
  */
  lemma ReadsBackEncoded(s: Storage, field: string, key: string, v: JsValue, salt: Salt)
    requires Lawful(s.host) && !v.Undefined? && Plain(v) && !s.backend.CookieBackend?
    requires var k := CompositeKey(field, s.delimiter, key);
      k in s.Items() && s.Items()[k] == Encoder(s.host, v, s.encode, s.encryptKey, salt)
    requires s.backend.MemoryBackend? ==> Encoder(s.host, v, s.encode, s.encryptKey, salt) != ""
    ensures s.GetItem(field, key) == Ok(ToJson(s.host, v))
  {
    RoundTrip(s.host, v, s.encode, s.encryptKey, salt);
  }

  /**
    `r` is what decoding every entry of `items` under `prefix` gives: the map from
    each such key to its decoded value when all of them decode, otherwise the
    error one of them raises.
  */
  ghost predicate DecodedItems(h: Host, items: map<string, string>, prefix: string, encode: bool, encryptKey: string,
                               r: Result<map<string, JsValue>, Error>)
  {
    && (r.Ok? <==> forall k :: k in items && prefix <= k ==> Decoder(h, Some(items[k]), encode, encryptKey).Ok?)
    && (r.Ok? ==> r.value.Keys == Prefixed(items.Keys, prefix))
    && (r.Ok? ==> forall k :: k in r.value ==> k in items && Decoder(h, Some(items[k]), encode, encryptKey) == Ok(r.value[k]))
    && (r.Err? ==> exists k :: k in items && prefix <= k && Decoder(h, Some(items[k]), encode, encryptKey) == Err(r.error))
  }

  class Storage {
    const backend: Backend
    const host: Host
    var encode: bool
    var delimiter: string
    var encryptKey: string

    /** The delimiter is never empty: it starts as "." and `SetDelimiter` ignores "". */
    ghost predicate Valid()
      reads this
    {
      && delimiter != ""
      && (backend.CookieBackend? ==> backend.cookies.host == host)
    }

    /** `new Storage(kind)`: encode on, no passphrase, delimiter ".". */
    constructor(kind: Kind, session: NativeStorage, local: NativeStorage, document: Document, host: Host)
      ensures Valid()
      ensures encode && encryptKey == "" && delimiter == "." && this.host == host
      ensures kind == Session ==> backend == SessionBackend(session)
      ensures kind == Local ==> backend == LocalBackend(local)
      ensures kind == Memory ==> backend.MemoryBackend? && fresh(backend.memory) && backend.memory.items == map[]
      ensures kind == Cookie ==> backend.CookieBackend? && fresh(backend.cookies) && backend.cookies.mirror == map[]
      ensures kind == Cookie ==> backend.cookies.document == document && backend.cookies.host == host
    {
      this.host := host;
      encode := true;
      delimiter := ".";
      encryptKey := "";
      match kind
      case Session => backend := SessionBackend(session);
      case Local => backend := LocalBackend(local);
      case Memory =>
        var m := new MemoryStorage();
        backend := MemoryBackend(m);
      case Cookie =>
        var c := new CookieStorage(document, host);
        backend := CookieBackend(c);
    }

    /** The backend's own enumerable keys and their stored strings. */
    function Items(): map<string, string>
      reads this, backend.Objects()
    {
      match backend
      case SessionBackend(n) => n.items
      case LocalBackend(n) => n.items
      case MemoryBackend(m) => m.items
      case CookieBackend(c) => c.mirror
    }

    /** `this.storage.getItem(k)`: the raw stored string, null, or a URIError from the cookie backend. */
    function Read(k: string): (r: Result<Option<string>, Error>)
      reads this, backend.Objects()
      ensures !backend.CookieBackend? ==> r.Ok?
      ensures (backend.SessionBackend? || backend.LocalBackend?) ==>
        r == Ok(if k in Items() then Some(Items()[k]) else None)
      ensures backend.MemoryBackend? ==> r == Ok(MemoryRead(Items(), k))
      ensures backend.CookieBackend? ==> r == CookieRead(backend.cookies.host, backend.cookies.document.cookie, k)
    {
      match backend
      case SessionBackend(n) => Ok(n.GetItem(k))
      case LocalBackend(n) => Ok(n.GetItem(k))
      case MemoryBackend(m) => Ok(m.GetItem(k))
      case CookieBackend(c) => c.GetItem(k)
    }

    method SetEncryptKey(passphrase: string)
      requires Valid()
      modifies this
      ensures Valid()
      ensures encryptKey == passphrase && encode == old(encode) && delimiter == old(delimiter)
    {
      encryptKey := passphrase;
    }

    method SetEncode(encode: bool)
      requires Valid()
      modifies this
      ensures Valid()
      ensures this.encode == encode && encryptKey == old(encryptKey) && delimiter == old(delimiter)
    {
      this.encode := encode;
    }

    /** A falsy (empty) delimiter is ignored and the previous one stays in place. */
    method SetDelimiter(delimiter: string)
      requires Valid()
      modifies this
      ensures Valid()
      ensures delimiter != "" ==> this.delimiter == delimiter
      ensures delimiter == "" ==> this.delimiter == old(this.delimiter)
      ensures encode == old(encode) && encryptKey == old(encryptKey)
    {
      if delimiter != "" {
        this.delimiter := delimiter;
      }
    }

    /** `this.storage.setItem(k, text, expiry)`, dispatched on the backend. */
    method WriteKey(k: string, text: string, expiry: Expiry)
      modifies backend.Objects()
      ensures !backend.CookieBackend? ==> Items() == old(Items())[k := text]
      ensures backend.CookieBackend? ==> Items() == old(Items())
      ensures backend.CookieBackend? ==>
        backend.cookies.document.cookie ==
          backend.cookies.document.assign(old(backend.cookies.document.cookie),
                                          CookieAssignment(k, text, ExpiryText(backend.cookies.host, expiry)))
    {
      match backend
      case SessionBackend(n) => n.SetItem(k, text);
      case LocalBackend(n) => n.SetItem(k, text);
      case MemoryBackend(m) => m.SetItem(k, text);
      case CookieBackend(c) => c.SetItem(k, text, expiry);
    }

    /** `this.storage.removeItem(k)`, dispatched on the backend; `now` is the cookie backend's clock. */
    method RemoveKey(k: string, now: int)
      modifies backend.Objects()
      ensures !backend.CookieBackend? ==> Items() == old(Items()) - {k}
      ensures backend.CookieBackend? ==> Items() == old(Items())
      ensures backend.CookieBackend? ==>
        backend.cookies.document.cookie ==
          backend.cookies.document.assign(old(backend.cookies.document.cookie),
                                          CookieAssignment(k, "", backend.cookies.host.utcString(now)))
    {
      match backend
      case SessionBackend(n) => n.RemoveItem(k);
      case LocalBackend(n) => n.RemoveItem(k);
      case MemoryBackend(m) => m.RemoveItem(k);
      case CookieBackend(c) => c.RemoveItem(k, now);
    }

    /**
      Stores the encoded envelope at exactly `field + delimiter + key`; no other
      entry changes. `salt` is the random draw of an encryption. When the host
      built-ins obey their inverse laws and the value and expiry are plain, the
      entry reads back as the envelope JSON keeps (for the memory backend, unless
      the encoded text is empty).
    */
    method SetItem(field: string, key: string, value: JsValue, expiry: Expiry, salt: Salt)
      requires Valid()
      modifies backend.Objects()
      ensures Valid() && encode == old(encode) && delimiter == old(delimiter) && encryptKey == old(encryptKey)
      ensures var text := Encoder(host, Envelope(backend.CookieBackend?, value, expiry), encode, encryptKey, salt);
        !backend.CookieBackend? ==> Items() == old(Items())[CompositeKey(field, delimiter, key) := text]
      ensures var text := Encoder(host, Envelope(backend.CookieBackend?, value, expiry), encode, encryptKey, salt);
        backend.CookieBackend? ==>
          && Items() == old(Items())
          && backend.cookies.document.cookie ==
               backend.cookies.document.assign(old(backend.cookies.document.cookie),
                 CookieAssignment(CompositeKey(field, delimiter, key), text, ExpiryText(backend.cookies.host, expiry)))
      ensures var env := Envelope(backend.CookieBackend?, value, expiry);
        && Lawful(host) && Plain(value) && Plain(expiry.Value())
        && !backend.CookieBackend? && (backend.MemoryBackend? ==> Encoder(host, env, encode, encryptKey, salt) != "")
        ==> GetItem(field, key) == Ok(ToJson(host, env))
    {
      var env := Envelope(backend.CookieBackend?, value, expiry);
      var text := Encoder(host, env, encode, encryptKey, salt);
      WriteKey(CompositeKey(field, delimiter, key), text, expiry);
      if Lawful(host) && Plain(value) && Plain(expiry.Value()) && !backend.CookieBackend?
         && (backend.MemoryBackend? ==> text != "") {
        EnvelopePlain(false, value, expiry);
        ReadsBackEncoded(this, field, key, env, salt);
      }
    }

    /**
      Reads `field + delimiter + key` and decodes it: the whole envelope, not its
      `value`. An absent key is decoded as `null`.
    */
    function GetItem(field: string, key: string): (r: Result<JsValue, Error>)
      reads this, backend.Objects()
      ensures Read(CompositeKey(field, delimiter, key)).Err? ==> r == Err(Read(CompositeKey(field, delimiter, key)).error)
      ensures Read(CompositeKey(field, delimiter, key)).Ok? ==>
        r == Decoder(host, Read(CompositeKey(field, delimiter, key)).value, encode, encryptKey)
      ensures (backend.SessionBackend? || backend.LocalBackend?) ==>
        r == Decoder(host, if CompositeKey(field, delimiter, key) in Items() then Some(Items()[CompositeKey(field, delimiter, key)]) else None, encode, encryptKey)
      ensures backend.MemoryBackend? ==> r == Decoder(host, MemoryRead(Items(), CompositeKey(field, delimiter, key)), encode, encryptKey)
    {
      match Read(CompositeKey(field, delimiter, key))
      case Err(e) => Err(e)
      case Ok(raw) => Decoder(host, raw, encode, encryptKey)
    }

    /** Removes exactly `field + delimiter + key` (for cookies: expires it now). */
    method RemoveItem(field: string, key: string, now: int)
      requires Valid()
      modifies backend.Objects()
      ensures Valid() && encode == old(encode) && delimiter == old(delimiter) && encryptKey == old(encryptKey)
      ensures !backend.CookieBackend? ==> Items() == old(Items()) - {CompositeKey(field, delimiter, key)}
      ensures backend.CookieBackend? ==>
        && Items() == old(Items())
        && backend.cookies.document.cookie ==
             backend.cookies.document.assign(old(backend.cookies.document.cookie),
               CookieAssignment(CompositeKey(field, delimiter, key), "", backend.cookies.host.utcString(now)))
    {
      RemoveKey(CompositeKey(field, delimiter, key), now);
    }

    /**
      Deletes every backend key that starts with `field + delimiter` and nothing
      else. The cookie backend first reloads its mirror (a URIError there stops the
      call), then expires each prefixed cookie; its mirror keeps those entries.
      `removed` is the order in which the keys were expired.
    */
    method RemoveItems(field: string, now: int) returns (failure: Option<Error>, ghost removed: seq<string>)
      requires Valid()
      modifies backend.Objects()
      ensures Valid() && encode == old(encode) && delimiter == old(delimiter) && encryptKey == old(encryptKey)
      ensures !backend.CookieBackend? ==> failure == None && Items() == WithoutPrefix(old(Items()), field + delimiter)
      ensures backend.CookieBackend? ==>
        var R := Reload(host, old(Items()), Segments(old(backend.cookies.document.cookie)), field + delimiter);
        && Items() == R.mirror
        && failure == R.failure
        && (failure.Some? ==> backend.cookies.document.cookie == old(backend.cookies.document.cookie))
        && (failure.None? ==> forall k :: k in removed <==> k in Prefixed(R.mirror.Keys, field + delimiter))
        && (failure.None? ==>
              backend.cookies.document.cookie ==
              ExpireAll(backend.cookies.document.assign, old(backend.cookies.document.cookie), removed, host.utcString(now)))
      ensures forall i, j :: 0 <= i < j < |removed| ==> removed[i] != removed[j]
    {
      removed := [];
      failure := None;
      if backend.CookieBackend? {
        failure := backend.cookies.ReloadItems(field, delimiter);
        if failure.Some? {
          return;
        }
      }
      removed := ExpirePrefixed(field + delimiter, now);
    }

    /**
      The loop of `removeItems`: removes, or for cookies expires, every key that
      starts with `prefix`, in the order given by `removed`.
    */
    method ExpirePrefixed(prefix: string, now: int) returns (ghost removed: seq<string>)
      modifies backend.Objects()
      ensures !backend.CookieBackend? ==> Items() == WithoutPrefix(old(Items()), prefix)
      ensures backend.CookieBackend? ==>
        && Items() == old(Items())
        && (forall k :: k in removed <==> k in Prefixed(old(Items()).Keys, prefix))
        && backend.cookies.document.cookie ==
             ExpireAll(backend.cookies.document.assign, old(backend.cookies.document.cookie), removed, backend.cookies.host.utcString(now))
      ensures forall i, j :: 0 <= i < j < |removed| ==> removed[i] != removed[j]
    {
      removed := [];
      ghost var start := Items();
      ghost var jar := if backend.CookieBackend? then backend.cookies.document.cookie else "";
      var keys := Prefixed(Items().Keys, prefix);
      while keys != {}
        invariant keys <= Prefixed(start.Keys, prefix)
        invariant forall k :: k in removed <==> k in Prefixed(start.Keys, prefix) && k !in keys
        invariant forall i, j :: 0 <= i < j < |removed| ==> removed[i] != removed[j]
        invariant !backend.CookieBackend? ==> Items() == start - (Prefixed(start.Keys, prefix) - keys)
        invariant backend.CookieBackend? ==> Items() == start
        invariant backend.CookieBackend? ==>
          backend.cookies.document.cookie == ExpireAll(backend.cookies.document.assign, jar, removed, backend.cookies.host.utcString(now))
        decreases keys
      {
        var k :| k in keys;
        RemoveKey(k, now);
        keys := keys - {k};
        removed := removed + [k];
      }
      assert !backend.CookieBackend? ==> Items() == WithoutPrefix(start, prefix);
    }

    /**
      The loop of `getItems`: decodes every entry of `items` whose key starts with
      `prefix`. A decoding error aborts the whole call.
    */
    method DecodeAll(items: map<string, string>, prefix: string) returns (r: Result<map<string, JsValue>, Error>)
      ensures DecodedItems(host, items, prefix, encode, encryptKey, r)
    {
      var keys := Prefixed(items.Keys, prefix);
      var results: map<string, JsValue> := map[];
      while keys != {}
        invariant keys <= Prefixed(items.Keys, prefix)
        invariant results.Keys == Prefixed(items.Keys, prefix) - keys
        invariant forall k :: k in results ==> Decoder(host, Some(items[k]), encode, encryptKey) == Ok(results[k])
        decreases keys
      {
        var k :| k in keys;
        var decoded := Decoder(host, Some(items[k]), encode, encryptKey);
        if decoded.Err? {
          return Err(decoded.error);
        }
        results := results[k := decoded.value];
        keys := keys - {k};
      }
      return Ok(results);
    }

    /**
      Decodes every entry in the namespace `field`, keyed by its composite key.
      Only the cookie backend changes anything: it reloads its mirror first.
    */
    method GetItems(field: string) returns (r: Result<map<string, JsValue>, Error>)
      requires Valid()
      modifies backend.MirrorObjects()
      ensures Valid() && encode == old(encode) && delimiter == old(delimiter) && encryptKey == old(encryptKey)
      ensures !backend.CookieBackend? ==> Items() == old(Items())
      ensures !backend.CookieBackend? ==> DecodedItems(host, Items(), field + delimiter, encode, encryptKey, r)
      ensures backend.CookieBackend? ==>
        var R := Reload(host, old(Items()), Segments(backend.cookies.document.cookie), field + delimiter);
        && Items() == R.mirror
        && (R.failure.Some? ==> r == Err(R.failure.value))
        && (R.failure.None? ==> DecodedItems(host, Items(), field + delimiter, encode, encryptKey, r))
    {
      if backend.CookieBackend? {
        var failure := backend.cookies.ReloadItems(field, delimiter);
        if failure.Some? {
          return Err(failure.value);
        }
      }
      r := DecodeAll(Items(), field + delimiter);
    }
  }
}
