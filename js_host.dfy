/**
  The JavaScript values the store serializes, and the host built-ins it calls
  (JSON, CryptoJS AES, encodeURIComponent/decodeURIComponent, Date strings).
  The built-ins are not reimplemented: a `Host` carries them as function values,
  and `Lawful` states the inverse laws the round-trip properties rely on.
*/
module JsHost {
  import opened Wrappers

  /** A property of a JavaScript object, in insertion order. */
  datatype Prop = Prop(name: string, value: JsValue)

  /** The JavaScript values a caller may store: plain data and Dates. */
  datatype JsValue =
    | Undefined
    | Null
    | Bool(b: bool)
    | Num(n: real)
    | Str(s: string)
    | Date(time: int)
    | Arr(items: seq<JsValue>)
    | Obj(props: seq<Prop>)

  /**
    The `expiry` argument of `setItem`: left out (undefined), a Date, or a text
    the caller already formatted.
  */
  datatype Expiry = NoExpiry | DateExpiry(time: int) | TextExpiry(text: string)
  {
    /** The JavaScript value the caller passed. */
    function Value(): JsValue
    {
      match this
      case NoExpiry => Undefined
      case DateExpiry(t) => Date(t)
      case TextExpiry(s) => Str(s)
    }
  }

  /** Exceptions a read can raise; each is distinguishable from a stored value. */
  datatype Error =
    | DecryptFailed   // CryptoJS could not decrypt, or its UTF-8 output was malformed
    | UriMalformed    // decodeURIComponent threw a URIError
    | ParseFailed     // JSON.parse threw a SyntaxError

  /**
    The random salt CryptoJS draws for each passphrase encryption (its OpenSSL
    key derivation); the caller supplies it, so the same text encrypts
    differently under different draws.
  */
  type Salt = seq<bv8>

  /** The host built-ins, as opaque functions supplied by the environment. */
  datatype Host = Host(
    stringify: JsValue -> string,             // JSON.stringify
    parse: string -> Option<JsValue>,         // JSON.parse, None when it throws
    encrypt: (string, string, Salt) -> string, // CryptoJS.AES.encrypt(text, passphrase).toString()
    decrypt: (string, string) -> Option<string>, // CryptoJS.AES.decrypt(..).toString(Utf8)
    encodeUri: string -> string,              // encodeURIComponent
    decodeUri: string -> Option<string>,      // decodeURIComponent, None on URIError
    isoString: int -> string,                 // Date.prototype.toISOString (used by toJSON)
    utcString: int -> string)                 // Date.prototype.toUTCString

  /** Object properties whose value JSON.stringify omits. */
  function DropUndefined(ps: seq<Prop>): (r: seq<Prop>)
    ensures forall i :: 0 <= i < |r| ==> !r[i].value.Undefined?
    ensures |r| <= |ps|
  {
    if ps == [] then []
    else if ps[0].value.Undefined? then DropUndefined(ps[1..])
    else [ps[0]] + DropUndefined(ps[1..])
  }

  /**
    The value JSON.parse gives back for the text JSON.stringify made of `v`:
    Dates become their ISO strings (Date.prototype.toJSON), undefined array
    slots become null, and undefined-valued object properties disappear.
  */
  function ToJson(h: Host, v: JsValue): JsValue
    decreases v
  {
    match v
    case Undefined => Null
    case Date(t) => Str(h.isoString(t))
    case Arr(xs) => Arr(seq(|xs|, i requires 0 <= i < |xs| => ToJson(h, xs[i])))
    case Obj(ps) =>
      Obj(DropUndefined(seq(|ps|, i requires 0 <= i < |ps| =>
        Prop(ps[i].name, if ps[i].value.Undefined? then Undefined else ToJson(h, ps[i].value)))))
    case _ => v
  }

  /** The largest distance from the epoch, in milliseconds, that a valid Date may have. */
  const MaxTime: int := 8_640_000_000_000_000

  /** The value of a text of decimal digits. */
  function DigitsValue(s: string): nat
    requires forall i :: 0 <= i < |s| ==> '0' <= s[i] <= '9'
  {
    if s == [] then 0 else DigitsValue(s[..|s| - 1]) * 10 + (s[|s| - 1] as int - '0' as int)
  }

  /** A property name that is an array index: a canonical decimal below 2^32 - 1. */
  predicate IsArrayIndex(name: string)
  {
    && |name| >= 1
    && (forall i :: 0 <= i < |name| ==> '0' <= name[i] <= '9')
    && (name[0] == '0' ==> |name| == 1)
    && DigitsValue(name) < 0xFFFF_FFFF
  }

  /** 2 to the power `e`, for every integer `e`. */
  function Pow2(e: int): (r: real)
    ensures r > 0.0
    decreases if e < 0 then -e else e
  {
    if e == 0 then 1.0 else if e > 0 then 2.0 * Pow2(e - 1) else Pow2(e + 1) / 2.0
  }

  /** The number `m * 2^e`. */
  function Scaled(m: int, e: int): real
  {
    m as real * Pow2(e)
  }

  /**
    A finite IEEE 754 double: a significand below 2^53 in magnitude times a power
    of two between the subnormal 2^-1074 and 2^971.
  */
  ghost predicate IsDouble(n: real)
  {
    exists m: int, e: int :: -0x20_0000_0000_0000 < m < 0x20_0000_0000_0000 && -1074 <= e <= 971 && n == Scaled(m, e)
  }

  /** 2 to the power `k`, as a natural number. */
  function Pow2Nat(k: nat): (r: nat)
    ensures r >= 1
  {
    if k == 0 then 1 else 2 * Pow2Nat(k - 1)
  }

  /** A power of two is never a multiple of three. */
  lemma {:induction false} Pow2NatNotThird(k: nat)
    ensures Pow2Nat(k) % 3 != 0
  {
    if k > 0 {
      Pow2NatNotThird(k - 1);
    }
  }

  /** `Pow2` at a non-negative exponent is the natural power. */
  lemma {:induction false} Pow2Up(k: nat)
    ensures Pow2(k) == Pow2Nat(k) as real
  {
    if k > 0 {
      Pow2Up(k - 1);
    }
  }

  /** `Pow2` at a non-positive exponent is the reciprocal of the natural power. */
  lemma {:induction false} Pow2Down(e: int)
    requires e <= 0
    decreases -e
    ensures Pow2(e) * Pow2Nat(-e) as real == 1.0
  {
    if e < 0 {
      Pow2Down(e + 1);
      assert Pow2Nat(-e) == 2 * Pow2Nat(-e - 1);
    }
  }

  /** An integer times a natural number is not one third. */
  lemma ProductNotThird(m: int, p: nat, x: real)
    requires x == p as real
    ensures m as real * x != 1.0 / 3.0
  {
    var q := m * p;
    assert m as real * x == q as real;
  }

  /** An integer over a power of two that is not a multiple of three is not one third. */
  lemma QuotientNotThird(m: int, p: nat, x: real)
    requires x * p as real == 1.0 && p % 3 != 0
    ensures m as real * x != 1.0 / 3.0
  {
    if m as real * x == 1.0 / 3.0 {
      calc {
        (3 * m) as real;
        3.0 * m as real * (x * p as real);
        3.0 * (m as real * x) * p as real;
        p as real;
      }
    }
  }

  /**
    One third is not a double, so `Plain` does not admit it and the JSON law
    says nothing about it: a host that prints the nearest double's digits can be
    lawful.
  */
  lemma ThirdIsNotDouble()
    ensures !Plain(Num(1.0 / 3.0))
  {
    forall m: int, e: int
      ensures Scaled(m, e) != 1.0 / 3.0
    {
      ScaledNotThird(m, e);
    }
  }

  /** No significand times a power of two is one third. */
  lemma ScaledNotThird(m: int, e: int)
    ensures Scaled(m, e) != 1.0 / 3.0
  {
    var x := Pow2(e);
    assert Scaled(m, e) == m as real * x;
    if e >= 0 {
      Pow2Up(e);
      ProductNotThird(m, Pow2Nat(e), x);
    } else {
      Pow2Down(e);
      Pow2NatNotThird(-e);
      QuotientNotThird(m, Pow2Nat(-e), x);
    }
  }

  /**
    A value some JavaScript value corresponds to: every number is a double,
    every Date is valid (its `toISOString` does not throw), and in every object
    the property names are distinct and in the order JavaScript lists own keys,
    array indices first in ascending order.
  */
  ghost predicate Plain(v: JsValue)
    decreases v
  {
    match v
    case Num(n) => IsDouble(n)
    case Date(t) => -MaxTime <= t <= MaxTime
    case Arr(xs) => forall i :: 0 <= i < |xs| ==> Plain(xs[i])
    case Obj(ps) =>
      && (forall i, j :: 0 <= i < j < |ps| ==> ps[i].name != ps[j].name)
      && (forall i, j :: 0 <= i < j < |ps| && IsArrayIndex(ps[j].name) ==>
            IsArrayIndex(ps[i].name) && DigitsValue(ps[i].name) < DigitsValue(ps[j].name))
      && (forall i :: 0 <= i < |ps| ==> Plain(ps[i].value))
    case _ => true
  }

  /**
    What `null` becomes when a built-in converts it to a string: the text "null",
    which passes decodeURIComponent unchanged and parses to null.
  */
  ghost predicate NullLaws(h: Host)
  {
    && h.decodeUri("null") == Some("null")
    && h.parse("null") == Some(Null)
  }

  /**
    The inverse laws of the host built-ins: JSON.parse undoes JSON.stringify on
    plain values (up to `ToJson`), AES decryption with the same non-empty
    passphrase undoes encryption under every salt, decodeURIComponent undoes
    encodeURIComponent, and the laws of the text "null". Nothing is assumed about
    decryption with a different passphrase.
  */
  ghost predicate Lawful(h: Host)
  {
    && (forall v: JsValue :: !v.Undefined? && Plain(v) ==> h.parse(h.stringify(v)) == Some(ToJson(h, v)))
    && (forall s: string, k: string, salt: Salt :: k != "" ==> h.decrypt(h.encrypt(s, k, salt), k) == Some(s))
    && (forall s: string :: h.decodeUri(h.encodeUri(s)) == Some(s))
    && NullLaws(h)
  }
}
