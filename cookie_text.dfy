/**
  The string side of the cookie backend: `String.prototype.split` on one
  character, `trim`, the regex-metacharacter escaping of a cookie name, the
  search `(?:^|; )name=([^;]*)` over the cookie header, and the text assigned
  to `document.cookie`.
*/
module CookieText {
  import opened Wrappers

  // ---------------------------------------------------------------- split / join

  /** `s.split(sep)` for a one-character separator: never empty, "" gives [""]. */
  function Split(s: string, sep: char): (parts: seq<string>)
    ensures |parts| >= 1
    ensures forall i :: 0 <= i < |parts| ==> sep !in parts[i]
    ensures |parts| == 1 <==> sep !in s
  {
    if s == [] then [""]
    else
      var rest := Split(s[1..], sep);
      if s[0] == sep then [""] + rest
      else [[s[0]] + rest[0]] + rest[1..]
  }

  /** `parts.join(sep)`. */
  function Join(parts: seq<string>, sep: char): string
    requires |parts| >= 1
  {
    if |parts| == 1 then parts[0] else parts[0] + [sep] + Join(parts[1..], sep)
  }

  /** Joining the pieces of a split gives back the original text. */
  lemma {:induction false} JoinSplit(s: string, sep: char)
    ensures Join(Split(s, sep), sep) == s
  {
    if s != [] {
      var rest := Split(s[1..], sep);
      JoinSplit(s[1..], sep);
      if s[0] == sep {
        assert Split(s, sep)[1..] == rest;
      } else {
        var parts := Split(s, sep);
        if |rest| == 1 {
          assert parts == [[s[0]] + rest[0]];
        } else {
          assert parts[1..] == rest[1..];
          assert Join(rest, sep) == rest[0] + [sep] + Join(rest[1..], sep);
        }
      }
    }
  }

  /** Splitting a join of separator-free pieces gives back the pieces. */
  lemma {:induction false} SplitJoin(parts: seq<string>, sep: char)
    requires |parts| >= 1
    requires forall i :: 0 <= i < |parts| ==> sep !in parts[i]
    ensures Split(Join(parts, sep), sep) == parts
  {
    if |parts| == 1 {
      SplitNoSep(parts[0], sep);
    } else {
      var tail := Join(parts[1..], sep);
      SplitJoin(parts[1..], sep);
      SplitAfterPiece(parts[0], sep, tail);
      assert [parts[0]] + parts[1..] == parts;
    }
  }

  /** A text without the separator splits into itself. */
  lemma {:induction false} SplitNoSep(s: string, sep: char)
    requires sep !in s
    ensures Split(s, sep) == [s]
  {
    if s != [] {
      SplitNoSep(s[1..], sep);
      assert [s[0]] + s[1..] == s;
    }
  }

  /** A separator-free piece followed by the separator starts a new part. */
  lemma {:induction false} SplitAfterPiece(piece: string, sep: char, tail: string)
    requires sep !in piece
    ensures Split(piece + [sep] + tail, sep) == [piece] + Split(tail, sep)
  {
    if piece == [] {
      assert piece + [sep] + tail == [sep] + tail;
      assert ([sep] + tail)[1..] == tail;
    } else {
      assert (piece + [sep] + tail)[1..] == piece[1..] + [sep] + tail;
      SplitAfterPiece(piece[1..], sep, tail);
      assert [piece[0]] + piece[1..] == piece;
    }
  }

  // ---------------------------------------------------------------- trim

  /** ECMAScript WhiteSpace and LineTerminator code points, the set `trim` removes. */
  predicate IsJsSpace(c: char)
  {
    || c == '\t' || c == '\n' || c == '\U{000B}' || c == '\U{000C}' || c == '\r' || c == ' '
    || c == '\U{00A0}' || c == '\U{1680}' || ('\U{2000}' <= c <= '\U{200A}')
    || c == '\U{2028}' || c == '\U{2029}' || c == '\U{202F}' || c == '\U{205F}'
    || c == '\U{3000}' || c == '\U{FEFF}'
  }

  /** Drops leading white space. */
  function TrimStart(s: string): string
  {
    if s != [] && IsJsSpace(s[0]) then TrimStart(s[1..]) else s
  }

  /** Drops trailing white space. */
  function TrimEnd(s: string): string
  {
    if s != [] && IsJsSpace(s[|s| - 1]) then TrimEnd(s[..|s| - 1]) else s
  }

  /** `s.trim()`: never longer than `s`, and free of white space at both ends. */
  function Trim(s: string): (r: string)
    ensures |r| <= |s|
    ensures r == [] || (!IsJsSpace(r[0]) && !IsJsSpace(r[|r| - 1]))
  {
    TrimStartSpec(s);
    TrimEndSpec(TrimStart(s));
    var r := TrimEnd(TrimStart(s));
    assert r != [] ==> r[0] == TrimStart(s)[0];
    r
  }

  /** `TrimStart` keeps the longest suffix that does not start with white space. */
  lemma {:induction false} TrimStartSpec(s: string)
    ensures var r := TrimStart(s);
      && |r| <= |s| && r == s[|s| - |r|..]
      && (forall i :: 0 <= i < |s| - |r| ==> IsJsSpace(s[i]))
      && (r == [] || !IsJsSpace(r[0]))
  {
    if s != [] && IsJsSpace(s[0]) {
      TrimStartSpec(s[1..]);
      var r := TrimStart(s);
      forall i | 0 <= i < |s| - |r|
        ensures IsJsSpace(s[i])
      {
        if i > 0 {
          assert s[i] == s[1..][i - 1];
        }
      }
    }
  }

  /** `TrimEnd` keeps the longest prefix that does not end with white space. */
  lemma {:induction false} TrimEndSpec(s: string)
    ensures var r := TrimEnd(s);
      && |r| <= |s| && r == s[..|r|]
      && (forall i :: |r| <= i < |s| ==> IsJsSpace(s[i]))
      && (r == [] || !IsJsSpace(r[|r| - 1]))
  {
    if s != [] && IsJsSpace(s[|s| - 1]) {
      TrimEndSpec(s[..|s| - 1]);
      var r := TrimEnd(s);
      forall i | |r| <= i < |s|
        ensures IsJsSpace(s[i])
      {
        if i < |s| - 1 {
          assert s[i] == s[..|s| - 1][i];
        }
      }
    }
  }

  /** `trim` drops white space at both ends and keeps the text in between. */
  lemma TrimSpec(s: string)
    ensures var r, k := Trim(s), |s| - |TrimStart(s)|;
      && 0 <= k <= |s| - |r| && r == s[k..k + |r|]
      && (forall i :: 0 <= i < k ==> IsJsSpace(s[i]))
      && (forall i :: k + |r| <= i < |s| ==> IsJsSpace(s[i]))
  {
    var t := TrimStart(s);
    TrimStartSpec(s);
    TrimEndSpec(t);
    var r := Trim(s);
    var k := |s| - |t|;
    if r != [] {
      assert r[0] == t[0];
    }
    assert r == s[k..k + |r|];
    forall i | k + |r| <= i < |s|
      ensures IsJsSpace(s[i])
    {
      assert s[i] == t[i - k];
    }
  }

  // ---------------------------------------------------------------- escaping

  /** The characters the cookie lookup escapes: `. $ ? * | { } ( ) [ ] \ / + ^`. */
  predicate IsMeta(c: char)
  {
    c in ".$?*|{}()[]\\/+^"
  }

  /**
    `name.replace(/([\.$?*|{}\(\)\[\]\\\/\+^])/g, '\\$1')`: the result is a literal
    pattern, and removing the inserted backslashes gives back the name.
  */
  function Escape(name: string): (pattern: string)
    ensures IsLiteralPattern(pattern) && Unescape(pattern) == name
  {
    if name == [] then []
    else
      var head := if IsMeta(name[0]) then ['\\', name[0]] else [name[0]];
      var rest := Escape(name[1..]);
      assert (head + rest)[|head|..] == rest;
      assert IsMeta(name[0]) || name[0] != '\\';
      head + rest
  }

  /** Removes one backslash before every character it precedes. */
  function Unescape(pattern: string): string
  {
    if pattern == [] then []
    else if pattern[0] == '\\' && |pattern| >= 2 then [pattern[1]] + Unescape(pattern[2..])
    else [pattern[0]] + Unescape(pattern[1..])
  }

  /**
    A regex source that matches only one literal text: every metacharacter of the
    escaped set stands right after a backslash, and no other character does.
  */
  predicate IsLiteralPattern(pattern: string)
  {
    if pattern == [] then true
    else if pattern[0] == '\\' then |pattern| >= 2 && IsMeta(pattern[1]) && IsLiteralPattern(pattern[2..])
    else !IsMeta(pattern[0]) && IsLiteralPattern(pattern[1..])
  }

  /** Escaping works character by character. */
  lemma {:induction false} EscapeAppend(a: string, b: string)
    ensures Escape(a + b) == Escape(a) + Escape(b)
  {
    if a != [] {
      var head := if IsMeta(a[0]) then ['\\', a[0]] else [a[0]];
      assert (a + b)[0] == a[0];
      assert (a + b)[1..] == a[1..] + b;
      EscapeAppend(a[1..], b);
      calc {
        Escape(a + b);
        head + Escape(a[1..] + b);
        head + (Escape(a[1..]) + Escape(b));
        (head + Escape(a[1..])) + Escape(b);
        Escape(a) + Escape(b);
      }
    } else {
      assert a + b == b;
    }
  }

  /** No character outside the escaped set is altered. */
  lemma {:induction false} EscapeKeepsPlain(name: string)
    requires forall i :: 0 <= i < |name| ==> !IsMeta(name[i])
    ensures Escape(name) == name
  {
    if name != [] {
      EscapeKeepsPlain(name[1..]);
    }
  }

  // ---------------------------------------------------------------- lookup

  /**
    `(?:^|; )name=` matches with `name` starting at `q`: at the very start of the
    header, or right after a "; ".
  */
  predicate PairAt(cookie: string, name: string, q: nat)
  {
    && q <= |cookie|
    && (q == 0 || (q >= 2 && cookie[q - 2..q] == "; "))
    && name + "=" <= cookie[q..]
  }

  /** The leftmost match position at or after `from`, as a regex search finds it. */
  function Search(cookie: string, name: string, from: nat): (r: Option<nat>)
    decreases |cookie| + 1 - from
    ensures r.Some? ==> from <= r.value && PairAt(cookie, name, r.value)
    ensures r.Some? ==> forall p :: from <= p < r.value ==> !PairAt(cookie, name, p)
    ensures r.None? ==> forall p :: from <= p ==> !PairAt(cookie, name, p)
  {
    if from > |cookie| then None
    else if PairAt(cookie, name, from) then Some(from)
    else Search(cookie, name, from + 1)
  }

  /** `([^;]*)`: the longest prefix of `s` without a ';'. */
  function UpToSemicolon(s: string): (r: string)
    ensures r <= s && ';' !in r
    ensures |r| == |s| || s[|r|] == ';'
  {
    if s == [] || s[0] == ';' then [] else [s[0]] + UpToSemicolon(s[1..])
  }

  /**
    The raw (still percent-encoded) value of the first cookie named `name`, or
    `None` when the header has no such pair.
  */
  function FindCookie(cookie: string, name: string): (r: Option<string>)
    ensures r.None? <==> forall p :: !PairAt(cookie, name, p)
    ensures r.Some? ==>
      && Search(cookie, name, 0).Some?
      && r.value == UpToSemicolon(cookie[Search(cookie, name, 0).value + |name| + 1..])
  {
    match Search(cookie, name, 0)
    case None => None
    case Some(q) => Some(UpToSemicolon(cookie[q + |name| + 1..]))
  }

  // ---------------------------------------------------------------- assignment

  /**
    The text `CookieStorage.setItem` assigns to `document.cookie`: the pair
    `fieldKey=value`, then the attributes `path=/` and `expires`.
  */
  function CookieAssignment(fieldKey: string, value: string, expires: string): (a: string)
    ensures fieldKey + "=" + value <= a
    ensures a[|fieldKey + "=" + value|..] == "; path=/; expires=" + expires
  {
    fieldKey + "=" + value + "; path=/; expires=" + expires
  }

  /**
    The assignment starts with the pair `fieldKey=value`: read with the lookup
    pattern it yields exactly `value`, provided `value` holds no ';'.
  */
  lemma AssignmentReadsBack(fieldKey: string, value: string, expires: string)
    requires ';' !in value
    ensures FindCookie(CookieAssignment(fieldKey, value, expires), fieldKey) == Some(value)
  {
    var c := CookieAssignment(fieldKey, value, expires);
    assert PairAt(c, fieldKey, 0);
    var rest := c[|fieldKey| + 1..];
    assert rest == value + ("; path=/; expires=" + expires);
    UpToSemicolonPrefix(value, "; path=/; expires=" + expires);
  }

  /** `([^;]*)` stops at the first ';'. */
  lemma {:induction false} UpToSemicolonPrefix(a: string, b: string)
    requires ';' !in a && b != [] && b[0] == ';'
    ensures UpToSemicolon(a + b) == a
  {
    if a != [] {
      assert (a + b)[1..] == a[1..] + b;
      UpToSemicolonPrefix(a[1..], b);
    }
  }
}
