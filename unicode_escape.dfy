/**
  Python's `unicode_escape` text codec, following the escape sequences of Python string
  literals (Python Language Reference, "String and Bytes literals").

  `Escape` is `s.encode("unicode_escape").decode()`; `Unescape` is
  `s.encode().decode("unicode_escape")` restricted to ASCII input and to the escapes that
  `Escape` emits. `MayMatchUEscape` stands for `re.search(r"\\u\w{4}", s)`.
 */
module UnicodeEscape {
  import opened Wrappers
  import opened PyText

  function Pow16(w: nat): nat {
    if w == 0 then 1 else 16 * Pow16(w - 1)
  }

  predicate IsLowerHexDigit(c: char) {
    '0' <= c <= '9' || 'a' <= c <= 'f'
  }

  predicate IsHexDigit(c: char) {
    '0' <= c <= '9' || 'a' <= c <= 'f' || 'A' <= c <= 'F'
  }

  predicate AllHex(h: string) {
    forall i :: 0 <= i < |h| ==> IsHexDigit(h[i])
  }

  /** The lowercase digit for `d` (Python's codec writes lowercase hex). */
  function HexDigit(d: nat): (c: char)
    requires d < 16
    ensures IsLowerHexDigit(c)
  {
    if d < 10 then ('0' as int + d) as char else ('a' as int + d - 10) as char
  }

  function HexValue(c: char): (d: nat)
    requires IsHexDigit(c)
    ensures d < 16
  {
    if '0' <= c <= '9' then c as int - '0' as int
    else if 'a' <= c <= 'f' then c as int - 'a' as int + 10
    else c as int - 'A' as int + 10
  }

  /** The `width` lowest hex digits of `n`, most significant first. */
  function Hex(n: nat, width: nat): (h: string)
    ensures |h| == width
    ensures forall i :: 0 <= i < |h| ==> IsLowerHexDigit(h[i])
  {
    if width == 0 then [] else Hex(n / 16, width - 1) + [HexDigit(n % 16)]
  }

  /** The number a string of hex digits (either case) denotes. */
  function ParseHex(h: string): nat
    requires AllHex(h)
  {
    if h == [] then 0 else 16 * ParseHex(h[..|h| - 1]) + HexValue(h[|h| - 1])
  }

  lemma HexDigitValue(d: nat)
    requires d < 16
    ensures HexValue(HexDigit(d)) == d
  {
  }

  /** Reading back the digits `Hex` writes gives the number, when it fits the width. */
  lemma {:induction false} ParseHexInverse(n: nat, width: nat)
    requires n < Pow16(width)
    ensures AllHex(Hex(n, width)) && ParseHex(Hex(n, width)) == n
  {
    if width > 0 {
      var h := Hex(n, width);
      ParseHexInverse(n / 16, width - 1);
      assert h[..|h| - 1] == Hex(n / 16, width - 1);
      HexDigitValue(n % 16);
    }
  }

  /** A character `unicode_escape` writes as itself: printable ASCII other than the backslash. */
  predicate Plain(c: char) {
    ' ' <= c <= '~' && c != '\\'
  }

  /** The escape of one character under Python's `unicode_escape` encoder. */
  function EscapeChar(c: char): string {
    var n := c as int;
    if n >= 0x10000 then "\\U" + Hex(n, 8)
    else if n >= 0x100 then "\\u" + Hex(n, 4)
    else if c == '\\' then "\\\\"
    else if c == '\t' then "\\t"
    else if c == '\n' then "\\n"
    else if c == '\r' then "\\r"
    else if n < 0x20 || n >= 0x7f then "\\x" + Hex(n, 2)
    else [c]
  }

  /**
    A character's escape is ASCII; it is the character itself exactly when the character
    is plain, and otherwise a backslash sequence.
   */
  lemma EscapeCharShape(c: char)
    ensures IsAscii(EscapeChar(c)) && EscapeChar(c) != []
    ensures EscapeChar(c) == [c] <==> Plain(c)
    ensures !Plain(c) ==> |EscapeChar(c)| >= 2 && EscapeChar(c)[0] == '\\'
  {
    var e := EscapeChar(c);
    var n := c as int;
    if n >= 0x100 || ((n < 0x20 || n >= 0x7f) && c != '\t' && c != '\n' && c != '\r') {
      forall i | 2 <= i < |e| ensures e[i] as int < 0x80 {
        assert IsLowerHexDigit(e[2..][i - 2]);
      }
    }
  }

  /** Python's `s.encode("unicode_escape").decode()`. */
  function Escape(s: string): string
    decreases |s|
  {
    if s == [] then [] else EscapeChar(s[0]) + Escape(s[1..])
  }

  /** Escaping gives ASCII text at least as long as the input. */
  lemma {:induction false} EscapeAscii(s: string)
    ensures IsAscii(Escape(s)) && |Escape(s)| >= |s|
    decreases |s|
  {
    if s != [] {
      EscapeAscii(s[1..]);
      EscapeCharShape(s[0]);
      var x, y := EscapeChar(s[0]), Escape(s[1..]);
      forall i | 0 <= i < |x + y| ensures (x + y)[i] as int < 0x80 {
        if i >= |x| { assert (x + y)[i] == y[i - |x|]; }
      }
    }
  }

  /** Text of plain characters only is its own escape. */
  lemma {:induction false} EscapePlain(s: string)
    requires forall i :: 0 <= i < |s| ==> Plain(s[i])
    ensures Escape(s) == s
    decreases |s|
  {
    if s != [] {
      assert forall i :: 0 <= i < |s[1..]| ==> Plain(s[1..][i]) by {
        forall i | 0 <= i < |s[1..]| ensures Plain(s[1..][i]) {
          assert s[1..][i] == s[i + 1];
        }
      }
      EscapePlain(s[1..]);
      EscapeCharShape(s[0]);
      assert s == [s[0]] + s[1..];
    }
  }

  /** A basic multilingual plane character above U+00FF becomes `\u` and four lowercase hex digits of its code point. */
  lemma EscapeCharBmp(c: char)
    requires 0x100 <= c as int < 0x10000
    ensures |EscapeChar(c)| == 6 && EscapeChar(c)[..2] == "\\u"
    ensures forall i :: 2 <= i < 6 ==> IsLowerHexDigit(EscapeChar(c)[i])
    ensures AllHex(EscapeChar(c)[2..]) && ParseHex(EscapeChar(c)[2..]) == c as int
  {
    assert Pow16(4) == 0x10000;
    ParseHexInverse(c as int, 4);
    assert EscapeChar(c)[2..] == Hex(c as int, 4);
  }

  /** A text is its own escape exactly when all its characters are plain. */
  lemma EscapeIsIdentity(s: string)
    ensures Escape(s) == s <==> forall i :: 0 <= i < |s| ==> Plain(s[i])
  {
    if forall i :: 0 <= i < |s| ==> Plain(s[i]) {
      EscapePlain(s);
    } else {
      var i :| 0 <= i < |s| && !Plain(s[i]);
      EscapeAround(s, i);
      EscapeAscii(s[..i]);
      EscapeAscii(s[i + 1..]);
      EscapeCharShape(s[i]);
      assert |Escape(s)| > |s|;
    }
  }

  /** The escape of a concatenation is the concatenation of the escapes. */
  lemma {:induction false} EscapeConcat(x: string, y: string)
    ensures Escape(x + y) == Escape(x) + Escape(y)
    decreases |x|
  {
    if x != [] {
      assert (x + y)[0] == x[0];
      assert (x + y)[1..] == x[1..] + y;
      EscapeConcat(x[1..], y);
    } else {
      assert x + y == y;
    }
  }

  /** A character that no escape sequence contains. */
  predicate Innocent(c: char) {
    Plain(c) && !IsLowerHexDigit(c) && c != 'x' && c != 'u' && c != 'U' && c != 't' && c != 'n' && c != 'r'
  }

  /** The escape of one character holds an innocent character only if that is the character. */
  lemma EscapeCharKeepsAbsent(d: char, c: char)
    requires Innocent(c) && d != c
    ensures NoChar(EscapeChar(d), c)
  {
    var e := EscapeChar(d);
    var n := d as int;
    if n >= 0x100 || ((n < 0x20 || n >= 0x7f) && d != '\t' && d != '\n' && d != '\r' && d != '\\') {
      forall i | 2 <= i < |e| ensures e[i] != c {
        assert IsLowerHexDigit(e[2..][i - 2]);
      }
    }
  }

  /** Escaping never introduces an innocent character such as `[`, `/` or `:`. */
  lemma {:induction false} EscapeKeepsAbsent(s: string, c: char)
    requires Innocent(c) && NoChar(s, c)
    ensures NoChar(Escape(s), c)
    decreases |s|
  {
    if s != [] {
      assert NoChar(s[1..], c) by {
        forall i | 0 <= i < |s[1..]| ensures s[1..][i] != c {
          assert s[1..][i] == s[i + 1];
        }
      }
      EscapeKeepsAbsent(s[1..], c);
      EscapeCharKeepsAbsent(s[0], c);
      var x, y := EscapeChar(s[0]), Escape(s[1..]);
      forall i | 0 <= i < |x + y| ensures (x + y)[i] != c {
        if i >= |x| { assert (x + y)[i] == y[i - |x|]; }
      }
    }
  }

  /** Reads `width` hex digits after the escape letter `t[0]`. */
  function HexEscape(t: string, width: nat): (r: Result<(char, nat)>)
    requires t != []
    ensures r.Ok? ==> r.value.1 == 1 + width && r.value.1 <= |t|
    ensures r.Err? ==> r.failure != AssertionError
  {
    if |t| < 1 + width || !AllHex(t[1..1 + width]) then Err(UnicodeDecodeError)
    else
      var v := ParseHex(t[1..1 + width]);
      if v > 0x10FFFF then Err(UnicodeDecodeError)
      else if 0xD800 <= v < 0xE000 then Err(Unmodelled)
      else Ok((v as char, 1 + width))
  }

  /**
    Decodes the escape whose text after the backslash is `t`, giving the character and the
    number of characters of `t` it uses. The escapes Python accepts that `Escape` never
    writes (`\a`, octal, `\N{...}`, escaped quotes and the like) are not modelled.
   */
  function DecodeEscape(t: string): (r: Result<(char, nat)>)
    requires t != []
    ensures r.Ok? ==> 1 <= r.value.1 <= |t|
    ensures r.Err? ==> r.failure != AssertionError
  {
    match t[0]
    case '\\' => Ok(('\\', 1))
    case 't' => Ok(('\t', 1))
    case 'n' => Ok(('\n', 1))
    case 'r' => Ok(('\r', 1))
    case 'x' => HexEscape(t, 2)
    case 'u' => HexEscape(t, 4)
    case 'U' => HexEscape(t, 8)
    case _ => Err(Unmodelled)
  }

  /** The `unicode_escape` decoder on ASCII text. */
  function UnescapeAscii(s: string): (r: Result<string>)
    ensures r.Ok? ==> |r.value| <= |s|
    ensures NoChar(s, '\\') ==> r == Ok(s)
    ensures r.Err? ==> r.failure != AssertionError
    decreases |s|
  {
    if s == [] then Ok([])
    else if s[0] != '\\' then
      assert NoChar(s, '\\') ==> NoChar(s[1..], '\\') by {
        if NoChar(s, '\\') {
          forall i | 0 <= i < |s[1..]| ensures s[1..][i] != '\\' {
            assert s[1..][i] == s[i + 1];
          }
        }
      }
      assert s == [s[0]] + s[1..];
      Prefixed([s[0]], UnescapeAscii(s[1..]))
    else if |s| == 1 then Err(UnicodeDecodeError)
    else
      match DecodeEscape(s[1..])
      case Err(f) => Err(f)
      case Ok((c, k)) => Prefixed([c], UnescapeAscii(s[1 + k..]))
  }

  /**
    `s.encode().decode("unicode_escape")`. On non-ASCII text Python re-reads the UTF-8 bytes
    as Latin-1, which the model does not describe.
   */
  function Unescape(s: string): (r: Result<string>)
    ensures !IsAscii(s) ==> r == Err(Unmodelled)
    ensures IsAscii(s) && NoChar(s, '\\') ==> r == Ok(s)
    ensures r.Err? ==> r.failure != AssertionError
  {
    if IsAscii(s) then UnescapeAscii(s) else Err(Unmodelled)
  }

  /** An ASCII prefix without backslashes decodes to itself. */
  lemma {:induction false} UnescapePlainPrefix(x: string, y: string)
    requires IsAscii(x) && NoChar(x, '\\')
    ensures UnescapeAscii(x + y) == Prefixed(x, UnescapeAscii(y))
    decreases |x|
  {
    if x == [] {
      assert x + y == y;
      PrefixedEmpty(UnescapeAscii(y));
    } else {
      assert (x + y)[0] == x[0];
      assert (x + y)[1..] == x[1..] + y;
      UnescapePlainPrefix(x[1..], y);
      PrefixedTwice([x[0]], x[1..], UnescapeAscii(y));
      assert x == [x[0]] + x[1..];
    }
  }

  /** A hex escape written by `Escape` reads back as its character. */
  lemma HexEscapeInverse(c: char, letter: char, width: nat, rest: string)
    requires c as int < Pow16(width)
    ensures HexEscape([letter] + Hex(c as int, width) + rest, width) == Ok((c, 1 + width))
  {
    var t := [letter] + Hex(c as int, width) + rest;
    assert t[1..1 + width] == Hex(c as int, width);
    ParseHexInverse(c as int, width);
  }

  /** An escape sequence `e` that decodes to `c` reads back as `c`, whatever follows. */
  lemma EscapeSequenceInverse(c: char, e: string, rest: string)
    requires |e| >= 2 && e[0] == '\\'
    requires DecodeEscape(e[1..] + rest) == Ok((c, |e| - 1))
    ensures UnescapeAscii(e + rest) == Prefixed([c], UnescapeAscii(rest))
  {
    var s := e + rest;
    assert s[0] == '\\' && |s| >= 2;
    assert s[1..] == e[1..] + rest;
    assert s[1 + (|e| - 1)..] == rest;
  }

  /** Decoding undoes the escape of one character. */
  lemma EscapeCharInverse(c: char, rest: string)
    ensures UnescapeAscii(EscapeChar(c) + rest) == Prefixed([c], UnescapeAscii(rest))
  {
    var n := c as int;
    var e := EscapeChar(c);
    EscapeCharShape(c);
    if Plain(c) {
      var s := e + rest;
      assert s == [c] + rest && s[1..] == rest;
    } else if n >= 0x10000 {
      assert Pow16(8) == 0x1_0000_0000;
      assert e[1..] + rest == ['U'] + Hex(n, 8) + rest;
      HexEscapeInverse(c, 'U', 8, rest);
      EscapeSequenceInverse(c, e, rest);
    } else if n >= 0x100 {
      assert Pow16(4) == 0x10000;
      assert e[1..] + rest == ['u'] + Hex(n, 4) + rest;
      HexEscapeInverse(c, 'u', 4, rest);
      EscapeSequenceInverse(c, e, rest);
    } else if c == '\\' || c == '\t' || c == '\n' || c == '\r' {
      assert (e[1..] + rest)[0] == e[1];
      EscapeSequenceInverse(c, e, rest);
    } else {
      assert Pow16(2) == 0x100;
      assert e[1..] + rest == ['x'] + Hex(n, 2) + rest;
      HexEscapeInverse(c, 'x', 2, rest);
      EscapeSequenceInverse(c, e, rest);
    }
  }

  /** Decoding undoes escaping, whatever follows. */
  lemma {:induction false} EscapeInverseBefore(s: string, rest: string)
    ensures UnescapeAscii(Escape(s) + rest) == Prefixed(s, UnescapeAscii(rest))
    decreases |s|
  {
    if s == [] {
      assert Escape(s) + rest == rest;
      PrefixedEmpty(UnescapeAscii(rest));
    } else {
      var head, tail := s[0], s[1..];
      var after := Escape(tail) + rest;
      var u := UnescapeAscii(rest);
      EscapeCons(s, rest);
      EscapeCharInverse(head, after);
      EscapeInverseBefore(tail, rest);
      PrefixedTwice([head], tail, u);
      assert s == [head] + tail;
    }
  }

  /** The escape of a non-empty text, then `rest`: the first character's escape in front. */
  lemma EscapeCons(s: string, rest: string)
    requires s != []
    ensures Escape(s) + rest == EscapeChar(s[0]) + (Escape(s[1..]) + rest)
  {
  }

  /** The round trip of the codec: every string survives escaping and unescaping. */
  lemma UnescapeEscape(s: string)
    ensures Unescape(Escape(s)) == Ok(s)
  {
    EscapeInverseBefore(s, []);
    EscapeAscii(s);
    assert Escape(s) + [] == Escape(s);
    assert s + [] == s;
  }

  /** A character that `\w` might match: an ASCII letter, digit or underscore, or any non-ASCII character. */
  predicate MaybeWord(c: char) {
    'a' <= c <= 'z' || 'A' <= c <= 'Z' || '0' <= c <= '9' || c == '_' || c as int >= 0x80
  }

  /** `\u` followed by four characters `\w` might match, at index `j`. */
  predicate UEscapeAt(s: string, j: nat) {
    j + 6 <= |s| && s[j] == '\\' && s[j + 1] == 'u'
    && MaybeWord(s[j + 2]) && MaybeWord(s[j + 3]) && MaybeWord(s[j + 4]) && MaybeWord(s[j + 5])
  }

  /**
    Whether `re.search(r"\\u\w{4}", s)` might find a match. On ASCII text this is exactly
    whether it does.
   */
  predicate MayMatchUEscape(s: string) {
    exists j | 0 <= j < |s| :: UEscapeAt(s, j)
  }

  /** Without a backslash there is nothing to match. */
  lemma NoBackslashNoMatch(s: string)
    requires NoChar(s, '\\')
    ensures !MayMatchUEscape(s)
  {
  }

  /** No `\` is directly followed by `u`. */
  predicate NoUEscapeStart(s: string) {
    forall j :: 0 <= j < |s| - 1 ==> !(s[j] == '\\' && s[j + 1] == 'u')
  }

  /** Without a `\u` there is nothing to match. */
  lemma NoUEscapeStartNoMatch(s: string)
    requires NoUEscapeStart(s)
    ensures !MayMatchUEscape(s)
  {
    forall j | 0 <= j < |s| ensures !UEscapeAt(s, j) {
      if j < |s| - 1 {
        assert !(s[j] == '\\' && s[j + 1] == 'u');
      }
    }
  }

  /** The escape of a character of U+0100 to U+FFFF is itself a match. */
  lemma BmpEscapeMatches(c: char)
    requires 0x100 <= c as int < 0x10000
    ensures UEscapeAt(EscapeChar(c), 0)
  {
    var u := EscapeChar(c);
    EscapeCharBmp(c);
    assert u[0] == u[..2][0] && u[1] == u[..2][1];
    assert IsLowerHexDigit(u[2]) && IsLowerHexDigit(u[3]) && IsLowerHexDigit(u[4]) && IsLowerHexDigit(u[5]);
  }

  /** The escape of `s` splits around the escape of its character at `i`. */
  lemma EscapeAround(s: string, i: nat)
    requires i < |s|
    ensures Escape(s) == Escape(s[..i]) + (EscapeChar(s[i]) + Escape(s[i + 1..]))
  {
    var x, c, y := s[..i], s[i], s[i + 1..];
    calc {
      Escape(s);
      { assert s == x + ([c] + y); }
      Escape(x + ([c] + y));
      { EscapeConcat(x, [c] + y); }
      Escape(x) + Escape([c] + y);
      { EscapeCons([c] + y, []); assert ([c] + y)[1..] == y; }
      Escape(x) + (EscapeChar(c) + Escape(y));
    }
  }

  /** The guard sees a match in the escape of any string holding a character of U+0100 to U+FFFF. */
  lemma EscapeShowsUEscape(s: string, i: nat)
    requires i < |s| && 0x100 <= s[i] as int < 0x10000
    ensures MayMatchUEscape(Escape(s))
  {
    var u := EscapeChar(s[i]);
    EscapeAround(s, i);
    BmpEscapeMatches(s[i]);
    UEscapeExtend(u, Escape(s[i + 1..]), 0);
    UEscapeShift(Escape(s[..i]), u + Escape(s[i + 1..]), 0);
    assert |Escape(s[..i])| + 0 < |Escape(s)|;
  }

  /** A match is found again after a prefix is put in front. */
  lemma UEscapeShift(x: string, y: string, j: nat)
    requires UEscapeAt(y, j)
    ensures UEscapeAt(x + y, |x| + j)
  {
    var z := x + y;
    assert z[|x| + j] == y[j] && z[|x| + j + 1] == y[j + 1] && z[|x| + j + 2] == y[j + 2];
    assert z[|x| + j + 3] == y[j + 3] && z[|x| + j + 4] == y[j + 4] && z[|x| + j + 5] == y[j + 5];
  }

  /** A match past a prefix is a match in what follows the prefix. */
  lemma UEscapeUnshift(x: string, y: string, j: nat)
    requires |x| <= j && UEscapeAt(x + y, j)
    ensures UEscapeAt(y, j - |x|)
  {
    var z := x + y;
    var k := j - |x|;
    assert z[j] == y[k] && z[j + 1] == y[k + 1] && z[j + 2] == y[k + 2];
    assert z[j + 3] == y[k + 3] && z[j + 4] == y[k + 4] && z[j + 5] == y[k + 5];
  }

  /** A match is kept when text is appended. */
  lemma UEscapeExtend(y: string, z: string, j: nat)
    requires UEscapeAt(y, j)
    ensures UEscapeAt(y + z, j)
  {
    var w := y + z;
    assert w[j] == y[j] && w[j + 1] == y[j + 1] && w[j + 2] == y[j + 2];
    assert w[j + 3] == y[j + 3] && w[j + 4] == y[j + 4] && w[j + 5] == y[j + 5];
  }

  /** A prefix without backslashes neither creates nor hides a match. */
  lemma MayMatchPrefix(x: string, z: string)
    requires NoChar(x, '\\')
    ensures MayMatchUEscape(x + z) <==> MayMatchUEscape(z)
  {
    if MayMatchUEscape(z) {
      var j :| 0 <= j < |z| && UEscapeAt(z, j);
      UEscapeShift(x, z, j);
    }
    if MayMatchUEscape(x + z) {
      var j :| 0 <= j < |x + z| && UEscapeAt(x + z, j);
      var w := x + z;
      assert j >= |x|;
      var i := j - |x|;
      assert w[j] == z[i] && w[j + 1] == z[i + 1] && w[j + 2] == z[i + 2];
      assert w[j + 3] == z[i + 3] && w[j + 4] == z[i + 4] && w[j + 5] == z[i + 5];
      assert UEscapeAt(z, i);
    }
  }

  /** An ASCII prefix without backslashes passes through the decoder unchanged. */
  lemma UnescapePrefix(x: string, z: string)
    requires IsAscii(x) && NoChar(x, '\\')
    ensures Unescape(x + z) == Prefixed(x, Unescape(z))
  {
    var w := x + z;
    assert IsAscii(w) <==> IsAscii(z) by {
      if IsAscii(z) {
        forall i | 0 <= i < |w| ensures w[i] as int < 0x80 {
          if i >= |x| { assert w[i] == z[i - |x|]; }
        }
      }
      if IsAscii(w) {
        forall i | 0 <= i < |z| ensures z[i] as int < 0x80 {
          assert z[i] == w[i + |x|];
        }
      }
    }
    if IsAscii(z) {
      UnescapePlainPrefix(x, z);
    }
  }
}
