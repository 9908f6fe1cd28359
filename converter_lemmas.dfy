/**
  What the converter promises across its operations: how the case name is chosen, the
  shape of a pytest id, the data-drive codec's round trip, selector -> pytest -> selector,
  and the agreement of the three ways pytest_to_selector reads an item.
 */
module ConverterLemmas {
  import opened Wrappers
  import opened PyText
  import opened UnicodeEscape
  import opened Converter

  // ---------------------------------------------------------------------------------------
  // Choosing the case name

  /** `Join` of two or more pieces contains the separator. */
  lemma JoinHasSeparator(attrs: seq<string>, sep: char)
    requires |attrs| >= 2
    ensures Contains(Join(attrs, sep), [sep])
  {
    var s := Join(attrs, sep);
    assert s == attrs[0] + [sep] + Join(attrs[1..], sep);
    assert s[|attrs[0]|] == sep;
    ContainsChar(s, sep);
  }

  /** With several attributes, the first that names the case or is bare gives the case name. */
  lemma FirstDecidingWins(attrs: seq<string>, k: nat)
    requires |attrs| >= 2 && forall i :: 0 <= i < |attrs| ==> NoChar(attrs[i], '&')
    requires k < |attrs| && Decides(attrs[k])
    requires forall i :: 0 <= i < k ==> !Decides(attrs[i])
    ensures SelectedCase(Join(attrs, '&')) == Chosen(attrs[k])
  {
    JoinHasSeparator(attrs, '&');
    SplitJoin(attrs, '&');
    ScanStops(Join(attrs, '&'), k);
  }

  /** With several attributes of which none decides, the whole text is the case name. */
  lemma NoAttributeDecides(attrs: seq<string>)
    requires |attrs| >= 2 && forall i :: 0 <= i < |attrs| ==> NoChar(attrs[i], '&')
    requires forall i :: 0 <= i < |attrs| ==> !Decides(attrs[i])
    ensures SelectedCase(Join(attrs, '&')) == Join(attrs, '&')
  {
    JoinHasSeparator(attrs, '&');
    SplitJoin(attrs, '&');
  }

  /** A single attribute `name=v` gives `v`. */
  lemma NamePrefixStripped(v: string)
    requires NoChar(v, '&')
    ensures SelectedCase("name=" + v) == v
  {
    var s := "name=" + v;
    assert NoChar(s, '&');
    ContainsChar(s, '&');
    assert s[..5] == "name=";
  }

  /** A single case without `&` and without a leading `name=` is taken as it is. */
  lemma SingleCaseKept(c: string)
    requires NoChar(c, '&') && !StartsWith(c, "name=")
    ensures SelectedCase(c) == c
  {
    ContainsChar(c, '&');
  }

  // ---------------------------------------------------------------------------------------
  // The shape of a pytest id

  /** A selector without `?`, or with nothing after it, is the file itself. */
  lemma WholeFile(p: string)
    requires NoChar(p, '?')
    ensures PytestId(p) == p
    ensures PytestId(p + "?") == p
  {
    ContainsChar(p, '?');
    PartitionAtFirst(p, '?', []);
    assert p + "?" == p + ['?'] + [];
  }

  /** Without a data-drive tag, the case's `/` become `::` after `path::`. */
  lemma UntaggedShape(p: string, testcase: string)
    requires NoChar(p, '?') && testcase != [] && ExtractCaseAndDatadrive(SelectedCase(testcase)).1 == []
    ensures PytestId(p + "?" + testcase) == p + "::" + ReplaceAll(SelectedCase(testcase), "/", "::")
  {
    PartitionAtFirst(p, '?', testcase);
  }

  /** A data-drive tag stays one piece: it is escaped and appended, never split at `::`. */
  lemma TaggedShape(p: string, testcase: string, a: string, t: string)
    requires NoChar(p, '?') && testcase != []
    requires SelectedCase(testcase) == a + "/" + t
    requires IsDatadriveTag(t) && NoChar(t, '/')
    ensures PytestId(p + "?" + testcase) == p + "::" + ReplaceAll(a, "/", "::") + Escape(t)
  {
    PartitionAtFirst(p, '?', testcase);
    ExtractFindsTag(a, t);
    EncodeTag(t);
  }

  // ---------------------------------------------------------------------------------------
  // The data-drive codec

  /** A tag without `/` is encoded by the escape alone: there is no `/[` to rewrite. */
  lemma EncodeTag(t: string)
    requires IsDatadriveTag(t) && NoChar(t, '/')
    ensures EncodeDatadrive(t) == Escape(t)
  {
    assert t[0] == '[';
    assert OccursAt(t, "[", 0);
    ContainsAt(t, "[", 0);
    EscapeKeepsAbsent(t, '/');
    AbsentCharNoMatch(Escape(t), "/[", 0);
    ReplaceAbsent(Escape(t), "/[", "[", -1);
  }

  /** Escaping leaves printable delimiters around a text in place. */
  lemma EscapeWrapped(pre: string, b: string, post: string)
    requires forall i :: 0 <= i < |pre| ==> Plain(pre[i])
    requires forall i :: 0 <= i < |post| ==> Plain(post[i])
    ensures Escape(pre + b + post) == pre + Escape(b) + post
  {
    calc {
      Escape(pre + b + post);
      { EscapeConcat(pre + b, post); }
      Escape(pre + b) + Escape(post);
      { EscapeConcat(pre, b); }
      Escape(pre) + Escape(b) + Escape(post);
      { EscapePlain(pre); EscapePlain(post); }
      pre + Escape(b) + post;
    }
  }

  /** `[` occurs in a text that has it at index `i`. */
  lemma BracketAt(s: string, i: nat)
    requires i < |s| && s[i] == '['
    ensures Contains(s, "[")
  {
    assert OccursAt(s, "[", i);
    ContainsAt(s, "[", i);
  }

  /** `/[b]` is encoded as `[` followed by the escaped body and `]`. */
  lemma EncodeSlashTag(b: string)
    requires NoChar(b, '[')
    ensures EncodeDatadrive("/[" + b + "]") == "[" + Escape(b) + "]"
  {
    var name := "/[" + b + "]";
    BracketAt(name, 1);
    assert name[|name| - 1..] == "]";
    var eb := Escape(b);
    EscapeWrapped("/[", b, "]");
    assert Escape(name) == "/[" + (eb + "]");
    EscapeKeepsAbsent(b, '[');
    SlashBracketDropped(eb);
  }

  /** In `/[e]` with `e` free of `[`, only the leading `/[` is turned into `[`. */
  lemma SlashBracketDropped(e: string)
    requires NoChar(e, '[')
    ensures ReplaceAll("/[" + (e + "]"), "/[", "[") == "[" + e + "]"
  {
    var tail := e + "]";
    ReplaceAtFront("/[", tail, "[", -1);
    assert NoChar(tail, '[');
    AbsentCharNoMatch(tail, "/[", 1);
    ReplaceAbsent(tail, "/[", "[", -1);
  }


  /** Text before the part that decodes, ASCII and without `\` or `[`, passes through. */
  lemma DecodePrefix(x: string, y: string)
    requires IsAscii(x) && NoChar(x, '\\') && NoChar(x, '[') && y != []
    ensures DecodeDatadrive(x + y) == Prefixed(x, DecodeDatadrive(y))
  {
    var s := x + y;
    assert s[|s| - 1..] == y[|y| - 1..];
    assert NoChar(s, '[') <==> NoChar(y, '[') by {
      if NoChar(y, '[') {
        forall i | 0 <= i < |s| ensures s[i] != '[' {
          if i >= |x| { assert s[i] == y[i - |x|]; }
        }
      }
      if NoChar(s, '[') {
        forall i | 0 <= i < |y| ensures y[i] != '[' {
          assert y[i] == s[i + |x|];
        }
      }
    }
    ContainsChar(s, '[');
    ContainsChar(y, '[');
    if EndsWith(y, "]") && Contains(y, "[") {
      var ry := ReplaceAll(y, "[", "/[");
      ReplaceSkips(x, y, "[", "/[", -1);
      MayMatchPrefix(x, ry);
      if MayMatchUEscape(ry) {
        UnescapePrefix(x, ry);
      }
    }
  }

  /** Where the first `k` characters after putting `/` before each `[` hold no `/`, they are the input's. */
  lemma {:induction false} BracketReplacePrefix(s: string, count: int, k: nat)
    requires k <= |Replace(s, "[", "/[", count)|
    ensures (forall i :: 0 <= i < k ==> Replace(s, "[", "/[", count)[i] != '/') ==>
              k <= |s| && Replace(s, "[", "/[", count)[..k] == s[..k]
    decreases |s|
  {
    var r := Replace(s, "[", "/[", count);
    if k > 0 && count != 0 {
      assert s != [];
      if s[0] == '[' {
        assert StartsWith(s, "[");
        assert r[0] == '/';
      } else if forall i :: 0 <= i < k ==> r[i] != '/' {
        assert !StartsWith(s, "[");
        var r' := Replace(s[1..], "[", "/[", count);
        assert r == [s[0]] + r';
        forall i | 0 <= i < k - 1
          ensures r'[i] != '/'
        {
          assert r'[i] == r[i + 1];
        }
        BracketReplacePrefix(s[1..], count, k - 1);
        assert r[..k] == [s[0]] + r'[..k - 1];
        assert s[..k] == [s[0]] + s[1..][..k - 1];
      }
    }
  }

  /** A match at the front after putting `/` before each `[` is a match at the front before. */
  lemma BracketReplaceMatchFront(s: string, count: int)
    requires UEscapeAt(Replace(s, "[", "/[", count), 0)
    ensures UEscapeAt(s, 0)
  {
    BracketReplacePrefix(s, count, 6);
    assert Replace(s, "[", "/[", count)[..6] == s[..6];
  }

  /** A match of the `\\u\w{4}` search after putting `/` before each `[` was a match before. */
  lemma {:induction false} BracketReplaceMatchBack(s: string, count: int, j: nat)
    requires j < |Replace(s, "[", "/[", count)| && UEscapeAt(Replace(s, "[", "/[", count), j)
    ensures MayMatchUEscape(s)
    decreases |s|
  {
    var out := Replace(s, "[", "/[", count);
    if count == 0 {
      assert UEscapeAt(s, j);
    } else if j == 0 {
      BracketReplaceMatchFront(s, count);
    } else {
      assert s != [];
      var t := s[1..];
      var i: nat;
      if s[0] == '[' {
        assert StartsWith(s, "[");
        var r := Replace(t, "[", "/[", Decrement(count));
        assert out == "/[" + r;
        assert j != 1 by { assert out[1] == '['; }
        UEscapeUnshift("/[", r, j);
        BracketReplaceMatchBack(t, Decrement(count), j - 2);
        i :| 0 <= i < |t| && UEscapeAt(t, i);
      } else {
        assert !StartsWith(s, "[");
        var r := Replace(t, "[", "/[", count);
        assert out == [s[0]] + r;
        UEscapeUnshift([s[0]], r, j);
        BracketReplaceMatchBack(t, count, j - 1);
        i :| 0 <= i < |t| && UEscapeAt(t, i);
      }
      UEscapeShift([s[0]], t, i);
      assert [s[0]] + t == s;
    }
  }

  /** Putting `/` before each `[` never makes the `\\u\w{4}` search find a match. */
  lemma BracketReplaceKeepsNoMatch(s: string, count: int)
    ensures MayMatchUEscape(Replace(s, "[", "/[", count)) ==> MayMatchUEscape(s)
  {
    var out := Replace(s, "[", "/[", count);
    if MayMatchUEscape(out) {
      var j :| 0 <= j < |out| && UEscapeAt(out, j);
      BracketReplaceMatchBack(s, count, j);
    }
  }

  /**
    Where the `\\u\w{4}` search finds nothing in a name that ends with `]` and holds `[`,
    decode_datadrive only puts `/` before each `[`.
   */
  lemma DecodeWithoutUEscape(name: string)
    requires EndsWith(name, "]") && Contains(name, "[") && !MayMatchUEscape(name)
    ensures DecodeDatadrive(name) == Ok(ReplaceAll(name, "[", "/["))
  {
    BracketReplaceKeepsNoMatch(name, -1);
  }

  /** `[e]` with `e` free of `[` decodes as `/[e]` when no backslash is present. */
  lemma DecodePlainTag(x: string, body: string)
    requires NoChar(x, '[') && NoChar(body, '[') && NoChar(x, '\\') && NoChar(body, '\\')
    ensures DecodeDatadrive(x + "[" + body + "]") == Ok(x + "/[" + body + "]")
  {
    var tail := body + "]";
    var name := x + ("[" + tail);
    assert name == x + "[" + body + "]";
    BracketAt(name, |x|);
    assert name[|name| - 1..] == "]";
    assert NoChar(name, '\\');
    ReplaceSkips(x, "[" + tail, "[", "/[", -1);
    ReplaceAtFront("[", tail, "/[", -1);
    assert NoChar(tail, '[');
    AbsentCharNoMatch(tail, "[", 0);
    ReplaceAbsent(tail, "[", "/[", -1);
    assert x + ("/[" + tail) == x + "/[" + body + "]";
  }

  /** The characters whose escapes the decoder is sure to undo. */
  predicate TagRestorable(b: string) {
    (forall i :: 0 <= i < |b| ==> Plain(b[i])) || (exists i :: 0 <= i < |b| && 0x100 <= b[i] as int < 0x10000)
  }

  /** `[e]` passes the decoder's guard, and inserting `/` gives `/[e]` when `e` has no `[`. */
  lemma BracketedGuard(e: string)
    requires NoChar(e, '[')
    ensures EndsWith("[" + e + "]", "]") && Contains("[" + e + "]", "[")
    ensures ReplaceAll("[" + e + "]", "[", "/[") == "/[" + e + "]"
  {
    var tail := e + "]";
    var name := "[" + tail;
    assert name == "[" + e + "]";
    BracketAt(name, 0);
    assert name[|name| - 1..] == "]";
    ReplaceAtFront("[", tail, "/[", -1);
    assert NoChar(tail, '[');
    AbsentCharNoMatch(tail, "[", 0);
    ReplaceAbsent(tail, "[", "/[", -1);
    assert "/[" + tail == "/[" + e + "]";
  }

  /** The decoder undoes the escape of any tag body between `/[` and `]`. */
  lemma EscapedTagUnescapes(b: string)
    ensures Unescape("/[" + Escape(b) + "]") == Ok("/[" + b + "]")
  {
    var eb := Escape(b);
    var tail := eb + "]";
    EscapeAscii(b);
    assert IsAscii(tail) by {
      forall k | 0 <= k < |tail| ensures tail[k] as int < 0x80 {
        if k < |eb| { assert tail[k] == eb[k]; }
      }
    }
    assert "/[" + eb + "]" == "/[" + tail;
    UnescapePrefix("/[", tail);
    UnescapePlainPrefix([], tail);
    EscapeInverseBefore(b, "]");
    assert UnescapeAscii("]") == Ok("]");
    assert "/[" + (b + "]") == "/[" + b + "]";
  }

  /** A character of the Basic Multilingual Plane beyond Latin-1 switches the decoder on. */
  lemma BmpTagMatches(b: string, i: nat)
    requires i < |b| && 0x100 <= b[i] as int < 0x10000
    ensures MayMatchUEscape("/[" + Escape(b) + "]")
  {
    var eb := Escape(b);
    EscapeShowsUEscape(b, i);
    var j :| 0 <= j < |eb| && UEscapeAt(eb, j);
    UEscapeExtend(eb, "]", j);
    UEscapeShift("/[", eb + "]", j);
    assert "/[" + eb + "]" == "/[" + (eb + "]");
  }

  /**
    An escaped tag decodes back to the original `/[b]`: all printable ASCII needs no
    escape, and one character of the Basic Multilingual Plane beyond Latin-1 produces the
    `\uXXXX` that switches the decoder on.
   */
  lemma DecodeEscapedTag(b: string)
    requires NoChar(b, '[') && TagRestorable(b)
    ensures DecodeDatadrive("[" + Escape(b) + "]") == Ok("/[" + b + "]")
  {
    var eb := Escape(b);
    EscapeKeepsAbsent(b, '[');
    BracketedGuard(eb);
    if forall i :: 0 <= i < |b| ==> Plain(b[i]) {
      EscapePlain(b);
      assert NoChar("[" + eb + "]", '\\');
    } else {
      var i :| 0 <= i < |b| && 0x100 <= b[i] as int < 0x10000;
      BmpTagMatches(b, i);
      EscapedTagUnescapes(b);
    }
  }

  /** decode_datadrive undoes encode_datadrive on a tag `/[b]` whose characters it restores. */
  lemma TagRoundTrip(b: string)
    requires NoChar(b, '[') && TagRestorable(b)
    ensures DecodeDatadrive(EncodeDatadrive("/[" + b + "]")) == Ok("/[" + b + "]")
  {
    EncodeSlashTag(b);
    DecodeEscapedTag(b);
  }

  /**
    Exactly which tags come back: those whose escape is the tag itself, and those whose
    escaped form holds `\u` and four word characters, so that the decoder runs.
   */
  lemma TagRestoredExactly(b: string)
    requires NoChar(b, '[')
    ensures DecodeDatadrive(EncodeDatadrive("/[" + b + "]")) == Ok("/[" + b + "]")
      <==> (forall i :: 0 <= i < |b| ==> Plain(b[i])) || MayMatchUEscape("/[" + Escape(b) + "]")
  {
    var eb := Escape(b);
    EncodeSlashTag(b);
    EscapeKeepsAbsent(b, '[');
    BracketedGuard(eb);
    EscapeIsIdentity(b);
    if MayMatchUEscape("/[" + eb + "]") {
      EscapedTagUnescapes(b);
    } else if "/[" + eb + "]" == "/[" + b + "]" {
      assert eb == ("/[" + eb + "]")[2..|eb| + 2];
    }
  }

  // ---------------------------------------------------------------------------------------
  // Selector -> pytest -> selector

  /** `/` turned into `::` comes back as `/` when nothing else had a `:`. */
  lemma {:induction false} ColonRoundTrip(a: string, e: string)
    requires NoChar(a, ':') && NoChar(e, ':')
    ensures ReplaceAll(ReplaceAll(a, "/", "::") + e, "::", "/") == a + e
    decreases |a|
  {
    if a == [] {
      assert ReplaceAll(a, "/", "::") + e == e;
      AbsentCharNoMatch(e, "::", 0);
      ReplaceAbsent(e, "::", "/", -1);
    } else {
      var a' := a[1..];
      assert NoChar(a', ':');
      ColonRoundTrip(a', e);
      var r' := ReplaceAll(a', "/", "::");
      if a[0] == '/' {
        assert a == "/" + a';
        ReplaceAtFront("/", a', "::", -1);
        assert ReplaceAll(a, "/", "::") + e == "::" + (r' + e);
        ReplaceAtFront("::", r' + e, "/", -1);
        assert a + e == "/" + (a' + e);
      } else {
        assert a == [a[0]] + a';
        ReplaceSkips([a[0]], a', "/", "::", -1);
        assert ReplaceAll(a, "/", "::") + e == [a[0]] + (r' + e);
        ReplaceSkips([a[0]], r' + e, "::", "/", -1);
        assert a + e == [a[0]] + (a' + e);
      }
    }
  }

  /** Replacing `::` once with `?` cuts the id where `partition("::")` does. */
  lemma FirstColonsAtPartition(name: string)
    requires Contains(name, "::")
    ensures var (b, _, a) := Partition(name, "::"); Replace(name, "::", "?", 1) == b + "?" + a
  {
    var (b, sep, a) := Partition(name, "::");
    assert sep == "::" && name == b + ("::" + a);
    assert forall j :: 0 <= j < |b| ==> !OccursAt(b + ("::" + a), "::", j);
    calc {
      Replace(name, "::", "?", 1);
      { assert name == b + ("::" + a); }
      Replace(b + ("::" + a), "::", "?", 1);
      { ReplaceBeforeFirst(b, "::" + a, "::", "?", 1); }
      b + Replace("::" + a, "::", "?", 1);
      { ReplaceAtFront("::", a, "?", 1); }
      b + ("?" + Replace(a, "::", "?", 0));
      { assert Replace(a, "::", "?", 0) == a; }
      b + "?" + a;
    }
  }

  /** Where no `::` starts inside `b` in `b::a`, none starts inside `b` in `b?a` either. */
  lemma NoColonsBeforeQuery(b: string, a: string)
    requires forall j :: 0 <= j < |b| ==> !OccursAt(b + "::" + a, "::", j)
    ensures forall j :: 0 <= j < |b| ==> !OccursAt(b + ("?" + a), "::", j)
  {
    var name := b + "::" + a;
    var s := b + ("?" + a);
    forall j | 0 <= j < |b| ensures !OccursAt(s, "::", j) {
      if j + 1 < |b| {
        assert s[j..j + 2] == name[j..j + 2];
        assert !OccursAt(name, "::", j);
      } else {
        assert s[j + 1] == '?';
      }
    }
  }

  /**
    normalize_testcase_name on any id with `::`: the text before the first `::`, then `?`,
    then the rest with every `::` as `/`, decoded.
   */
  lemma NormalizeAtFirstColons(name: string)
    requires Contains(name, "::")
    ensures var (b, _, a) := Partition(name, "::");
      NormalizeTestcaseName(name) == DecodeDatadrive(b + "?" + ReplaceAll(a, "::", "/"))
  {
    var (b, _, a) := Partition(name, "::");
    FirstColonsAtPartition(name);
    ColonsAfterQuery(b, a);
  }

  /** Every `::` after the `?` becomes `/`, and none starts in the part before it. */
  lemma ColonsAfterQuery(b: string, a: string)
    requires forall j :: 0 <= j < |b| ==> !OccursAt(b + "::" + a, "::", j)
    ensures ReplaceAll(b + "?" + a, "::", "/") == b + "?" + ReplaceAll(a, "::", "/")
  {
    NoColonsBeforeQuery(b, a);
    calc {
      ReplaceAll(b + "?" + a, "::", "/");
      { assert b + "?" + a == b + ("?" + a); }
      ReplaceAll(b + ("?" + a), "::", "/");
      { ReplaceBeforeFirst(b, "?" + a, "::", "/", -1); }
      b + ReplaceAll("?" + a, "::", "/");
      { ReplaceSkips("?", a, "::", "/", -1); }
      b + ("?" + ReplaceAll(a, "::", "/"));
    }
  }

  /** The first `::` after a path without `:` becomes `?`, the rest become `/`. */
  lemma NormalizeAfterPath(p: string, m: string)
    requires NoChar(p, ':')
    ensures NormalizeTestcaseName(p + "::" + m) == DecodeDatadrive(p + "?" + ReplaceAll(m, "::", "/"))
  {
    var name := p + "::" + m;
    assert OccursAt(name, "::", |p|);
    ContainsAt(name, "::", |p|);
    calc {
      NormalizeTestcaseName(name);
      DecodeDatadrive(ReplaceAll(Replace(name, "::", "?", 1), "::", "/"));
      { FirstColonsToQuery(p, m); }
      DecodeDatadrive(ReplaceAll(p + "?" + m, "::", "/"));
      { assert NoChar(p + "?", ':'); ReplaceSkips(p + "?", m, "::", "/", -1); }
      DecodeDatadrive(p + "?" + ReplaceAll(m, "::", "/"));
    }
  }

  /** The one `::` replaced with `?` is the first, right after a path without `:`. */
  lemma FirstColonsToQuery(p: string, m: string)
    requires NoChar(p, ':')
    ensures Replace(p + "::" + m, "::", "?", 1) == p + "?" + m
  {
    calc {
      Replace(p + "::" + m, "::", "?", 1);
      { assert p + "::" + m == p + ("::" + m); }
      Replace(p + ("::" + m), "::", "?", 1);
      { ReplaceSkips(p, "::" + m, "::", "?", 1); }
      p + Replace("::" + m, "::", "?", 1);
      { ReplaceAtFront("::", m, "?", 1); }
      p + ("?" + Replace(m, "::", "?", 0));
      { assert Replace(m, "::", "?", 0) == m; }
      p + "?" + m;
    }
  }

  /** `p::C::f` normalizes as the decoded `p?C/f`, when none of the three parts has a `:`. */
  lemma NormalizeClassMember(p: string, c: string, f: string)
    requires NoChar(p, ':') && NoChar(c, ':') && NoChar(f, ':')
    ensures NormalizeTestcaseName(p + "::" + (c + "::" + f)) == DecodeDatadrive(p + "?" + (c + "/" + f))
  {
    NormalizeAfterPath(p, c + "::" + f);
    ReplaceSeparator(c, "::", f, "/");
  }

  /** A selector path: no `?` (it ends the path), no `:`, `[` or `\`, and ASCII. */
  predicate SelectorPath(p: string) {
    NoChar(p, '?') && NoChar(p, ':') && NoChar(p, '[') && NoChar(p, '\\') && IsAscii(p)
  }

  /** normalize_testcase_name undoes selector_to_pytest on a case without a tag. */
  lemma UntaggedRoundTrip(p: string, c: string)
    requires SelectorPath(p)
    requires c != [] && NoChar(c, ':') && NoChar(c, '[') && NoChar(c, '&') && !StartsWith(c, "name=")
    ensures NormalizeTestcaseName(PytestId(p + "?" + c)) == Ok(p + "?" + c)
  {
    UntaggedId(p, c);
    var m := ReplaceAll(c, "/", "::");
    NormalizeAfterPath(p, m);
    ColonRoundTrip(c, []);
    assert m + [] == m && c + [] == c;
    var s := p + "?" + c;
    assert NoChar(s, '[');
    ContainsChar(s, '[');
  }

  /** The id of an untagged single case name. */
  lemma UntaggedId(p: string, c: string)
    requires NoChar(p, '?')
    requires c != [] && NoChar(c, '[') && NoChar(c, '&') && !StartsWith(c, "name=")
    ensures PytestId(p + "?" + c) == p + "::" + ReplaceAll(c, "/", "::")
  {
    SingleCaseKept(c);
    ExtractNoBracket(c);
    UntaggedShape(p, c);
  }

  /** The case part of a tagged case `a/[b]`: ASCII, no `:`, `[`, `\` or `&`. */
  predicate CaseNamePart(a: string) {
    NoChar(a, ':') && NoChar(a, '[') && NoChar(a, '\\') && NoChar(a, '&') && IsAscii(a)
  }

  /** A tag body the round trip restores: no `:`, `[`, `/` or `&`, and restorable characters. */
  predicate TagBody(b: string) {
    NoChar(b, ':') && NoChar(b, '[') && NoChar(b, '/') && NoChar(b, '&') && TagRestorable(b)
  }

  /** A case `a/[b]` without `&` and not starting with `name=` is taken as it is. */
  lemma TaggedCaseKept(a: string, b: string)
    requires NoChar(a, '&') && NoChar(b, '&')
    requires !StartsWith(a + "/[" + b + "]", "name=")
    ensures a + "/" + ("[" + b + "]") == a + "/[" + b + "]"
    ensures SelectedCase(a + "/" + ("[" + b + "]")) == a + "/" + ("[" + b + "]")
  {
    var c := a + "/" + ("[" + b + "]");
    assert c == a + "/[" + b + "]";
    assert NoChar(c, '&');
    SingleCaseKept(c);
  }

  /** `[b]` with `b` free of `/` is a data-drive tag, escaped inside its brackets. */
  lemma BracketTag(b: string)
    requires NoChar(b, '/')
    ensures NoChar("[" + b + "]", '/') && IsDatadriveTag("[" + b + "]")
    ensures Escape("[" + b + "]") == "[" + Escape(b) + "]"
  {
    EscapeWrapped("[", b, "]");
  }

  /** The pytest id of a tagged selector: the case joined with `::`, then the escaped tag. */
  lemma TaggedId(p: string, a: string, b: string)
    requires NoChar(p, '?') && NoChar(a, '&') && NoChar(b, '/') && NoChar(b, '&')
    requires !StartsWith(a + "/[" + b + "]", "name=")
    ensures PytestId(p + "?" + (a + "/[" + b + "]")) == p + "::" + (ReplaceAll(a, "/", "::") + ("[" + Escape(b) + "]"))
  {
    TaggedCaseKept(a, b);
    BracketTag(b);
    TaggedShape(p, a + "/" + ("[" + b + "]"), a, "[" + b + "]");
  }

  /** Normalizing `p::` and a joined case turns the first `::` into `?` and the others back into `/`. */
  lemma NormalizeJoined(p: string, a: string, e: string)
    requires NoChar(p, ':') && NoChar(a, ':') && NoChar(e, ':')
    ensures NormalizeTestcaseName(p + "::" + (ReplaceAll(a, "/", "::") + e)) == DecodeDatadrive(p + "?" + a + e)
  {
    NormalizeAfterPath(p, ReplaceAll(a, "/", "::") + e);
    ColonRoundTrip(a, e);
    assert p + "?" + (a + e) == p + "?" + a + e;
  }

  /** `p?a` is ASCII and has neither `\` nor `[`. */
  lemma PathAndCase(p: string, a: string)
    requires SelectorPath(p) && CaseNamePart(a)
    ensures IsAscii(p + "?" + a) && NoChar(p + "?" + a, '\\') && NoChar(p + "?" + a, '[')
  {
    var x := p + "?" + a;
    forall k | 0 <= k < |x| ensures x[k] as int < 0x80 && x[k] != '\\' && x[k] != '[' {
      if k > |p| { assert x[k] == a[k - |p| - 1]; }
    }
  }

  /** Regrouping the tagged selector, kept apart so that TaggedIdNormalizes stays small. */
  lemma TagConcat(p: string, a: string, b: string)
    ensures (p + "?" + a) + ("/[" + b + "]") == p + "?" + (a + "/[" + b + "]")
  {
  }

  /** Normalizing the id of a tagged selector gives the selector back. */
  lemma TaggedIdNormalizes(p: string, a: string, b: string)
    requires SelectorPath(p) && CaseNamePart(a) && TagBody(b)
    ensures NormalizeTestcaseName(p + "::" + (ReplaceAll(a, "/", "::") + ("[" + Escape(b) + "]"))) == Ok(p + "?" + (a + "/[" + b + "]"))
  {
    var x := p + "?" + a;
    var et := "[" + Escape(b) + "]";
    EscapeKeepsAbsent(b, ':');
    NormalizeJoined(p, a, et);
    PathAndCase(p, a);
    DecodePrefix(x, et);
    DecodeEscapedTag(b);
    TagConcat(p, a, b);
  }

  /** normalize_testcase_name undoes selector_to_pytest on a case `a/[b]` with a restorable tag. */
  lemma TaggedRoundTrip(p: string, a: string, b: string)
    requires SelectorPath(p) && CaseNamePart(a) && TagBody(b)
    requires !StartsWith(a + "/[" + b + "]", "name=")
    ensures NormalizeTestcaseName(PytestId(p + "?" + (a + "/[" + b + "]"))) == Ok(p + "?" + (a + "/[" + b + "]"))
  {
    TaggedId(p, a, b);
    TaggedIdNormalizes(p, a, b);
  }

  // ---------------------------------------------------------------------------------------
  // The three branches of pytest_to_selector

  /** `name` qualified by the item's class with `sep`, or `name` alone for a function. */
  function Qualified(cls: ClsAttr, sep: string, name: string): string {
    if cls.Cls? then cls.className + sep + name else name
  }

  /** `a` + `s` + `b` with the separator `s` replaced, when `a` and `b` lack its first char. */
  lemma ReplaceSeparator(a: string, s: string, b: string, rep: string)
    requires s != [] && NoChar(a, s[0]) && NoChar(b, s[0])
    ensures ReplaceAll(a + s + b, s, rep) == a + rep + b
  {
    assert a + s + b == a + (s + b);
    ReplaceSkips(a, s + b, s, rep, -1);
    ReplaceAtFront(s, b, rep, -1);
    AbsentCharNoMatch(b, s, 0);
    ReplaceAbsent(b, s, rep, -1);
  }

  /**
    For an item whose path, node id and location describe the same test, the three
    branches of pytest_to_selector give the same selector.
   */
  lemma ItemShapesAgree(item: Item, projectPath: string, relPath: (string, string) -> string, p: string)
    requires item.path.Some? && item.path.value != [] && item.cls != NoClsAttr
    requires relPath(item.path.value, projectPath) == p && item.location.relPath == p
    requires SelectorPath(p)
    requires item.name != [] && NoChar(item.name, ':') && NoChar(item.name, '.')
    requires item.cls.Cls? ==> NoChar(item.cls.className, ':') && NoChar(item.cls.className, '.')
    requires item.nodeid == Some(p + "::" + Qualified(item.cls, "::", item.name))
    requires item.location.domain == Qualified(item.cls, ".", item.name)
    ensures PytestToSelector(item.(path := None), projectPath, relPath) == PytestToSelector(item, projectPath, relPath)
    ensures PytestToSelector(item.(path := None, nodeid := None), projectPath, relPath) == PytestToSelector(item, projectPath, relPath)
  {
    var name := item.name;
    var slashed := Qualified(item.cls, "/", name);
    assert slashed != [];
    NormalizeAfterPath(p, Qualified(item.cls, "::", name));
    if item.cls.Cls? {
      var cn := item.cls.className;
      ReplaceSeparator(cn, "::", name, "/");
      ReplaceSeparator(cn, ".", name, "/");
    } else {
      AbsentCharNoMatch(name, "::", 0);
      ReplaceAbsent(name, "::", "/", -1);
      AbsentCharNoMatch(name, ".", 0);
      ReplaceAbsent(name, ".", "/", -1);
    }
    DecodePrefix(p + "?", slashed);
    assert UsesNodeId(item.(path := None));
  }

  /** pytest_to_selector reads a node id that selector_to_pytest produced back as the selector. */
  lemma NodeIdRoundTrip(item: Item, projectPath: string, relPath: (string, string) -> string, p: string, c: string)
    requires !UsesPath(item)
    requires SelectorPath(p)
    requires c != [] && NoChar(c, ':') && NoChar(c, '[') && NoChar(c, '&') && !StartsWith(c, "name=")
    requires item.nodeid == Some(PytestId(p + "?" + c))
    ensures PytestToSelector(item, projectPath, relPath) == Ok(p + "?" + c)
  {
    UntaggedRoundTrip(p, c);
    UntaggedId(p, c);
  }
}
