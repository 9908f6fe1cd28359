/**
  Concrete inputs and what the converter makes of them. Each example takes its text as
  parameters fixed by `requires`, so that the verifier reasons with the general lemmas
  instead of evaluating the converter on literals.
 */
module ConverterExamples {
  import opened Wrappers
  import opened PyText
  import opened UnicodeEscape
  import opened Converter
  import opened ConverterLemmas

  // ---------------------------------------------------------------------------------------
  // extract_case_and_datadrive

  /** `test_x/[1-2]` splits into the case `test_x` and the tag `[1-2]`. */
  lemma ExtractTag(a: string, t: string)
    requires a == "test_x" && t == "[1-2]"
    ensures ExtractCaseAndDatadrive(a + "/" + t) == ("test_x", "[1-2]")
  {
    assert t[0] == '[' && t[4] == ']';
    assert IsDatadriveTag(t) && NoChar(t, '/');
    ExtractFindsTag(a, t);
  }

  /** A case without `/` has no tag. */
  lemma ExtractNoTag(s: string)
    requires s == "t"
    ensures ExtractCaseAndDatadrive(s) == (s, [])
  {
    assert NoChar(s, '[');
    ExtractNoBracket(s);
  }

  /** A last part that does not end with `]` is no tag. */
  lemma ExtractUnclosed(a: string, b: string)
    requires a == "a" && b == "b[x"
    ensures ExtractCaseAndDatadrive(a + "/" + b) == (a + "/" + b, [])
  {
    assert NoChar(b, '/');
    RSplitAtLast(a, '/', b);
    assert b[0] == 'b';
  }

  // ---------------------------------------------------------------------------------------
  // selector_to_pytest

  /** `name=` is looked for anywhere in an attribute, so `rename=x` names the case `e=x`. */
  lemma NameAnywhere(attr: string)
    requires attr == "rename=x"
    ensures NamesCase(attr) && Chosen(attr) == "e=x"
  {
    assert OccursAt(attr, "name=", 2);
    ContainsAt(attr, "name=", 2);
  }

  /** A selector without a case, or with an empty one, is the file path. */
  lemma WithoutCase(p: string)
    requires p == "f.py"
    ensures PytestId(p) == "f.py" && PytestId(p + "?") == "f.py"
  {
    assert NoChar(p, '?');
    WholeFile(p);
  }

  /** In `a=1&name=test_y&b=2`, `a=1` does not decide and `name=test_y` names the case. */
  lemma NamedAttributeCase(attrs: seq<string>)
    requires attrs == ["a=1", "name=test_y", "b=2"]
    ensures SelectedCase(Join(attrs, '&')) == "test_y"
  {
    NamedPieces(attrs);
    ContainsAt(attrs[0], "=", 1);
    ContainsAt(attrs[1], "name=", 0);
    FirstDecidingWins(attrs, 1);
  }

  /** Facts about the literal attributes, kept apart so that the example proofs stay small. */
  lemma NamedPieces(attrs: seq<string>)
    requires attrs == ["a=1", "name=test_y", "b=2"]
    ensures |attrs| == 3 && forall i :: 0 <= i < |attrs| ==> NoChar(attrs[i], '&')
    ensures OccursAt(attrs[0], "=", 1) && !NamesCase(attrs[0]) && OccursAt(attrs[1], "name=", 0)
    ensures SliceFrom(attrs[1], 5) == "test_y"
  {
  }

  /** `f.py?a=1&name=test_y&b=2` names the test `test_y`. */
  lemma NamedAttributeWins(p: string, c: string)
    requires p == "f.py" && c == "a=1&name=test_y&b=2"
    ensures PytestId(p + "?" + c) == p + "::" + "test_y"
  {
    NamedJoin(c);
    NamedAttributeCase(["a=1", "name=test_y", "b=2"]);
    ExampleNames(p, "test_y");
    CaseNamed(p, c, "test_y");
  }

  /** The attribute list joined with `&` is the literal, kept apart so that the example proofs stay small. */
  lemma NamedJoin(c: string)
    requires c == "a=1&name=test_y&b=2"
    ensures Join(["a=1", "name=test_y", "b=2"], '&') == c
  {
  }

  /** In `plainval&x=2`, the bare `plainval` decides first. */
  lemma BareAttributeCase(attrs: seq<string>)
    requires attrs == ["plainval", "x=2"]
    ensures SelectedCase(Join(attrs, '&')) == "plainval"
  {
    PlainvalPieces(attrs);
    ContainsChar(attrs[0], '=');
    AbsentCharNoMatch(attrs[0], "name=", 4);
    FirstDecidingWins(attrs, 0);
  }

  /** Facts about the literal attributes, kept apart so that the example proofs stay small. */
  lemma PlainvalPieces(attrs: seq<string>)
    requires attrs == ["plainval", "x=2"]
    ensures |attrs| == 2 && NoChar(attrs[0], '&') && NoChar(attrs[1], '&') && NoChar(attrs[0], '=')
    ensures attrs[0] == "plainval" && "name="[4] == '='
  {
  }

  /** `f.py?plainval&x=2` names the test `plainval`. */
  lemma BareAttributeWins(p: string, c: string)
    requires p == "f.py" && c == "plainval&x=2"
    ensures PytestId(p + "?" + c) == p + "::" + "plainval"
  {
    assert Join(["plainval", "x=2"], '&') == c;
    BareAttributeCase(["plainval", "x=2"]);
    ExampleNames(p, "plainval");
    CaseNamed(p, c, "plainval");
  }

  /** Facts about the literal path and names, kept apart so that the example proofs stay small. */
  lemma ExampleNames(p: string, n: string)
    requires p == "f.py" && (n == "test_y" || n == "plainval")
    ensures NoChar(p, '?') && NoChar(n, '[') && NoChar(n, '/')
  {
  }

  /** A selector whose case comes out as a name `n` without `/` or `[` has the id `p::n`. */
  lemma CaseNamed(p: string, c: string, n: string)
    requires NoChar(p, '?') && c != [] && SelectedCase(c) == n && NoChar(n, '[') && NoChar(n, '/')
    ensures PytestId(p + "?" + c) == p + "::" + n
  {
    ExtractNoBracket(n);
    UntaggedShape(p, c);
    ContainsChar(n, '/');
    ReplaceAbsent(n, "/", "::", -1);
  }

  /** A class member `C/t` becomes `C::t`. */
  lemma ClassMember(p: string, c: string)
    requires p == "f.py" && c == "C/t"
    ensures PytestId(p + "?" + c) == p + "::" + "C::t"
  {
    assert c[0] == 'C';
    assert NoChar(c, '&') && !StartsWith(c, "name=");
    SingleCaseKept(c);
    assert NoChar(p, '?') && NoChar(c, '[');
    ExtractNoBracket(c);
    UntaggedShape(p, c);
    assert "C" + "/" + "t" == c;
    ReplaceSeparator("C", "/", "t", "::");
    ClassMemberJoined();
  }

  /** The literal `C::t` as a concatenation, kept apart so that ClassMember stays small. */
  lemma ClassMemberJoined()
    ensures "C" + "::" + "t" == "C::t"
  {
  }

  // ---------------------------------------------------------------------------------------
  // normalize_testcase_name and decode_datadrive

  /** The decoder inserts `/` before the tag of `C/t[1]`. */
  lemma DecodeExampleCase(x: string, body: string)
    requires x == "C/t" && body == "1"
    ensures DecodeDatadrive(x + "[" + body + "]") == Ok(x + "/[" + body + "]")
  {
    assert NoChar(x, '[') && NoChar(x, '\\') && NoChar(body, '[') && NoChar(body, '\\');
    DecodePlainTag(x, body);
  }

  /** `f.py::C::t[1]` is the selector `f.py?C/t/[1]`. */
  lemma NormalizeExample(p: string, c: string, f: string)
    requires p == "f.py" && c == "C" && f == "t[1]"
    ensures NormalizeTestcaseName(p + "::" + (c + "::" + f)) == Ok(p + "?" + ("C/t" + "/[" + "1" + "]"))
  {
    assert NoChar(p, ':') && NoChar(c, ':') && NoChar(f, ':');
    NormalizeClassMember(p, c, f);
    NormalizeExampleJoined(c, f);
    DecodeExampleTail(p, c + "/" + f);
  }

  /** The decoder inserts `/` before the tag of `f.py?C/t[1]` and leaves the path alone. */
  lemma DecodeExampleTail(p: string, n: string)
    requires p == "f.py" && n == "C/t" + "[" + "1" + "]"
    ensures DecodeDatadrive(p + "?" + n) == Ok(p + "?" + ("C/t" + "/[" + "1" + "]"))
  {
    assert IsAscii(p + "?") && NoChar(p + "?", '\\') && NoChar(p + "?", '[');
    DecodePrefix(p + "?", n);
    DecodeExampleCase("C/t", "1");
  }

  /** The literal `C/t[1]` as a concatenation, kept apart so that NormalizeExample stays small. */
  lemma NormalizeExampleJoined(c: string, f: string)
    requires c == "C" && f == "t[1]"
    ensures c + "/" + f == "C/t" + "[" + "1" + "]"
  {
  }

  /** The example of normalize_testcase_name's docstring. */
  lemma NormalizeDocstringExample(p: string, c: string, f: string, d: string)
    requires p == "test_directory/test_module.py" && c == "TestExampleClass"
    requires f == "test_example_function" && d == "datedrive"
    ensures NormalizeTestcaseName(p + "::" + (c + "::" + (f + "[" + d + "]")))
      == Ok(p + "?" + (c + "/" + f + "/[" + d + "]"))
  {
    DocstringPath(p);
    DocstringNames(c, f, d);
    var x := c + "/" + f;
    NormalizeClassMember(p, c, f + "[" + d + "]");
    assert c + "/" + (f + "[" + d + "]") == x + "[" + d + "]";
    DecodePrefix(p + "?", x + "[" + d + "]");
    DecodePlainTag(x, d);
    assert p + "?" + (x + "[" + d + "]") == (p + "?") + (x + "[" + d + "]");
  }

  /** Facts about the docstring's literal path, kept apart so that the example proof stays small. */
  lemma DocstringPath(p: string)
    requires p == "test_directory/test_module.py"
    ensures NoChar(p, ':') && IsAscii(p + "?") && NoChar(p + "?", '\\') && NoChar(p + "?", '[')
  {
  }

  /** Facts about the docstring's literal names, kept apart so that the example proof stays small. */
  lemma DocstringNames(c: string, f: string, d: string)
    requires c == "TestExampleClass" && f == "test_example_function" && d == "datedrive"
    ensures NoChar(c, ':') && NoChar(f + "[" + d + "]", ':')
    ensures NoChar(c + "/" + f, '[') && NoChar(c + "/" + f, '\\') && NoChar(d, '[') && NoChar(d, '\\')
  {
  }

  /** An id without `::` fails the assertion. */
  lemma NormalizeNeedsColons(name: string)
    requires name == "no-colon"
    ensures NormalizeTestcaseName(name) == Err(AssertionError)
  {
    assert NoChar(name, ':');
    AbsentCharNoMatch(name, "::", 0);
  }

  // ---------------------------------------------------------------------------------------
  // pytest_to_selector

  /**
    The location branch turns every `.` of the dotted name into `/`, also inside a
    parametrize id: for `test_x[1.5]` it disagrees with the path branch.
   */
  lemma DottedParameterDisagrees(
    item: Item, projectPath: string, relPath: (string, string) -> string, x: string, d: string, e: string)
    requires x == "test_x" && d == "1" && e == "5"
    requires item == Item(Some("f.py"), ClsNone, x + "[" + d + "." + e + "]", None,
      Location("f.py", None, x + "[" + d + "." + e + "]"))
    requires relPath("f.py", projectPath) == "f.py"
    ensures PytestToSelector(item, projectPath, relPath) == Ok("f.py" + "?" + (x + "/[" + (d + "." + e) + "]"))
    ensures PytestToSelector(item.(path := None), projectPath, relPath)
      == Ok("f.py" + "?" + (x + "/[" + (d + "/" + e) + "]"))
    ensures PytestToSelector(item.(path := None), projectPath, relPath) != PytestToSelector(item, projectPath, relPath)
  {
    assert UsesPath(item) && !UsesPath(item.(path := None)) && !UsesNodeId(item.(path := None));
    DottedPathBranch(x, d, e);
    DottedLocationBranch(x, d, e);
    DottedResultsDiffer(x, d, e);
  }

  /** The path branch only puts `/` before the `[`. */
  lemma DottedPathBranch(x: string, d: string, e: string)
    requires x == "test_x" && d == "1" && e == "5"
    ensures DecodeDatadrive(x + "[" + d + "." + e + "]") == Ok(x + "/[" + (d + "." + e) + "]")
  {
    DottedPieces(x, d, e);
    assert x + "[" + d + "." + e + "]" == x + "[" + (d + "." + e) + "]";
    DecodePlainTag(x, d + "." + e);
  }

  /** The location branch also turns the `.` of the parameter into `/`. */
  lemma DottedLocationBranch(x: string, d: string, e: string)
    requires x == "test_x" && d == "1" && e == "5"
    ensures DecodeDatadrive(ReplaceAll(x + "[" + d + "." + e + "]", ".", "/")) == Ok(x + "/[" + (d + "/" + e) + "]")
  {
    DottedPieces(x, d, e);
    assert x + "[" + d + "." + e + "]" == (x + "[" + d) + "." + (e + "]");
    ReplaceSeparator(x + "[" + d, ".", e + "]", "/");
    assert (x + "[" + d) + "/" + (e + "]") == x + "[" + (d + "/" + e) + "]";
    DecodePlainTag(x, d + "/" + e);
  }

  /** Facts about the literal names, kept apart so that the branch proofs stay small. */
  lemma DottedPieces(x: string, d: string, e: string)
    requires x == "test_x" && d == "1" && e == "5"
    ensures NoChar(x, '[') && NoChar(x, '\\') && NoChar(d + "." + e, '[') && NoChar(d + "." + e, '\\')
    ensures NoChar(d + "/" + e, '[') && NoChar(d + "/" + e, '\\')
    ensures NoChar(x + "[" + d, '.') && NoChar(e + "]", '.')
  {
  }

  /** The two branch results differ in the character after `1`. */
  lemma DottedResultsDiffer(x: string, d: string, e: string)
    requires x == "test_x" && d == "1" && e == "5"
    ensures "f.py" + "?" + (x + "/[" + (d + "." + e) + "]") != "f.py" + "?" + (x + "/[" + (d + "/" + e) + "]")
  {
    var r1 := "f.py" + "?" + (x + "/[" + (d + "." + e) + "]");
    var r2 := "f.py" + "?" + (x + "/[" + (d + "/" + e) + "]");
    assert r1[14] == '.' && r2[14] == '/';
  }

  /** Names without a trailing tag pass both directions unchanged. */
  lemma PlainNameUnchanged(name: string)
    requires name == "plain"
    ensures EncodeDatadrive(name) == name && DecodeDatadrive(name) == Ok(name)
  {
    assert name[4] == 'n';
    assert !EndsWith(name, "]");
  }

  /** A tag in Chinese survives the trip through pytest. */
  lemma ChineseTagRoundTrip(b: string)
    requires b == "\U{4e2d}\U{6587}-\U{4e2d}\U{6587}\U{6c49}\U{5b57}"
    ensures DecodeDatadrive(EncodeDatadrive("/[" + b + "]")) == Ok("/[" + b + "]")
  {
    assert NoChar(b, '[');
    assert 0x100 <= b[0] as int < 0x10000;
    TagRoundTrip(b);
  }

  /** A `[` inside a tag body gets a `/` of its own: `/[a[b]` comes back as `/[a/[b]`. */
  lemma InnerBracketGainsSlash(t: string)
    requires t == "/[a[b]"
    ensures DecodeDatadrive(EncodeDatadrive(t)) == Ok("/[a/[b]") && "/[a/[b]" != t
  {
    InnerBracketEncode(t);
    InnerBracketDecode("[a[b]");
  }

  /** The encoder drops the `/` in front of the outer `[` only. */
  lemma InnerBracketEncode(t: string)
    requires t == "/[a[b]"
    ensures EncodeDatadrive(t) == "[a[b]"
  {
    var rest := "a[b]";
    assert t == "/[" + rest;
    assert EndsWith(t, "]") && OccursAt(t, "[", 1);
    EscapePlain(t);
    ReplaceAtFront("/[", rest, "[", -1);
    ReplaceSkips(rest, [], "/[", "[", -1);
    assert rest + [] == rest;
  }

  /** The decoder puts `/` before both `[`. */
  lemma InnerBracketDecode(n: string)
    requires n == "[a[b]"
    ensures DecodeDatadrive(n) == Ok("/[a/[b]")
  {
    assert n == "[" + ("a" + ("[" + "b]"));
    assert EndsWith(n, "]") && OccursAt(n, "[", 0);
    ReplaceAtFront("[", "a" + ("[" + "b]"), "/[", -1);
    ReplaceSkips("a", "[" + "b]", "[", "/[", -1);
    ReplaceAtFront("[", "b]", "/[", -1);
    ReplaceSkips("b]", [], "[", "/[", -1);
    assert "b]" + [] == "b]";
    var r := ReplaceAll(n, "[", "/[");
    assert r == "/[" + ("a" + ("/[" + "b]"));
    assert r == "/[a/[b]";
    NoBackslashNoMatch(r);
  }

  /** `é` (U+00E9) is escaped as `\xe9`. */
  lemma LatinEscape(b: string)
    requires b == "\U{e9}"
    ensures EncodeDatadrive("/[" + b + "]") == "[" + "\\xe9" + "]"
  {
    EncodeSlashTag(b);
    EscapeE9(b);
  }

  /** The one-character escape behind LatinEscape. */
  lemma EscapeE9(b: string)
    requires b == "\U{e9}"
    ensures Escape(b) == "\\xe9"
  {
    var c := b[0];
    assert c as int == 0xe9;
    assert Hex(0xe9, 2) == Hex(0xe, 1) + [HexDigit(9)];
    assert Hex(0xe, 1) == Hex(0, 0) + [HexDigit(0xe)];
    assert Hex(0xe9, 2) == "e9";
    assert EscapeChar(c) == "\\x" + Hex(0xe9, 2);
    assert b[1..] == [];
    assert Escape(b) == EscapeChar(c) + Escape([]);
  }

  /** The escaped `é` has no `\u`, so the decoder only inserts the `/`. */
  lemma LatinDecode(e: string)
    requires e == "\\xe9"
    ensures DecodeDatadrive("[" + e + "]") == Ok("/[" + e + "]")
  {
    assert NoChar(e, '[');
    BracketedGuard(e);
    var s := "/[" + e + "]";
    assert s[2] == '\\' && s[3] == 'x' && |s| == 7;
    assert !MayMatchUEscape(s) by {
      forall j | 0 <= j < |s| ensures !UEscapeAt(s, j) {
        if j == 2 { assert s[3] == 'x'; }
      }
    }
  }

  /**
    A Latin-1 character is escaped as `\xe9`, which the decoder's `\u` guard does not
    notice: the tag comes back escaped.
   */
  lemma LatinTagStaysEscaped(b: string)
    requires b == "\U{e9}"
    ensures DecodeDatadrive(EncodeDatadrive("/[" + b + "]")) == Ok("/[" + "\\xe9" + "]")
  {
    LatinEscape(b);
    LatinDecode("\\xe9");
  }
}
