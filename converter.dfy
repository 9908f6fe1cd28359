/**
  Translation of test identifiers between the test selector format `path?case` and pytest
  node ids `path::Cls::func[param]`.

  A selector's case is either a case name (`Cls/func`, optionally followed by a data-drive
  tag `/[param]`) or a list of `&`-separated attributes. Data-drive tags travel through
  pytest escaped with Python's `unicode_escape` codec.
 */
module Converter {
  import opened Wrappers
  import opened PyText
  import opened UnicodeEscape

  // ---------------------------------------------------------------------------------------
  // Choosing the case name from a selector's attributes

  /** An attribute that names the case: it contains `name=` anywhere, not only in front. */
  predicate NamesCase(attr: string) {
    Contains(attr, "name=")
  }

  /** An attribute without `=`: a bare case name. */
  predicate IsBareValue(attr: string) {
    !Contains(attr, "=")
  }

  /** An attribute that ends the scan. */
  predicate Decides(attr: string) {
    NamesCase(attr) || IsBareValue(attr)
  }

  /** The case name a deciding attribute gives: `attr[5:]` for a naming one, else the attribute. */
  function Chosen(attr: string): string {
    if NamesCase(attr) then SliceFrom(attr, 5) else attr
  }

  /** The index of the first deciding attribute, scanning left to right. */
  function FirstDeciding(attrs: seq<string>): (r: Option<nat>)
    ensures r.Some? ==> r.value < |attrs| && Decides(attrs[r.value])
    ensures r.Some? ==> forall i :: 0 <= i < r.value ==> !Decides(attrs[i])
    ensures r.None? ==> forall i :: 0 <= i < |attrs| ==> !Decides(attrs[i])
  {
    if attrs == [] then None
    else if Decides(attrs[0]) then Some(0)
    else match FirstDeciding(attrs[1..])
      case Some(k) => Some(k + 1)
      case None => None
  }

  /**
    The case name of the text after `?` (lines 15-26): with `&`, the first deciding
    attribute, or the whole text when none decides; without `&`, the text less a leading
    `name=`.
   */
  function SelectedCase(testcase: string): string {
    if Contains(testcase, "&") then
      var attrs := Split(testcase, '&');
      match FirstDeciding(attrs)
      case Some(k) => Chosen(attrs[k])
      case None => testcase
    else if StartsWith(testcase, "name=") then testcase[5..]
    else testcase
  }

  /** None of the first `n` attributes decides. */
  predicate NoneDecides(attrs: seq<string>, n: nat) {
    n <= |attrs| && forall j :: 0 <= j < n ==> !Decides(attrs[j])
  }

  lemma NoneDecidesStep(attrs: seq<string>, n: nat)
    requires NoneDecides(attrs, n) && n < |attrs| && !Decides(attrs[n])
    ensures NoneDecides(attrs, n + 1)
  {
  }

  /** The first deciding attribute is the one no earlier attribute precedes. */
  lemma FirstDecidingIs(attrs: seq<string>, k: nat)
    requires k < |attrs| && Decides(attrs[k])
    requires forall i :: 0 <= i < k ==> !Decides(attrs[i])
    ensures FirstDeciding(attrs) == Some(k)
  {
  }

  /** The scan over the attributes of a text with `&` stops at the first deciding one. */
  lemma ScanStops(testcase: string, k: nat)
    requires Contains(testcase, "&")
    requires k < |Split(testcase, '&')| && Decides(Split(testcase, '&')[k])
    requires NoneDecides(Split(testcase, '&'), k)
    ensures SelectedCase(testcase) == Chosen(Split(testcase, '&')[k])
  {
    FirstDecidingIs(Split(testcase, '&'), k);
  }

  /** Without `&` only a leading `name=` is dropped. */
  lemma SingleAttribute(testcase: string)
    requires !Contains(testcase, "&")
    ensures SelectedCase(testcase) == if StartsWith(testcase, "name=") then testcase[5..] else testcase
  {
  }

  /** When no attribute decides, the text is kept whole. */
  lemma ScanExhausted(testcase: string)
    requires Contains(testcase, "&")
    requires NoneDecides(Split(testcase, '&'), |Split(testcase, '&')|)
    ensures SelectedCase(testcase) == testcase
  {
    var f := FirstDeciding(Split(testcase, '&'));
    assert f.None?;
  }

  // ---------------------------------------------------------------------------------------
  // Data-drive tags

  /** A pytest parametrization tag: starts with `[` and ends with `]`. */
  predicate IsDatadriveTag(t: string) {
    t != [] && StartsWith(t, "[") && EndsWith(t, "]")
  }

  /** Splits a trailing `/[...]` data-drive tag off a case (extract_case_and_datadrive). */
  function ExtractCaseAndDatadrive(caseSelector: string): (r: (string, string))
    ensures r.1 == [] ==> r.0 == caseSelector
    ensures r.1 != [] ==> r.0 + "/" + r.1 == caseSelector
    ensures r.1 != [] ==> IsDatadriveTag(r.1) && |r.1| >= 2 && NoChar(r.1, '/')
  {
    var splits := RSplitOnce(caseSelector, '/');
    if |splits| == 2 then
      if splits[1] != [] && StartsWith(splits[1], "[") && EndsWith(splits[1], "]") then
        (splits[0], splits[1])
      else
        (caseSelector, [])
    else
      (caseSelector, [])
  }

  /** A tag after the last `/` is always found. */
  lemma ExtractFindsTag(a: string, t: string)
    requires IsDatadriveTag(t) && NoChar(t, '/')
    ensures ExtractCaseAndDatadrive(a + "/" + t) == (a, t)
  {
    RSplitAtLast(a, '/', t);
  }

  /** Without a `[` there is no tag, and the case is the whole text. */
  lemma ExtractNoBracket(s: string)
    requires NoChar(s, '[')
    ensures ExtractCaseAndDatadrive(s) == (s, [])
  {
    var splits := RSplitOnce(s, '/');
    if |splits| == 2 && splits[1] != [] {
      assert s[|splits[0]| + 1] == splits[1][0];
    }
  }

  /**
    Escapes a data-drive tag the way pytest shows it (encode_datadrive): Python's
    `unicode_escape`, then every `/[` becomes `[`.
   */
  function EncodeDatadrive(name: string): (r: string)
    ensures !(EndsWith(name, "]") && Contains(name, "[")) ==> r == name
    ensures EndsWith(name, "]") && Contains(name, "[") ==> IsAscii(r)
  {
    if EndsWith(name, "]") && Contains(name, "[") then
      EscapeAscii(name);
      ReplaceAscii(Escape(name), "/[", "[", -1);
      ReplaceAll(Escape(name), "/[", "[")
    else
      name
  }

  /**
    Makes a data-drive tag readable again (decode_datadrive): inserts `/` before every `[`
    and, when `\u` and four word characters occur, applies the `unicode_escape` decoder.
   */
  function DecodeDatadrive(name: string): (r: Result<string>)
    ensures !(EndsWith(name, "]") && Contains(name, "[")) ==> r == Ok(name)
    ensures EndsWith(name, "]") && Contains(name, "[") && NoChar(name, '\\') ==> r == Ok(ReplaceAll(name, "[", "/["))
    ensures r.Err? ==> r.failure != AssertionError
  {
    if EndsWith(name, "]") && Contains(name, "[") then
      var s := ReplaceAll(name, "[", "/[");
      assert NoChar(name, '\\') ==> !MayMatchUEscape(s) by {
        if NoChar(name, '\\') {
          ReplaceKeepsAbsent(name, "[", "/[", -1, '\\');
          NoBackslashNoMatch(s);
        }
      }
      if MayMatchUEscape(s) then Unescape(s) else Ok(s)
    else
      Ok(name)
  }

  /** A pytest node id back in selector form (normalize_testcase_name); the id must contain `::`. */
  function NormalizeTestcaseName(name: string): (r: Result<string>)
    ensures r == Err(AssertionError) <==> !Contains(name, "::")
  {
    if !Contains(name, "::") then Err(AssertionError)
    else DecodeDatadrive(ReplaceAll(Replace(name, "::", "?", 1), "::", "/"))
  }

  // ---------------------------------------------------------------------------------------
  // Selector to pytest

  /** The pytest node id for a selector: what selector_to_pytest computes. */
  function PytestId(selector: string): string {
    var (path, _, testcase) := Partition(selector, "?");
    if testcase == [] then path
    else
      var (caseName, tag) := ExtractCaseAndDatadrive(SelectedCase(testcase));
      var tag' := if tag != [] then EncodeDatadrive(tag) else tag;
      var result := path + "::" + ReplaceAll(caseName, "/", "::");
      if tag' != [] then result + tag' else result
  }

  /**
    The case-name step of selector_to_pytest (lines 15-26): with `&`, scans the attributes
    left to right until one names the case or is bare.
   */
  method SelectCase(testcase: string) returns (caseText: string)
    ensures caseText == SelectedCase(testcase)
  {
    caseText := testcase;
    if Contains(testcase, "&") {
      var attrs := Split(testcase, '&');
      var i := 0;
      while i < |attrs|
        invariant 0 <= i <= |attrs|
        invariant caseText == testcase
        invariant NoneDecides(attrs, i)
      {
        var attr := attrs[i];
        if Contains(attr, "name=") {
          ScanStops(testcase, i);
          caseText := SliceFrom(attr, 5);
          return;
        } else if !Contains(attr, "=") {
          ScanStops(testcase, i);
          caseText := attr;
          return;
        }
        NoneDecidesStep(attrs, i);
        i := i + 1;
      }
      ScanExhausted(testcase);
    } else {
      SingleAttribute(testcase);
      if StartsWith(testcase, "name=") {
        caseText := testcase[5..];
      }
    }
  }

  /**
    selector_to_pytest: partitions at the first `?`, picks the case name, splits off the
    data-drive tag and joins with `::`.
   */
  method SelectorToPytest(testSelector: string) returns (result: string)
    ensures result == PytestId(testSelector)
  {
    var (path, _, testcase) := Partition(testSelector, "?");
    if testcase == [] {
      return path;
    }
    testcase := SelectCase(testcase);
    var (caseName, datadrive) := ExtractCaseAndDatadrive(testcase);
    if datadrive != [] {
      datadrive := EncodeDatadrive(datadrive);
    }
    caseName := ReplaceAll(caseName, "/", "::");
    result := path + "::" + caseName;
    if datadrive != [] {
      result := result + datadrive;
    }
  }

  // ---------------------------------------------------------------------------------------
  // Pytest to selector

  /** What `hasattr(item, "cls")` and `item.cls` give: no attribute, `None`, or a class. */
  datatype ClsAttr = NoClsAttr | ClsNone | Cls(className: string)

  /** `item.location`: the path relative to the root, the line (unused) and the dotted name. */
  datatype Location = Location(relPath: string, lineno: Option<nat>, domain: string)

  /** The parts of a pytest item the converter reads; `None` is a missing attribute. */
  datatype Item = Item(
    path: Option<string>,
    cls: ClsAttr,
    name: string,
    nodeid: Option<string>,
    location: Location)

  /** `hasattr(item, "path") and hasattr(item, "cls") and item.path`. */
  predicate UsesPath(item: Item) {
    item.path.Some? && item.cls != NoClsAttr && item.path.value != []
  }

  /** The second branch: `hasattr(item, "nodeid") and item.nodeid`. */
  predicate UsesNodeId(item: Item) {
    !UsesPath(item) && item.nodeid.Some? && item.nodeid.value != []
  }

  /** The first branch: the path relative to the project, `?`, then `Cls/name` decoded. */
  function SelectorFromPath(relPath: string, cls: ClsAttr, name: string): (r: Result<string>)
    ensures r.Ok? ==> StartsWith(r.value, relPath + "?")
    ensures r.Err? ==> r.failure != AssertionError
  {
    var name' := if cls.Cls? then cls.className + "/" + name else name;
    Prefixed(relPath + "?", DecodeDatadrive(name'))
  }

  /** The third branch: the location's path, `?`, then the dotted name with `.` as `/`, decoded. */
  function SelectorFromLocation(location: Location): (r: Result<string>)
    ensures r.Ok? ==> StartsWith(r.value, location.relPath + "?")
    ensures r.Err? ==> r.failure != AssertionError
  {
    var name := ReplaceAll(location.domain, ".", "/");
    Prefixed(location.relPath + "?", DecodeDatadrive(name))
  }

  /**
    pytest_to_selector. `relPath` stands for `os.path.relpath`, which the model leaves
    uninterpreted.
   */
  function PytestToSelector(item: Item, projectPath: string, relPath: (string, string) -> string): (r: Result<string>)
    ensures r == Err(AssertionError) <==> UsesNodeId(item) && !Contains(item.nodeid.value, "::")
    ensures UsesPath(item) && r.Ok? ==> StartsWith(r.value, relPath(item.path.value, projectPath) + "?")
    ensures !UsesPath(item) && !UsesNodeId(item) && r.Ok? ==> StartsWith(r.value, item.location.relPath + "?")
  {
    if UsesPath(item) then
      SelectorFromPath(relPath(item.path.value, projectPath), item.cls, item.name)
    else if UsesNodeId(item) then
      NormalizeTestcaseName(item.nodeid.value)
    else
      SelectorFromLocation(item.location)
  }
}
