# Test selector ⇄ pytest id converter, modelled in Dafny

The TestSolar pytest plugin names a test in two ways:

- a **test selector** `path?case`, where `case` is either a case name `Cls/func`, with an
  optional data-drive tag `/[param]` after it, or a list of `&`-separated attributes such
  as `a=1&name=Cls/func`;
- a **pytest node id** `path::Cls::func[param]`, whose parametrization tag pytest shows
  escaped with Python's `unicode_escape` codec.

`pytest/src/testsolar_pytestx/converter.py` translates between the two. This project
models its six functions and proves what the translation promises:

- how the case name is picked from the attributes;
- the shape of the node id that is built;
- the data-drive tag codec and its round trip;
- selector → node id → selector;
- that the three ways `pytest_to_selector` can read an item agree.

Files:

- `wrappers.dfy`: `Option`, and a `Result` whose `Failure` says why no value comes back.
  `AssertionError` is the converter's own `assert`. `UnicodeDecodeError` is raised by the
  codec. `Unmodelled` means the model does not describe what Python does.
- `py_text.dfy` (module `PyText`): the Python `str` operations the converter uses. These
  are `in`, `startswith`, `endswith`, `partition`, `split`, `rsplit(sep, 1)`, `replace`
  with and without a count, and slicing past the end.
- `unicode_escape.dfy` (module `UnicodeEscape`):
  - the encoder, character by character as CPython writes it, with lowercase hex;
  - the decoder, for the escapes the encoder writes;
  - the `\\u\w{4}` search that guards the decoder;
  - the codec round trip.
- `converter.dfy` (module `Converter`):
  - the converter's functions;
  - the attribute scan and `selector_to_pytest` as loop-and-update methods, each proved
    equal to a specification function;
  - the `Item` datatype, which stands for the attributes of a pytest item that the
    converter reads.
- `converter_lemmas.dfy` (module `ConverterLemmas`): properties connecting the operations.
- `converter_examples.dfy` (module `ConverterExamples`): the examples from the docstrings,
  plus a few edge cases, as lemmas.

Some behaviour of the code as written, stated by the lemmas:

- An attribute counts as naming the case when it contains `name=` anywhere. `attr[5:]` is
  then taken even when `name=` is not at the front (`NameAnywhere`).
- The decoder runs only when some `\` is followed by `u` and four word characters. A
  tag `/[b]` whose body `b` has no `[` therefore comes back exactly when its escape is `b`
  itself (all of `b` printable ASCII other than `\`) or the escaped tag holds such a `\u`
  sequence (`TagRestoredExactly`). A `[` inside the body gets a `/` of its own:
  `/[a[b]` comes back as `/[a/[b]` (`InnerBracketGainsSlash`). Other tags keep the escapes the encoder wrote: `\xNN` for
  U+0080 to U+00FF (`LatinTagStaysEscaped`), `\UNNNNNNNN` beyond U+FFFF, `\t`, `\n`,
  `\r` and `\xNN` for control characters, and `\\` for a backslash. A tag such as
  `/[é\u0041]` does come back, because its escape holds `\u0041`.
- The location branch of `pytest_to_selector` turns every `.` of the dotted name into
  `/` (converter.py:75), also inside a parametrize id. For `test_x[1.5]` it gives
  `test_x/[1/5]` where the path branch gives `test_x/[1.5]` (`DottedParameterDisagrees`).
- `decode_datadrive` puts `/` in front of every `[`. Its docstring example
  (converter.py:97) leaves that `/` out. The model follows the code.

## Model

| member | source | states |
|---|---|---|
| PyText.IndexOf | pytest/src/testsolar_pytestx/converter.py:15 | the index found is an occurrence with none before it; no index means no occurrence anywhere (what `in` tests) |
| PyText.SliceFrom | pytest/src/testsolar_pytestx/converter.py:19 | `attr[5:]` is what follows the first five characters, or empty when the text is shorter |
| PyText.Partition | pytest/src/testsolar_pytestx/converter.py:10 | either the separator is found, the three parts rebuild the text and no earlier occurrence exists, or the whole text is the head and the text has no separator |
| PyText.PartitionAtFirst | pytest/src/testsolar_pytestx/converter.py:10 | `partition` cuts at the first `?` |
| PyText.Split | pytest/src/testsolar_pytestx/converter.py:16 | at least one piece; no piece holds the separator; joining the pieces with it gives the text back |
| PyText.SplitJoin | pytest/src/testsolar_pytestx/converter.py:16 | splitting a join of separator-free pieces gives exactly those pieces |
| PyText.RSplitOnce | pytest/src/testsolar_pytestx/converter.py:48 | one part exactly when there is no separator, and then it is the text; otherwise two parts that rebuild the text, the second without a separator |
| PyText.RSplitAtLast | pytest/src/testsolar_pytestx/converter.py:48 | `rsplit("/", 1)` cuts at the last `/` |
| PyText.ReplaceAbsent | pytest/src/testsolar_pytestx/converter.py:33 | `replace` leaves a text without the pattern unchanged |
| PyText.ReplaceSkips | pytest/src/testsolar_pytestx/converter.py:113-115 | a prefix without the pattern's first character is copied and the count is kept for the rest |
| PyText.ReplaceBeforeFirst | pytest/src/testsolar_pytestx/converter.py:113-115 | a prefix inside which no occurrence of the pattern starts is copied and the count is kept for the rest |
| PyText.ReplaceAtFront | pytest/src/testsolar_pytestx/converter.py:113 | an occurrence at the front is replaced and uses up one of the count |
| PyText.ReplaceAscii | pytest/src/testsolar_pytestx/converter.py:85 | replacing in ASCII text with ASCII text gives ASCII text |
| PyText.ReplaceKeepsAbsent | pytest/src/testsolar_pytestx/converter.py:100 | a character in neither the text nor the replacement is not in the result |
| UnicodeEscape.ParseHexInverse | pytest/src/testsolar_pytestx/converter.py:84 | reading back the hex digits written for a number gives the number when it fits the width |
| UnicodeEscape.EscapeCharShape | pytest/src/testsolar_pytestx/converter.py:84 | a character's escape is nonempty ASCII; it is the character itself exactly when the character is printable ASCII other than `\`; otherwise it starts with `\` |
| UnicodeEscape.EscapeCharBmp | pytest/src/testsolar_pytestx/converter.py:84 | a character of U+0100 to U+FFFF becomes `\u` and four lowercase hex digits that denote its code point |
| UnicodeEscape.EscapeAscii | pytest/src/testsolar_pytestx/converter.py:84 | the escaped text is ASCII and no shorter than the input |
| UnicodeEscape.EscapePlain | pytest/src/testsolar_pytestx/converter.py:84 | printable ASCII without `\` escapes to itself |
| UnicodeEscape.EscapeIsIdentity | pytest/src/testsolar_pytestx/converter.py:84 | a text is its own escape exactly when all its characters are printable ASCII other than `\` |
| UnicodeEscape.EscapeConcat | pytest/src/testsolar_pytestx/converter.py:84 | the escape of a concatenation is the concatenation of the escapes |
| UnicodeEscape.EscapeKeepsAbsent | pytest/src/testsolar_pytestx/converter.py:84 | escaping never brings in `[`, `/`, `:` or any other character that no escape sequence holds |
| UnicodeEscape.UnescapeAscii | pytest/src/testsolar_pytestx/converter.py:102 | the decoder never lengthens its input, returns a text without `\` unchanged and never fails with an assertion |
| UnicodeEscape.Unescape | pytest/src/testsolar_pytestx/converter.py:102 | non-ASCII input is not modelled; ASCII input without `\` decodes to itself |
| UnicodeEscape.HexEscapeInverse | pytest/src/testsolar_pytestx/converter.py:102 | a `\x`, `\u` or `\U` escape reads back as its character |
| UnicodeEscape.EscapeCharInverse | pytest/src/testsolar_pytestx/converter.py:84-102 | decoding undoes one character's escape, whatever follows |
| UnicodeEscape.EscapeInverseBefore | pytest/src/testsolar_pytestx/converter.py:84-102 | decoding undoes the escape of a whole text, whatever follows |
| UnicodeEscape.UnescapeEscape | pytest/src/testsolar_pytestx/converter.py:84-102 | for every string, decoding its escape gives the string back |
| UnicodeEscape.UnescapePrefix | pytest/src/testsolar_pytestx/converter.py:102 | an ASCII prefix without `\` passes through the decoder unchanged |
| UnicodeEscape.NoBackslashNoMatch | pytest/src/testsolar_pytestx/converter.py:101 | the `\\u\w{4}` search finds nothing in a text without `\` |
| UnicodeEscape.NoUEscapeStartNoMatch | pytest/src/testsolar_pytestx/converter.py:101 | the search finds nothing in a text where no `\` is followed by `u` |
| UnicodeEscape.EscapeShowsUEscape | pytest/src/testsolar_pytestx/converter.py:101 | the search finds a match in the escape of any text holding a character of U+0100 to U+FFFF |
| UnicodeEscape.MayMatchPrefix | pytest/src/testsolar_pytestx/converter.py:101 | a prefix without `\` neither creates nor hides a match |
| UnicodeEscape.UEscapeUnshift | pytest/src/testsolar_pytestx/converter.py:101 | a match of the search past a prefix is a match in the text after the prefix |
| Converter.FirstDeciding | pytest/src/testsolar_pytestx/converter.py:17-23 | the attribute found names the case or is bare, and no earlier one is; no index means no attribute is either |
| Converter.ScanStops | pytest/src/testsolar_pytestx/converter.py:17-23 | the case name is fixed by the first attribute that names the case or is bare |
| Converter.ScanExhausted | pytest/src/testsolar_pytestx/converter.py:15-23 | when no attribute decides, the text after `?` is kept whole |
| Converter.SelectCase | pytest/src/testsolar_pytestx/converter.py:15-26 | the loop over the attributes gives the case name that `SelectedCase` defines |
| Converter.ExtractCaseAndDatadrive | pytest/src/testsolar_pytestx/converter.py:42-56 | with no tag, the case is the whole input; with a tag, case + `/` + tag is the input, and the tag starts with `[`, ends with `]` and has no `/` |
| Converter.ExtractFindsTag | pytest/src/testsolar_pytestx/converter.py:48-52 | a `[...]` after the last `/` is always split off as the tag |
| Converter.ExtractNoBracket | pytest/src/testsolar_pytestx/converter.py:48-56 | a case without `[` has no tag |
| Converter.EncodeDatadrive | pytest/src/testsolar_pytestx/converter.py:82-86 | a name that does not end with `]` or has no `[` is returned unchanged; otherwise the result is ASCII |
| Converter.DecodeDatadrive | pytest/src/testsolar_pytestx/converter.py:89-104 | a name that does not end with `]` or has no `[` is returned unchanged; one without `\` only gets `/` before each `[`; it never fails with an assertion |
| Converter.NormalizeTestcaseName | pytest/src/testsolar_pytestx/converter.py:107-118 | the assertion fails exactly when the id has no `::` |
| Converter.SelectorToPytest | pytest/src/testsolar_pytestx/converter.py:8-39 | the node id the method builds step by step is `PytestId` of the selector |
| Converter.SelectorFromPath | pytest/src/testsolar_pytestx/converter.py:64-70 | a result starts with the relative path and `?`; a failure is never an assertion |
| Converter.SelectorFromLocation | pytest/src/testsolar_pytestx/converter.py:73-77 | a result starts with the location's path and `?`; a failure is never an assertion |
| Converter.PytestToSelector | pytest/src/testsolar_pytestx/converter.py:59-79 | it fails with an assertion exactly when the node-id branch is taken and the id has no `::`; a result of the path branch starts with the relative path and `?`; a result of the location branch starts with the location's path and `?` |
| ConverterLemmas.FirstDecidingWins | pytest/src/testsolar_pytestx/converter.py:15-23 | for any list of two or more attributes, the case name is the one chosen by the first attribute that names the case or is bare |
| ConverterLemmas.NoAttributeDecides | pytest/src/testsolar_pytestx/converter.py:15-23 | when no attribute decides, the whole attribute list is the case name |
| ConverterLemmas.NamePrefixStripped | pytest/src/testsolar_pytestx/converter.py:24-26 | a single `name=v` gives `v` |
| ConverterLemmas.SingleCaseKept | pytest/src/testsolar_pytestx/converter.py:24-26 | a single case name without `name=` in front is kept |
| ConverterLemmas.WholeFile | pytest/src/testsolar_pytestx/converter.py:10-13 | a selector with no case, or with an empty case, is the file path |
| ConverterLemmas.UntaggedShape | pytest/src/testsolar_pytestx/converter.py:28-39 | when extract_case_and_datadrive finds no tag in the chosen case, the id is the path, `::`, then the case name with each `/` as `::` |
| ConverterLemmas.UntaggedId | pytest/src/testsolar_pytestx/converter.py:8-39 | a single case name without `&`, `[` or a leading `name=` gives the path, `::`, then the name with each `/` as `::` |
| ConverterLemmas.TaggedShape | pytest/src/testsolar_pytestx/converter.py:28-39 | with a tag the id is the path, `::`, the case with `/` as `::`, then the escaped tag |
| ConverterLemmas.EncodeTag | pytest/src/testsolar_pytestx/converter.py:82-86 | a tag as split off by extract_case_and_datadrive is encoded by `unicode_escape` alone |
| ConverterLemmas.EncodeSlashTag | pytest/src/testsolar_pytestx/converter.py:82-86 | `/[b]` with `b` free of `[` encodes to `[` + escape of `b` + `]` |
| ConverterLemmas.DecodePrefix | pytest/src/testsolar_pytestx/converter.py:99-102 | an ASCII prefix without `\` or `[` passes through decode_datadrive unchanged |
| ConverterLemmas.DecodePlainTag | pytest/src/testsolar_pytestx/converter.py:99-100 | `x[b]` with no `\` and no other `[` decodes to `x/[b]` |
| ConverterLemmas.BracketReplacePrefix | pytest/src/testsolar_pytestx/converter.py:100 | where the first characters after putting `/` before each `[` hold no `/`, they are the input's first characters |
| ConverterLemmas.BracketReplaceMatchFront | pytest/src/testsolar_pytestx/converter.py:100-101 | a match at the front after putting `/` before each `[` is a match at the front of the input |
| ConverterLemmas.BracketReplaceMatchBack | pytest/src/testsolar_pytestx/converter.py:100-101 | a match of the `\\u\w{4}` search after putting `/` before each `[` comes from a match in the input |
| ConverterLemmas.BracketReplaceKeepsNoMatch | pytest/src/testsolar_pytestx/converter.py:100-101 | putting `/` before each `[` never makes the search find a match |
| ConverterLemmas.DecodeWithoutUEscape | pytest/src/testsolar_pytestx/converter.py:99-101 | a name that ends with `]`, holds `[` and in which the `\\u\w{4}` search finds nothing only gets `/` before each `[`: the decoder does not run, whatever `\x`, `\U` or short `\u` escapes it holds |
| ConverterLemmas.EscapedTagUnescapes | pytest/src/testsolar_pytestx/converter.py:102 | for every tag body, the decoder restores `/[b]` from `/[` + escape of `b` + `]` |
| ConverterLemmas.BmpTagMatches | pytest/src/testsolar_pytestx/converter.py:101 | the guard fires on an escaped tag holding a character of U+0100 to U+FFFF |
| ConverterLemmas.DecodeEscapedTag | pytest/src/testsolar_pytestx/converter.py:99-102 | decode_datadrive turns `[` + escape of `b` + `]` back into `/[b]` for a restorable body |
| ConverterLemmas.TagRoundTrip | pytest/src/testsolar_pytestx/converter.py:82-104 | decode_datadrive undoes encode_datadrive on a restorable tag |
| ConverterLemmas.TagRestoredExactly | pytest/src/testsolar_pytestx/converter.py:82-104 | for every tag body without `[`, the round trip gives `/[b]` back if and only if `b` is all printable ASCII other than `\` or the escaped tag holds `\u` and four word characters |
| ConverterLemmas.ColonRoundTrip | pytest/src/testsolar_pytestx/converter.py:113-115 | turning `::` back into `/` undoes line 33's `/` to `::` on text without `:` |
| ConverterLemmas.FirstColonsAtPartition | pytest/src/testsolar_pytestx/converter.py:113 | replacing `::` once with `?` cuts every id with `::` where `partition("::")` does |
| ConverterLemmas.ColonsAfterQuery | pytest/src/testsolar_pytestx/converter.py:113-115 | after that cut, every later `::` becomes `/` and the text before the `?` is unchanged |
| ConverterLemmas.NormalizeAtFirstColons | pytest/src/testsolar_pytestx/converter.py:111-117 | every id with `::` normalizes to the decoding of the text before its first `::`, `?`, then the rest with each `::` as `/` |
| ConverterLemmas.NormalizeClassMember | pytest/src/testsolar_pytestx/converter.py:107-118 | `p::C::f` normalizes to the decoding of `p?C/f` |
| ConverterLemmas.UntaggedRoundTrip | pytest/src/testsolar_pytestx/converter.py:8-39 | normalize_testcase_name undoes selector_to_pytest for an untagged case name |
| ConverterLemmas.TaggedId | pytest/src/testsolar_pytestx/converter.py:28-39 | `p?a/[b]` becomes `p::` + `a` with `/` as `::` + `[` + escape of `b` + `]` |
| ConverterLemmas.TaggedIdNormalizes | pytest/src/testsolar_pytestx/converter.py:107-118 | that node id normalizes back to `p?a/[b]` |
| ConverterLemmas.TaggedRoundTrip | pytest/src/testsolar_pytestx/converter.py:8-39 | normalize_testcase_name undoes selector_to_pytest for a case with a restorable data-drive tag |
| ConverterLemmas.ReplaceSeparator | pytest/src/testsolar_pytestx/converter.py:75 | replacing one separator between two pieces that lack it gives the pieces around the replacement |
| ConverterLemmas.ItemShapesAgree | pytest/src/testsolar_pytestx/converter.py:59-79 | for an item whose path, node id and location describe the same test, the path branch, the node-id branch and the location branch give the same selector |
| ConverterLemmas.NodeIdRoundTrip | pytest/src/testsolar_pytestx/converter.py:71-72 | an item known only by the node id built from a selector converts back to that selector |
| ConverterExamples.ExtractTag | pytest/src/testsolar_pytestx/converter.py:48-52 | `test_x/[1-2]` splits into `test_x` and `[1-2]` |
| ConverterExamples.ExtractNoTag | pytest/src/testsolar_pytestx/converter.py:55-56 | `t` has no tag |
| ConverterExamples.ExtractUnclosed | pytest/src/testsolar_pytestx/converter.py:53-54 | `a/b[x` has no tag, because the last piece does not start with `[` |
| ConverterExamples.NameAnywhere | pytest/src/testsolar_pytestx/converter.py:18-19 | `rename=x` names the case and gives `e=x` |
| ConverterExamples.WithoutCase | pytest/src/testsolar_pytestx/converter.py:10-13 | `f.py` and `f.py?` both give `f.py` |
| ConverterExamples.NamedAttributeCase | pytest/src/testsolar_pytestx/converter.py:15-20 | in `a=1&name=test_y&b=2` the case is `test_y` |
| ConverterExamples.NamedAttributeWins | pytest/src/testsolar_pytestx/converter.py:8-39 | `f.py?a=1&name=test_y&b=2` gives `f.py::test_y` |
| ConverterExamples.BareAttributeCase | pytest/src/testsolar_pytestx/converter.py:21-23 | in `plainval&x=2` the case is `plainval` |
| ConverterExamples.BareAttributeWins | pytest/src/testsolar_pytestx/converter.py:8-39 | `f.py?plainval&x=2` gives `f.py::plainval` |
| ConverterExamples.CaseNamed | pytest/src/testsolar_pytestx/converter.py:28-39 | any case text whose chosen name `n` has no `/` or `[` gives `p::n` |
| ConverterExamples.ClassMember | pytest/src/testsolar_pytestx/converter.py:33-35 | `f.py?C/t` gives `f.py::C::t` |
| ConverterExamples.DecodeExampleCase | pytest/src/testsolar_pytestx/converter.py:99-100 | `C/t[1]` decodes to `C/t/[1]` |
| ConverterExamples.DecodeExampleTail | pytest/src/testsolar_pytestx/converter.py:117 | `f.py?C/t[1]` decodes to `f.py?C/t/[1]` |
| ConverterExamples.NormalizeExample | pytest/src/testsolar_pytestx/converter.py:108-109 | `f.py::C::t[1]` normalizes to `f.py?C/t/[1]`, the shape the docstring shows |
| ConverterExamples.NormalizeDocstringExample | pytest/src/testsolar_pytestx/converter.py:108-109 | the docstring's id `test_directory/test_module.py::TestExampleClass::test_example_function[datedrive]` normalizes to the selector the docstring shows |
| ConverterExamples.NormalizeNeedsColons | pytest/src/testsolar_pytestx/converter.py:111 | an id without `::` fails the assertion |
| ConverterExamples.PlainNameUnchanged | pytest/src/testsolar_pytestx/converter.py:83 | a name without a tag passes through both directions unchanged |
| ConverterExamples.ChineseTagRoundTrip | pytest/src/testsolar_pytestx/converter.py:97 | the docstring's tag `[中文-中文汉字]` survives encoding and decoding |
| ConverterExamples.EscapeE9 | pytest/src/testsolar_pytestx/converter.py:84 | `é` escapes to `\xe9` |
| ConverterExamples.LatinEscape | pytest/src/testsolar_pytestx/converter.py:82-86 | `/[é]` encodes to `[\xe9]` |
| ConverterExamples.LatinDecode | pytest/src/testsolar_pytestx/converter.py:99-101 | `[\xe9]` gets its `/` but is not decoded, since no `\u` escape occurs |
| ConverterExamples.LatinTagStaysEscaped | pytest/src/testsolar_pytestx/converter.py:82-104 | `/[é]` comes back from the round trip as `/[\xe9]` |
| ConverterExamples.InnerBracketEncode | pytest/src/testsolar_pytestx/converter.py:82-86 | `/[a[b]` encodes to `[a[b]`: only the `/` before the first `[` is dropped |
| ConverterExamples.InnerBracketDecode | pytest/src/testsolar_pytestx/converter.py:99-101 | `[a[b]` decodes to `/[a/[b]` |
| ConverterExamples.InnerBracketGainsSlash | pytest/src/testsolar_pytestx/converter.py:82-104 | `/[a[b]` comes back from the round trip as `/[a/[b]`, not as itself |
| ConverterExamples.DottedParameterDisagrees | pytest/src/testsolar_pytestx/converter.py:64-77 | for the function `test_x[1.5]`, the path branch gives `f.py?test_x/[1.5]` and the location branch gives `f.py?test_x/[1/5]` |

## Left out

- `os.path.relpath` is the function parameter `relPath` of `PytestToSelector`. Computing a
  relative path from the file system is not modelled.
- The pytest `Item` class and `hasattr` are not modelled. An item is the `Item` datatype.
  Its `path` and `nodeid` may be missing (`None`), and `cls` is one of no attribute, `None`
  or a class name. Its `name` and `location` are always present, as on every pytest item,
  so the `AttributeError` that a missing `item.name` (converter.py:66) or `item.location`
  (converter.py:74) would raise is not modelled. A falsy `item.path` is `None` or the empty string; a real `pathlib.Path` is always
  truthy. The line number of `item.location` is carried but unused, as in the code.
- How pytest builds node ids and parametrization ids is not modelled. The model starts from
  the strings pytest supplies.
- Unescape: non-ASCII text is `Err(Unmodelled)`. Python encodes such text to UTF-8 and
  reads the bytes back as Latin-1, and the model does not describe that.
- DecodeEscape: models only the escapes that `unicode_escape` encoding writes: `\\`, `\t`,
  `\n`, `\r`, `\xNN`, `\uNNNN` and `\UNNNNNNNN`. Other escapes Python accepts (`\a`,
  octal, `\N{...}`, a backslash before a newline, unknown escapes kept with a warning) are
  `Err(Unmodelled)`.
- HexEscape: an escape that decodes to a surrogate code point is `Err(Unmodelled)`. A Dafny
  `char` cannot hold a lone surrogate, so strings holding one are not modelled at all.
- MayMatchUEscape: treats every non-ASCII character as a possible `\w` match. It is exact
  on ASCII text. Where a non-ASCII text may match, `Unescape` declines to give a value.
- Failures are values rather than exceptions. The `UnicodeDecodeError` that Python raises
  ends `pytest_to_selector` here as an `Err` result.
- TagRoundTrip and TaggedRoundTrip: stated for a single tag `/[b]` whose body has no `[`
  (and, for TaggedRoundTrip, no `:`, `/` or `&`) and is `TagRestorable`. Selectors with
  several tags or nested brackets, such as `/[a]/[b]` or `/[a/[b]]`, which the code also
  restores, have no round-trip lemma. TaggedRoundTrip also requires the selector path to
  be ASCII without `?`, `:`, `[` or `\`, the case part `a` to be ASCII without `:`, `[`,
  `\` or `&` (`CaseNamePart`), and `a/[b]` not to start with `name=`.
- NodeIdRoundTrip and UntaggedRoundTrip: stated for an untagged case without `:`, `[`,
  `&` or a leading `name=`, under the same path condition.
- ItemShapesAgree: stated for items whose class and function names contain no `:` or `.`,
  with a node id and location of the shape pytest gives a test function. A `:` next to
  another `:` or to a `::` separator would be read as part of a separator by
  normalize_testcase_name, which replaces only `::` (converter.py:113-115); the model keeps
  the simpler condition of no `:` at all. A `.` would be turned into `/` by the
  location branch (converter.py:75), even inside a parametrize id, so that branch would
  disagree: `DottedParameterDisagrees` shows this for `test_x[1.5]`.
- NormalizeTestcaseName: the `assert "::" in name` at converter.py:111 is modelled as always
  checked, giving `Err(AssertionError)`. Under `python -O` the assertion is removed, and an
  id without `::` goes on to `replace` and decode_datadrive instead.
