/**
  The few methods of Python's `str` that the converter uses, with Python's semantics:
  substring search (`in`, `startswith`, `endswith`), `partition`, `split`, `rsplit(sep, 1)`,
  clamped slicing `s[k:]` and `replace` with and without a count.
 */
module PyText {
  import opened Wrappers

  /** `t` occurs in `s` at index `i`. */
  predicate OccursAt(s: string, t: string, i: nat) {
    i + |t| <= |s| && s[i..i + |t|] == t
  }

  /** Python's `s.startswith(prefix)`. */
  predicate StartsWith(s: string, prefix: string) {
    |prefix| <= |s| && s[..|prefix|] == prefix
  }

  /** Python's `s.endswith(suffix)`. */
  predicate EndsWith(s: string, suffix: string) {
    |suffix| <= |s| && s[|s| - |suffix|..] == suffix
  }

  predicate NoChar(s: string, c: char) {
    forall i :: 0 <= i < |s| ==> s[i] != c
  }

  predicate IsAscii(s: string) {
    forall i :: 0 <= i < |s| ==> s[i] as int < 0x80
  }

  lemma OccursAtTail(s: string, t: string, j: nat)
    requires s != [] && j >= 1
    ensures OccursAt(s, t, j) <==> OccursAt(s[1..], t, j - 1)
  {
    if j + |t| <= |s| {
      assert s[1..][j - 1..j - 1 + |t|] == s[j..j + |t|];
    }
  }

  /** Python's `s.find(t)`: the first index at which `t` occurs, if any. */
  function IndexOf(s: string, t: string): (r: Option<nat>)
    ensures r.Some? ==> OccursAt(s, t, r.value)
    ensures r.Some? ==> forall j :: 0 <= j < r.value ==> !OccursAt(s, t, j)
    ensures r.None? ==> forall j: nat :: !OccursAt(s, t, j)
    decreases |s|
  {
    if StartsWith(s, t) then Some(0)
    else if s == [] then None
    else
      var rest := IndexOf(s[1..], t);
      assert forall j: nat :: j >= 1 ==> (OccursAt(s, t, j) <==> OccursAt(s[1..], t, j - 1)) by {
        forall j: nat | j >= 1 ensures OccursAt(s, t, j) <==> OccursAt(s[1..], t, j - 1) {
          OccursAtTail(s, t, j);
        }
      }
      assert !OccursAt(s, t, 0);
      match rest
      case Some(i) => Some(i + 1)
      case None => None
  }

  /** Python's `t in s` for strings. */
  predicate Contains(s: string, t: string) {
    IndexOf(s, t).Some?
  }

  lemma ContainsAt(s: string, t: string, i: nat)
    requires OccursAt(s, t, i)
    ensures Contains(s, t)
  {
  }

  /** For a one-character pattern, substring search is membership. */
  lemma ContainsChar(s: string, c: char)
    ensures Contains(s, [c]) <==> !NoChar(s, c)
  {
    if Contains(s, [c]) {
      var i := IndexOf(s, [c]).value;
      assert s[i..i + 1][0] == s[i];
    }
    if !NoChar(s, c) {
      var i :| 0 <= i < |s| && s[i] == c;
      assert OccursAt(s, [c], i);
    }
  }

  /** Python's `s[k:]`: slicing clamps an index past the end. */
  function SliceFrom(s: string, k: nat): (r: string)
    ensures k <= |s| ==> s == s[..k] + r
    ensures k >= |s| ==> r == []
  {
    if k <= |s| then s[k..] else []
  }

  /** Python's `s.partition(sep)`; Python raises ValueError for an empty separator. */
  function Partition(s: string, sep: string): (r: (string, string, string))
    requires sep != []
    ensures r.1 == sep || r.1 == []
    ensures r.1 == sep ==> r.0 + sep + r.2 == s && forall j :: 0 <= j < |r.0| ==> !OccursAt(s, sep, j)
    ensures r.1 == [] ==> r.0 == s && r.2 == [] && !Contains(s, sep)
  {
    match IndexOf(s, sep)
    case Some(i) =>
      assert s == s[..i] + sep + s[i + |sep|..];
      (s[..i], sep, s[i + |sep|..])
    case None => (s, [], [])
  }

  /** Joins the pieces with `sep` between neighbours: the inverse of `Split`. */
  function Join(parts: seq<string>, sep: char): string
    requires parts != []
  {
    if |parts| == 1 then parts[0] else parts[0] + [sep] + Join(parts[1..], sep)
  }

  /** Python's `s.split(sep)` for a one-character separator: every occurrence splits. */
  function Split(s: string, sep: char): (parts: seq<string>)
    ensures parts != []
    ensures forall k :: 0 <= k < |parts| ==> NoChar(parts[k], sep)
    ensures Join(parts, sep) == s
    decreases |s|
  {
    if s == [] then [[]]
    else
      var rest := Split(s[1..], sep);
      if s[0] == sep then [[]] + rest
      else
        var head := [s[0]] + rest[0];
        assert Join([head] + rest[1..], sep) == [s[0]] + Join(rest, sep) by {
          if |rest| > 1 {
            assert ([head] + rest[1..])[1..] == rest[1..];
          }
        }
        [head] + rest[1..]
  }

  /** Splitting undoes joining when no piece holds the separator. */
  lemma {:induction false} SplitJoin(parts: seq<string>, sep: char)
    requires parts != []
    requires forall k :: 0 <= k < |parts| ==> NoChar(parts[k], sep)
    ensures Split(Join(parts, sep), sep) == parts
    decreases |Join(parts, sep)|, |parts|
  {
    var s := Join(parts, sep);
    if parts[0] == [] {
      if |parts| > 1 {
        assert s == [sep] + Join(parts[1..], sep);
        assert s[1..] == Join(parts[1..], sep);
        SplitJoin(parts[1..], sep);
      }
    } else {
      var tail := [parts[0][1..]] + parts[1..];
      assert parts[0][0] != sep;
      if |parts| == 1 {
        assert s[1..] == Join(tail, sep);
      } else {
        assert tail[1..] == parts[1..];
        assert s[1..] == Join(tail, sep);
      }
      SplitJoin(tail, sep);
      assert s[0] == parts[0][0];
      assert Split(s, sep) == [[s[0]] + tail[0]] + tail[1..];
      assert parts[0] == [s[0]] + tail[0];
      assert parts[1..] == tail[1..];
      assert parts == [parts[0]] + parts[1..];
    }
  }

  /** The last index of `c` in `s`, if any (Python's `s.rfind(c)`). */
  function LastIndexOf(s: string, c: char): (r: Option<nat>)
    ensures r.Some? ==> r.value < |s| && s[r.value] == c
    ensures r.Some? ==> forall j :: r.value < j < |s| ==> s[j] != c
    ensures r.None? ==> NoChar(s, c)
  {
    if s == [] then None
    else if s[|s| - 1] == c then Some(|s| - 1)
    else LastIndexOf(s[..|s| - 1], c)
  }

  /** Python's `s.rsplit(sep, 1)` for a one-character separator. */
  function RSplitOnce(s: string, sep: char): (parts: seq<string>)
    ensures |parts| == 1 || |parts| == 2
    ensures |parts| == 1 <==> NoChar(s, sep)
    ensures |parts| == 1 ==> parts[0] == s
    ensures |parts| == 2 ==> parts[0] + [sep] + parts[1] == s && NoChar(parts[1], sep)
  {
    match LastIndexOf(s, sep)
    case Some(k) =>
      assert s == s[..k] + [sep] + s[k + 1..];
      [s[..k], s[k + 1..]]
    case None => [s]
  }

  /** The count left after one replacement; a negative count means "no limit". */
  function Decrement(count: int): int {
    if count < 0 then count else count - 1
  }

  /**
    Python's `s.replace(pat, rep, count)`: scans left to right and replaces (by `rep`) at most
    `count` non-overlapping occurrences (all of them when `count` is negative). An empty
    `pat` matches before every character and at the end.
   */
  function Replace(s: string, pat: string, rep: string, count: int): string
    decreases |s|
  {
    if count == 0 then s
    else if pat == [] then
      if s == [] then rep else rep + [s[0]] + Replace(s[1..], pat, rep, Decrement(count))
    else if StartsWith(s, pat) then rep + Replace(s[|pat|..], pat, rep, Decrement(count))
    else if s == [] then []
    else [s[0]] + Replace(s[1..], pat, rep, count)
  }

  /** `s.replace(pat, rep)` with no count. */
  function ReplaceAll(s: string, pat: string, rep: string): string {
    Replace(s, pat, rep, -1)
  }

  /** Where `pat` does not occur, `replace` changes nothing. */
  lemma {:induction false} ReplaceAbsent(s: string, pat: string, rep: string, count: int)
    requires pat != [] && !Contains(s, pat)
    ensures Replace(s, pat, rep, count) == s
    decreases |s|
  {
    if count != 0 && s != [] {
      assert !OccursAt(s, pat, 0);
      forall j: nat ensures !OccursAt(s[1..], pat, j) {
        OccursAtTail(s, pat, j + 1);
      }
      ReplaceAbsent(s[1..], pat, rep, count);
    }
  }

  /** A prefix none of whose characters can begin `pat` is copied unchanged. */
  lemma {:induction false} ReplaceSkips(x: string, y: string, pat: string, rep: string, count: int)
    requires pat != [] && NoChar(x, pat[0])
    ensures Replace(x + y, pat, rep, count) == x + Replace(y, pat, rep, count)
    decreases |x|
  {
    if count != 0 && x != [] {
      assert (x + y)[0] == x[0];
      assert !StartsWith(x + y, pat);
      assert (x + y)[1..] == x[1..] + y;
      assert x == [x[0]] + x[1..];
      ReplaceSkips(x[1..], y, pat, rep, count);
    } else if x == [] {
      assert x + y == y;
    }
  }

  /** A prefix inside which no occurrence of `pat` starts is copied unchanged. */
  lemma {:induction false} ReplaceBeforeFirst(x: string, y: string, pat: string, rep: string, count: int)
    requires pat != [] && forall j :: 0 <= j < |x| ==> !OccursAt(x + y, pat, j)
    ensures Replace(x + y, pat, rep, count) == x + Replace(y, pat, rep, count)
    decreases |x|
  {
    if x == [] {
      assert x + y == y;
    } else if count != 0 {
      var s := x + y;
      assert !OccursAt(s, pat, 0);
      assert !StartsWith(s, pat);
      assert s[1..] == x[1..] + y;
      forall j | 0 <= j < |x[1..]| ensures !OccursAt(x[1..] + y, pat, j) {
        OccursAtTail(s, pat, j + 1);
      }
      ReplaceBeforeFirst(x[1..], y, pat, rep, count);
      assert x == [x[0]] + x[1..];
    }
  }

  /** An occurrence at the front is replaced, and one replacement is used up. */
  lemma ReplaceAtFront(pat: string, y: string, rep: string, count: int)
    requires pat != [] && count != 0
    ensures Replace(pat + y, pat, rep, count) == rep + Replace(y, pat, rep, Decrement(count))
  {
    assert (pat + y)[..|pat|] == pat;
    assert (pat + y)[|pat|..] == y;
  }

  /** A pattern one of whose characters is missing from `s` does not occur in `s`. */
  lemma AbsentCharNoMatch(s: string, t: string, k: nat)
    requires k < |t| && NoChar(s, t[k])
    ensures !Contains(s, t)
  {
  }

  /** `partition` splits at the first separator. */
  lemma PartitionAtFirst(x: string, sep: char, y: string)
    requires NoChar(x, sep)
    ensures Partition(x + [sep] + y, [sep]) == (x, [sep], y)
  {
    var s := x + [sep] + y;
    assert OccursAt(s, [sep], |x|);
    assert forall j :: 0 <= j < |x| ==> !OccursAt(s, [sep], j) by {
      forall j | 0 <= j < |x| ensures !OccursAt(s, [sep], j) {
        assert s[j..j + 1][0] == x[j];
      }
    }
    assert IndexOf(s, [sep]) == Some(|x|);
    assert s[..|x|] == x && s[|x| + 1..] == y;
  }

  /** `rsplit(sep, 1)` splits at the last separator. */
  lemma RSplitAtLast(x: string, sep: char, y: string)
    requires NoChar(y, sep)
    ensures RSplitOnce(x + [sep] + y, sep) == [x, y]
  {
    var s := x + [sep] + y;
    assert s[|x|] == sep;
    assert s[..|x|] == x && s[|x| + 1..] == y;
  }

  /** Replacing with ASCII text keeps ASCII text ASCII. */
  lemma {:induction false} ReplaceAscii(s: string, pat: string, rep: string, count: int)
    requires IsAscii(s) && IsAscii(rep)
    ensures IsAscii(Replace(s, pat, rep, count))
    decreases |s|
  {
    if count != 0 && s != [] {
      assert IsAscii(s[1..]) by {
        forall i | 0 <= i < |s[1..]| ensures s[1..][i] as int < 0x80 {
          assert s[1..][i] == s[i + 1];
        }
      }
      if pat != [] && StartsWith(s, pat) {
        assert IsAscii(s[|pat|..]) by {
          forall i | 0 <= i < |s[|pat|..]| ensures s[|pat|..][i] as int < 0x80 {
            assert s[|pat|..][i] == s[i + |pat|];
          }
        }
        ReplaceAscii(s[|pat|..], pat, rep, Decrement(count));
      } else {
        ReplaceAscii(s[1..], pat, rep, Decrement(count));
        ReplaceAscii(s[1..], pat, rep, count);
      }
    }
  }

  /** A character found neither in `s` nor in `rep` is not in the result of replacing. */
  lemma {:induction false} ReplaceKeepsAbsent(s: string, pat: string, rep: string, count: int, d: char)
    requires NoChar(s, d) && NoChar(rep, d)
    ensures NoChar(Replace(s, pat, rep, count), d)
    decreases |s|
  {
    if count != 0 && s != [] {
      assert NoChar(s[1..], d) by {
        forall i | 0 <= i < |s[1..]| ensures s[1..][i] != d {
          assert s[1..][i] == s[i + 1];
        }
      }
      if pat != [] && StartsWith(s, pat) {
        assert NoChar(s[|pat|..], d) by {
          forall i | 0 <= i < |s[|pat|..]| ensures s[|pat|..][i] != d {
            assert s[|pat|..][i] == s[i + |pat|];
          }
        }
        ReplaceKeepsAbsent(s[|pat|..], pat, rep, Decrement(count), d);
      } else {
        ReplaceKeepsAbsent(s[1..], pat, rep, Decrement(count), d);
        ReplaceKeepsAbsent(s[1..], pat, rep, count, d);
      }
    }
  }
}
