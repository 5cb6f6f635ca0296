/**
 * The few Python `str` operations the interpreter in parser.py is built on,
 * as pure functions over `seq<char>`. A Python `str` is a sequence of code
 * points and a Dafny `string` a sequence of Unicode scalar values, so the
 * model covers every Python string without lone surrogates (U+D800 to
 * U+DFFF).
 */
module PyString {

  /** The characters for which Python 3's `str.isspace()` holds; `str.strip()`
      with no argument removes exactly these. */
  const Whitespace: set<char> := {
    '\t', '\n', '\U{000B}', '\U{000C}', '\r',
    '\U{001C}', '\U{001D}', '\U{001E}', '\U{001F}', ' ',
    '\U{0085}', '\U{00A0}', '\U{1680}',
    '\U{2000}', '\U{2001}', '\U{2002}', '\U{2003}', '\U{2004}', '\U{2005}',
    '\U{2006}', '\U{2007}', '\U{2008}', '\U{2009}', '\U{200A}',
    '\U{2028}', '\U{2029}', '\U{202F}', '\U{205F}', '\U{3000}'
  }

  /** `s.startswith(p)` */
  predicate StartsWith(s: string, p: string) {
    |p| <= |s| && s[..|p|] == p
  }

  /** `s[k:]` for a non-negative `k`: Python clamps an index past the end. */
  function From(s: string, k: nat): (r: string)
    ensures |r| == if k <= |s| then |s| - k else 0
    ensures forall j :: 0 <= j < |r| ==> r[j] == s[k + j]
  {
    if k <= |s| then s[k..] else []
  }

  /** `s.lstrip(chars)`: drops leading characters that are in `chars`. */
  function LStrip(s: string, chars: set<char>): (r: string)
    ensures |r| <= |s|
  {
    if s != [] && s[0] in chars then LStrip(s[1..], chars) else s
  }

  /** `s.rstrip(chars)`: drops trailing characters that are in `chars`. */
  function RStrip(s: string, chars: set<char>): (r: string)
    ensures |r| <= |s|
  {
    if s != [] && s[|s| - 1] in chars then RStrip(s[..|s| - 1], chars) else s
  }

  /** `s.strip(chars)`: removes every leading and every trailing character
      that is in `chars` (not just one layer). */
  function StripSet(s: string, chars: set<char>): (r: string)
    ensures |r| <= |s|
  {
    RStrip(LStrip(s, chars), chars)
  }

  /** `s.strip()` */
  function Strip(s: string): (r: string)
    ensures |r| <= |s|
  {
    StripSet(s, Whitespace)
  }

  /** `lstrip` keeps the longest suffix that starts outside `chars`: what it
      drops is all in `chars`, and what it keeps does not start in `chars`. */
  lemma {:induction false} LStripSpec(s: string, chars: set<char>)
    ensures var r := LStrip(s, chars);
      r == s[|s| - |r|..]
      && (r == [] || r[0] !in chars)
      && (forall i :: 0 <= i < |s| - |r| ==> s[i] in chars)
  {
    if s != [] && s[0] in chars {
      LStripSpec(s[1..], chars);
    }
  }

  /** `rstrip` keeps the longest prefix that ends outside `chars`. */
  lemma {:induction false} RStripSpec(s: string, chars: set<char>)
    ensures var r := RStrip(s, chars);
      r == s[..|r|]
      && (r == [] || r[|r| - 1] !in chars)
      && (forall i :: |r| <= i < |s| ==> s[i] in chars)
  {
    if s != [] && s[|s| - 1] in chars {
      RStripSpec(s[..|s| - 1], chars);
    }
  }

  /** After `strip(chars)` neither end of the result is in `chars`. */
  lemma StripSetEnds(s: string, chars: set<char>)
    ensures var r := StripSet(s, chars);
      r == [] || (r[0] !in chars && r[|r| - 1] !in chars)
  {
    var l := LStrip(s, chars);
    LStripSpec(s, chars);
    RStripSpec(l, chars);
  }

  /** `s.strip(chars)` keeps the middle of `s` untouched: the result is a
      contiguous slice of `s` and everything around it is in `chars`. */
  lemma StripSetIsSlice(s: string, chars: set<char>)
    ensures var r, i := StripSet(s, chars), |s| - |LStrip(s, chars)|;
      i + |r| <= |s| && r == s[i..i + |r|]
        && (forall k :: 0 <= k < i ==> s[k] in chars)
        && (forall k :: i + |r| <= k < |s| ==> s[k] in chars)
  {
    var l := LStrip(s, chars);
    var r := RStrip(l, chars);
    var i := |s| - |l|;
    LStripSpec(s, chars);
    RStripSpec(l, chars);
    assert l == s[i..];
    assert r == l[..|r|];
    assert r == s[i..i + |r|];
    forall k | i + |r| <= k < |s| ensures s[k] in chars {
      assert s[k] == l[k - i];
      assert |r| <= k - i < |l|;
    }
  }

  /** A string with nothing to strip at either end is its own strip. */
  lemma StripSetNoop(s: string, chars: set<char>)
    requires s == [] || (s[0] !in chars && s[|s| - 1] !in chars)
    ensures StripSet(s, chars) == s
  {
  }

  /** A string made only of characters in `chars` strips to the empty string. */
  lemma StripSetAll(s: string, chars: set<char>)
    requires forall i :: 0 <= i < |s| ==> s[i] in chars
    ensures StripSet(s, chars) == []
  {
    LStripSpec(s, chars);
  }

  /** Leading characters in `chars` make no difference to the result. */
  lemma StripSetDropLeading(c: char, s: string, chars: set<char>)
    requires c in chars
    ensures StripSet([c] + s, chars) == StripSet(s, chars)
  {
    assert ([c] + s)[1..] == s;
  }

  /** `sep` occurs in `s` at position `i`. */
  predicate OccursAt(s: string, sep: string, i: nat) {
    i + |sep| <= |s| && s[i..i + |sep|] == sep
  }

  /** `sep in s` */
  predicate Contains(s: string, sep: string) {
    exists i: nat | i <= |s| :: OccursAt(s, sep, i)
  }

  /** `s.find(sep)`, as an option: the first position where `sep` occurs. */
  function Find(s: string, sep: string): (r: Option<nat>)
    requires sep != []
    ensures r.Some? ==> r.value + |sep| <= |s|
    decreases |s|
  {
    if |s| < |sep| then
      None
    else if s[..|sep|] == sep then
      Some(0)
    else
      match Find(s[1..], sep)
      case None => None
      case Some(j) => Some(j + 1)
  }

  /** `find` gives the first occurrence, and none exactly when there is none. */
  lemma {:induction false} FindSpec(s: string, sep: string)
    requires sep != []
    ensures var r := Find(s, sep);
      && (r.Some? ==> OccursAt(s, sep, r.value))
      && (r.Some? ==> forall k: nat :: k < r.value ==> !OccursAt(s, sep, k))
      && (r.None? ==> !Contains(s, sep))
    decreases |s|
  {
    if |s| >= |sep| && s[..|sep|] != sep {
      var t := s[1..];
      FindSpec(t, sep);
      assert !OccursAt(s, sep, 0);
      if Find(t, sep).None? {
        forall i: nat | 0 < i <= |s| ensures !OccursAt(s, sep, i) {
          assert !OccursAt(t, sep, i - 1);
          OccursShift(s, sep, i - 1);
        }
      } else {
        var j := Find(t, sep).value;
        OccursShift(s, sep, j);
        forall k: nat | 0 < k < j + 1 ensures !OccursAt(s, sep, k) {
          assert !OccursAt(t, sep, k - 1);
          OccursShift(s, sep, k - 1);
        }
      }
    }
  }

  /** An occurrence one place further into `s` is an occurrence in `s[1..]`. */
  lemma OccursShift(s: string, sep: string, k: nat)
    requires s != []
    ensures OccursAt(s, sep, k + 1) <==> OccursAt(s[1..], sep, k)
  {
    if k + 1 + |sep| <= |s| {
      assert s[k + 1..k + 1 + |sep|] == s[1..][k..k + |sep|];
    }
  }

  /** A one-character separator occurs exactly where its character is. */
  lemma OccursChar(s: string, c: char, k: nat)
    ensures OccursAt(s, [c], k) <==> k < |s| && s[k] == c
  {
    if k < |s| {
      assert s[k..k + 1] == [s[k]];
    }
  }

  datatype Option<T> = None | Some(value: T)

  /** `s.split(sep)` for a non-empty separator: the pieces between successive
      non-overlapping occurrences of `sep`, scanning from the left. */
  function Split(s: string, sep: string): (parts: seq<string>)
    requires sep != []
    ensures |parts| >= 1
    decreases |s|
  {
    match Find(s, sep)
    case None => [s]
    case Some(i) => [s[..i]] + Split(s[i + |sep|..], sep)
  }

  /** How `split` unfolds at the first occurrence of the separator. */
  lemma SplitAt(s: string, sep: string, i: nat)
    requires sep != [] && Find(s, sep) == Some(i)
    ensures Split(s, sep) == [s[..i]] + Split(s[i + |sep|..], sep)
  {
  }

  /** No piece of a split contains the separator. */
  lemma {:induction false} SplitPiecesLackSep(s: string, sep: string)
    requires sep != []
    ensures forall k :: 0 <= k < |Split(s, sep)| ==> !Contains(Split(s, sep)[k], sep)
    decreases |s|
  {
    FindSpec(s, sep);
    if Find(s, sep).Some? {
      var i := Find(s, sep).value;
      var rest := s[i + |sep|..];
      SplitPiecesLackSep(rest, sep);
      SplitAt(s, sep, i);
      BeforeLacks(s, sep);
    }
  }

  /** `sep.join(parts)` */
  function Join(parts: seq<string>, sep: string): (s: string)
    requires |parts| >= 1
  {
    if |parts| == 1 then parts[0] else parts[0] + sep + Join(parts[1..], sep)
  }

  /** The combined length of a sequence of strings. */
  function TotalLen(parts: seq<string>): nat {
    if parts == [] then 0 else |parts[0]| + TotalLen(parts[1..])
  }

  /** Splitting loses nothing: joining the pieces with the separator gives
      back the original string. */
  lemma {:induction false} JoinSplit(s: string, sep: string)
    requires sep != []
    ensures Join(Split(s, sep), sep) == s
    decreases |s|
  {
    FindSpec(s, sep);
    if Find(s, sep).Some? {
      var i := Find(s, sep).value;
      var rest := s[i + |sep|..];
      var parts := Split(s, sep);
      SplitAt(s, sep, i);
      JoinSplit(rest, sep);
      assert parts[1..] == Split(rest, sep);
      assert Join(parts, sep) == s[..i] + sep + rest;
      assert s == s[..i] + sep + rest;
    }
  }

  /** The string is the pieces plus one separator between each pair. */
  lemma {:induction false} JoinLength(parts: seq<string>, sep: string)
    requires |parts| >= 1
    ensures |Join(parts, sep)| == TotalLen(parts) + (|parts| - 1) * |sep|
  {
    if |parts| > 1 {
      JoinLength(parts[1..], sep);
    } else {
      assert parts[1..] == [];
    }
  }

  /** Each piece is no longer than the combined length. */
  lemma {:induction false} PartWithinTotal(parts: seq<string>, k: nat)
    requires k < |parts|
    ensures |parts[k]| <= TotalLen(parts)
  {
    if k > 0 {
      PartWithinTotal(parts[1..], k - 1);
    }
  }

  /** The second piece and the separator before it fit in the original. */
  lemma SplitSecondShorter(s: string, sep: string)
    requires sep != [] && |Split(s, sep)| >= 2
    ensures |Split(s, sep)[1]| + |sep| <= |s|
  {
    var parts := Split(s, sep);
    JoinSplit(s, sep);
    JoinLength(parts, sep);
    PartWithinTotal(parts, 1);
  }

  /** No piece of a split is longer than the string that was split. */
  lemma SplitPartsShorter(s: string, sep: string)
    requires sep != []
    ensures TotalLen(Split(s, sep)) <= |s|
    ensures forall k :: 0 <= k < |Split(s, sep)| ==> |Split(s, sep)[k]| <= |s|
  {
    var parts := Split(s, sep);
    JoinSplit(s, sep);
    JoinLength(parts, sep);
    forall k | 0 <= k < |parts| ensures |parts[k]| <= |s| {
      PartWithinTotal(parts, k);
    }
  }

  /** `s.split(sep)` has a second piece exactly when `sep in s`, so indexing
      it with `[1]` fails exactly when the separator is missing. */
  lemma SplitHasSecond(s: string, sep: string)
    requires sep != []
    ensures |Split(s, sep)| >= 2 <==> Contains(s, sep)
  {
    FindSpec(s, sep);
  }

  /** The first piece is the text before the first occurrence of `sep`. */
  lemma SplitFirst(s: string, sep: string)
    requires sep != []
    ensures Find(s, sep).None? ==> Split(s, sep) == [s]
    ensures Find(s, sep).Some? ==> Split(s, sep)[0] == s[..Find(s, sep).value]
  {
  }

  /** When the first occurrence of `sep` comes right after `a`, the split is
      `a` followed by the split of the rest. */
  lemma SplitAfter(a: string, sep: string, b: string)
    requires sep != []
    requires forall k: nat :: k < |a| ==> !OccursAt(a + sep + b, sep, k)
    ensures Split(a + sep + b, sep) == [a] + Split(b, sep)
  {
    var s := a + sep + b;
    assert OccursAt(s, sep, |a|) by {
      assert s[|a|..|a| + |sep|] == sep;
    }
    FindFirst(s, sep, |a|);
    assert (a + sep + b)[..|a|] == a;
    assert (a + sep + b)[|a| + |sep|..] == b;
  }

  /** A separator that does not occur gives a single piece. */
  lemma SplitAbsent(s: string, sep: string)
    requires sep != [] && !Contains(s, sep)
    ensures Split(s, sep) == [s]
  {
    FindSpec(s, sep);
  }

  /** A match with no earlier match is the one `find` reports. */
  lemma FindFirst(s: string, sep: string, i: nat)
    requires sep != [] && OccursAt(s, sep, i)
    requires forall k: nat :: k < i ==> !OccursAt(s, sep, k)
    ensures Find(s, sep) == Some(i)
  {
    FindSpec(s, sep);
  }

  /** For a one-character separator, the split of a concatenation around one
      more separator is the concatenation of the splits. */
  lemma {:induction false} SplitConcat(a: string, c: char, b: string)
    ensures Split(a + [c] + b, [c]) == Split(a, [c]) + Split(b, [c])
    decreases |a|
  {
    if Find(a, [c]).None? {
      SplitConcatFirst(a, c, b);
    } else {
      var i := Find(a, [c]).value;
      SplitConcatStep(a, c, b, i);
      SplitConcat(a[i + 1..], c, b);
      var x, p, q := a[..i], Split(a[i + 1..], [c]), Split(b, [c]);
      assert [x] + (p + q) == [x] + p + q;
    }
  }

  /** Both splits unfold at the first `c` of `a`. */
  lemma SplitConcatStep(a: string, c: char, b: string, i: nat)
    requires Find(a, [c]) == Some(i)
    ensures Split(a + [c] + b, [c]) == [a[..i]] + Split(a[i + 1..] + [c] + b, [c])
    ensures Split(a, [c]) == [a[..i]] + Split(a[i + 1..], [c])
  {
    FindConcatChar(a, c, b, i);
    SplitAt(a + [c] + b, [c], i);
    SplitAt(a, [c], i);
    ConcatSlices(a, [c], b, i);
  }

  /** Slices of `a + sep + b` that start or end inside `a`. */
  lemma ConcatSlices(a: string, sep: string, b: string, i: nat)
    requires i + |sep| <= |a|
    ensures (a + sep + b)[..i] == a[..i]
    ensures (a + sep + b)[i + |sep|..] == a[i + |sep|..] + sep + b
  {
  }

  /** With no `c` in `a`, the first piece of `a + [c] + b` is `a`. */
  lemma SplitConcatFirst(a: string, c: char, b: string)
    requires Find(a, [c]).None?
    ensures Split(a + [c] + b, [c]) == Split(a, [c]) + Split(b, [c])
  {
    var s := a + [c] + b;
    FindSpec(a, [c]);
    forall k: nat | k < |a| ensures !OccursAt(s, [c], k) {
      assert !OccursAt(a, [c], k);
      OccursChar(a, c, k);
      OccursChar(s, c, k);
    }
    SplitAfter(a, [c], b);
    SplitAbsent(a, [c]);
  }

  /** The first `c` in `a` is the first `c` in `a + [c] + b`. */
  lemma FindConcatChar(a: string, c: char, b: string, i: nat)
    requires Find(a, [c]) == Some(i)
    ensures Find(a + [c] + b, [c]) == Some(i)
  {
    var s := a + [c] + b;
    FindSpec(a, [c]);
    OccursChar(a, c, i);
    OccursChar(s, c, i);
    forall k: nat | k < i ensures !OccursAt(s, [c], k) {
      assert !OccursAt(a, [c], k);
      OccursChar(a, c, k);
      OccursChar(s, c, k);
    }
    FindFirst(s, [c], i);
  }

  /** The text before the first occurrence of `sep`, or all of `s`. */
  function Before(s: string, sep: string): string
    requires sep != []
  {
    match Find(s, sep)
    case None => s
    case Some(i) => s[..i]
  }

  /** The text after the first occurrence of `sep`, or nothing. */
  function After(s: string, sep: string): string
    requires sep != []
  {
    match Find(s, sep)
    case None => []
    case Some(i) => s[i + |sep|..]
  }

  /** The text before the first `sep` holds no `sep`. */
  lemma BeforeLacks(s: string, sep: string)
    requires sep != []
    ensures !Contains(Before(s, sep), sep)
  {
    FindSpec(s, sep);
    if Find(s, sep).Some? {
      var i := Find(s, sep).value;
      var b := s[..i];
      forall k: nat | k <= |b| ensures !OccursAt(b, sep, k) {
        if k + |sep| <= |b| {
          assert b[k..k + |sep|] == s[k..k + |sep|] by {
            forall m | k <= m < k + |sep| ensures b[m] == s[m] { }
          }
          assert !OccursAt(s, sep, k);
        }
      }
    }
  }

  /** A slice of a string that lacks `sep` lacks it too. */
  lemma SliceLacks(s: string, sep: string, i: nat, j: nat)
    requires i <= j <= |s| && !Contains(s, sep)
    ensures !Contains(s[i..j], sep)
  {
    var t := s[i..j];
    forall k: nat | k <= |t| ensures !OccursAt(t, sep, k) {
      if k + |sep| <= |t| {
        assert t[k..k + |sep|] == s[i + k..i + k + |sep|] by {
          forall m | k <= m < k + |sep| ensures t[m] == s[i + m] { }
        }
        assert !OccursAt(s, sep, i + k);
      }
    }
  }

  /** Stripping never creates an occurrence of `sep`. */
  lemma StripLacks(s: string, sep: string)
    requires !Contains(s, sep)
    ensures !Contains(Strip(s), sep)
  {
    StripSetIsSlice(s, Whitespace);
    var r, i := Strip(s), |s| - |LStrip(s, Whitespace)|;
    SliceLacks(s, sep, i, i + |r|);
  }

  /** `s.split(sep)[0]` is the text before the first `sep`, and
      `s.split(sep)[1]` the text between the first and the second. */
  lemma SplitFirstTwo(s: string, sep: string)
    requires sep != []
    ensures Split(s, sep)[0] == Before(s, sep)
    ensures |Split(s, sep)| >= 2 ==> Split(s, sep)[1] == Before(After(s, sep), sep)
  {
    SplitFirst(s, sep);
    SplitSecond(s, sep);
  }

  /** The second half of `SplitFirstTwo`. */
  lemma SplitSecond(s: string, sep: string)
    requires sep != []
    ensures |Split(s, sep)| >= 2 ==> Split(s, sep)[1] == Before(After(s, sep), sep)
  {
    if Find(s, sep).Some? {
      var i := Find(s, sep).value;
      var rest := s[i + |sep|..];
      assert After(s, sep) == rest;
      assert Split(s, sep) == [s[..i]] + Split(rest, sep);
      SplitFirst(rest, sep);
    }
  }

  /** A character that `s` lacks is missing from all its pieces too. */
  lemma {:induction false} SplitKeepsAbsent(s: string, sep: string, c: char)
    requires sep != [] && c !in s
    ensures forall k :: 0 <= k < |Split(s, sep)| ==> c !in Split(s, sep)[k]
    decreases |s|
  {
    if Find(s, sep).Some? {
      var i := Find(s, sep).value;
      var rest := s[i + |sep|..];
      assert c !in rest by {
        forall k | 0 <= k < |rest| ensures rest[k] != c {
          assert rest[k] == s[i + |sep| + k];
        }
      }
      SplitKeepsAbsent(rest, sep, c);
      assert c !in s[..i] by {
        forall k | 0 <= k < i ensures s[..i][k] != c {
          assert s[..i][k] == s[k];
        }
      }
      assert Split(s, sep) == [s[..i]] + Split(rest, sep);
    }
  }

  /** Stripping adds no character. */
  lemma StripSetKeepsAbsent(s: string, chars: set<char>, c: char)
    requires c !in s
    ensures c !in StripSet(s, chars)
  {
    StripSetIsSlice(s, chars);
    var r, i := StripSet(s, chars), |s| - |LStrip(s, chars)|;
    forall k | 0 <= k < |r| ensures r[k] != c {
      assert r[k] == s[i + k];
    }
  }

  /** One layer of `chars` on each side of a string that starts and ends
      outside `chars` is exactly what `strip(chars)` removes. */
  lemma StripSetWrapped(c: char, m: string, chars: set<char>)
    requires c in chars && m != [] && m[0] !in chars && m[|m| - 1] !in chars
    ensures StripSet([c] + m + [c], chars) == m
  {
    assert ([c] + m + [c])[1..] == m + [c];
    assert LStrip([c] + m + [c], chars) == m + [c];
    assert (m + [c])[..|m|] == m;
    assert RStrip(m + [c], chars) == RStrip(m, chars) == m;
  }

  /** A separator whose first character `s` lacks does not occur in `s`. */
  lemma LacksHead(s: string, sep: string)
    requires sep != [] && sep[0] !in s
    ensures !Contains(s, sep)
  {
    forall i: nat | i <= |s| ensures !OccursAt(s, sep, i) {
      if i + |sep| <= |s| {
        assert s[i..i + |sep|][0] == s[i];
      }
    }
  }

  /** A separator is absent from `p + [sep[0]] + q` when `p` lacks its first
      character, `q` starts with something other than its second, and `q`
      lacks the separator. */
  lemma LacksAcross(p: string, q: string, sep: string)
    requires |sep| >= 2 && sep[0] !in p && q != [] && q[0] != sep[1] && !Contains(q, sep)
    ensures !Contains(p + [sep[0]] + q, sep)
  {
    var s := p + [sep[0]] + q;
    forall i: nat | i <= |s| ensures !OccursAt(s, sep, i) {
      if i + |sep| <= |s| {
        if i < |p| {
          assert s[i..i + |sep|][0] == p[i];
        } else if i == |p| {
          assert s[i..i + |sep|][1] == q[0];
        } else {
          var j := i - |p| - 1;
          assert s[i..i + |sep|] == q[j..j + |sep|];
          assert !OccursAt(q, sep, j);
        }
      }
    }
  }

  /** The split of `a + sep + b` when `a` lacks the separator's first character. */
  lemma SplitAfterLacking(a: string, sep: string, b: string)
    requires sep != [] && sep[0] !in a
    ensures Split(a + sep + b, sep) == [a] + Split(b, sep)
  {
    var s := a + sep + b;
    forall k: nat | k < |a| ensures !OccursAt(s, sep, k) {
      if k + |sep| <= |s| {
        assert s[k..k + |sep|][0] == a[k];
      }
    }
    SplitAfter(a, sep, b);
  }

  /** The split of `a + sep + b` when `a` is `p + [sep[0]] + q`, with the single
      occurrence of the separator's first character in `a` not followed by its
      second. */
  lemma SplitAfterAcross(p: string, q: string, sep: string, b: string)
    requires |sep| >= 2 && sep[0] !in p && sep[0] !in q && q != [] && q[0] != sep[1]
    ensures Split(p + [sep[0]] + q + sep + b, sep) == [p + [sep[0]] + q] + Split(b, sep)
  {
    var a := p + [sep[0]] + q;
    var s := a + sep + b;
    forall k: nat | k < |a| ensures !OccursAt(s, sep, k) {
      if k + |sep| <= |s| {
        if k < |p| {
          assert s[k..k + |sep|][0] == p[k];
        } else if k == |p| {
          assert s[k..k + |sep|][1] == q[0];
        } else {
          assert s[k..k + |sep|][0] == q[k - |p| - 1];
        }
      }
    }
    SplitAfter(a, sep, b);
  }

  /** A one-character separator occurs exactly when the character does. */
  lemma ContainsChar(s: string, c: char)
    ensures Contains(s, [c]) <==> c in s
  {
    if c in s {
      var i :| 0 <= i < |s| && s[i] == c;
      assert s[i..i + 1] == [c];
      assert OccursAt(s, [c], i);
    }
    if Contains(s, [c]) {
      var i: nat :| i <= |s| && OccursAt(s, [c], i);
      assert s[i] == s[i..i + 1][0];
    }
  }

  /** Slicing inside the first part of a concatenation. */
  lemma FromConcat(a: string, b: string, k: nat)
    requires k <= |a|
    ensures From(a + b, k) == a[k..] + b
  {
    assert (a + b)[k..] == a[k..] + b;
  }
}
