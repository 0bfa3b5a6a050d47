/**
 * String primitives of the JavaScript runtime that the price engine relies on:
 * the whitespace class of `\s` and `trim()`, the digit class `\d`,
 * `String.prototype.includes`, `replace(/,/g, '')` and `split` on one character.
 */
module JsText {

  /** WhiteSpace or LineTerminator in ECMAScript: the class `\s` matches and the set `trim()` removes. */
  predicate IsSpace(c: char) {
    if c <= ' ' then c == ' ' || '\t' <= c <= '\r'
    else
      '\U{A0}' <= c
      && (c == '\U{A0}' || c == '\U{1680}' || ('\U{2000}' <= c <= '\U{200A}')
          || c == '\U{2028}' || c == '\U{2029}' || c == '\U{202F}' || c == '\U{205F}'
          || c == '\U{3000}' || c == '\U{FEFF}')
  }

  /** The class `\d`: ASCII decimal digits only. */
  predicate IsDigit(c: char) {
    '0' <= c <= '9'
  }

  predicate AllDigits(s: string) {
    forall k | 0 <= k < |s| :: IsDigit(s[k])
  }

  /** Every character of `s[a..b]` is a digit. */
  predicate DigitsIn(s: string, a: int, b: int)
    requires 0 <= a <= b <= |s|
  {
    forall m | a <= m < b :: IsDigit(s[m])
  }

  predicate ContainsDigit(s: string) {
    exists k | 0 <= k < |s| :: IsDigit(s[k])
  }

  /** Every character of `s[a..b]` is whitespace. */
  predicate AllSpaces(s: string, a: int, b: int)
    requires 0 <= a <= b <= |s|
  {
    forall m | a <= m < b :: IsSpace(s[m])
  }

  /** The end of the maximal whitespace run of `s` that starts at `j`. */
  function SkipSpaces(s: string, j: nat): (k: nat)
    requires j <= |s|
    ensures j <= k <= |s|
    ensures k == |s| || !IsSpace(s[k])
    decreases |s| - j
  {
    if j < |s| && IsSpace(s[j]) then SkipSpaces(s, j + 1) else j
  }

  /** What `SkipSpaces` skips is whitespace. */
  lemma {:induction false} SkipSpacesSkipped(s: string, j: nat)
    requires j <= |s|
    ensures AllSpaces(s, j, SkipSpaces(s, j))
    decreases |s| - j
  {
    if j < |s| && IsSpace(s[j]) {
      SkipSpacesSkipped(s, j + 1);
    }
  }

  /** A whitespace stretch `s[a..b]` is skipped over: the run from `a` ends where the run from `b` does. */
  lemma {:induction false} SkipSpacesAcross(s: string, a: nat, b: nat)
    requires a <= b <= |s| && AllSpaces(s, a, b)
    ensures SkipSpaces(s, a) == SkipSpaces(s, b)
    decreases b - a
  {
    if a < b {
      SkipSpacesAcross(s, a + 1, b);
    }
  }

  /** No whitespace run starts at a digit. */
  lemma SkipSpacesAtDigit(s: string, j: nat)
    requires j < |s| && IsDigit(s[j])
    ensures SkipSpaces(s, j) == j
  {
  }

  /** The end of the maximal digit run of `s` that starts at `j`. */
  function DigitRun(s: string, j: nat): (k: nat)
    requires j <= |s|
    ensures j <= k <= |s| && DigitsIn(s, j, k)
    ensures k == |s| || !IsDigit(s[k])
    decreases |s| - j
  {
    if j < |s| && IsDigit(s[j]) then DigitRun(s, j + 1) else j
  }

  /** A digit run that stops before a non-digit is the run `DigitRun` finds. */
  lemma {:induction false} DigitRunExact(s: string, j: nat, k: nat)
    requires j <= k <= |s| && DigitsIn(s, j, k)
    requires k == |s| || !IsDigit(s[k])
    ensures DigitRun(s, j) == k
    decreases k - j
  {
    if j < k {
      DigitRunExact(s, j + 1, k);
    }
  }

  /** The start of the maximal whitespace run of `s` that ends at `j`. */
  function SkipSpacesBack(s: string, j: nat): (k: nat)
    requires j <= |s|
    ensures k <= j
    ensures k == 0 || !IsSpace(s[k - 1])
    decreases j
  {
    if j > 0 && IsSpace(s[j - 1]) then SkipSpacesBack(s, j - 1) else j
  }

  /** What `SkipSpacesBack` skips is whitespace. */
  lemma {:induction false} SkipSpacesBackSkipped(s: string, j: nat)
    requires j <= |s|
    ensures AllSpaces(s, SkipSpacesBack(s, j), j)
    decreases j
  {
    if j > 0 && IsSpace(s[j - 1]) {
      SkipSpacesBackSkipped(s, j - 1);
    }
  }

  /** `trimStart()`: drops the leading whitespace and nothing else. */
  function TrimStart(s: string): (r: string)
    ensures |r| <= |s|
  {
    s[SkipSpaces(s, 0)..]
  }

  /** What `trimStart()` keeps is a suffix of its input, after whitespace only, and starts with no whitespace. */
  lemma TrimStartSuffix(s: string)
    ensures TrimStart(s) == s[|s| - |TrimStart(s)|..]
    ensures TrimStart(s) == [] || !IsSpace(TrimStart(s)[0])
    ensures AllSpaces(s, 0, |s| - |TrimStart(s)|)
  {
    SkipSpacesSkipped(s, 0);
  }

  /** A string that does not begin with whitespace is its own `trimStart()`. */
  lemma TrimStartUnchanged(s: string)
    requires s != [] && !IsSpace(s[0])
    ensures TrimStart(s) == s
  {
    assert s[0..] == s;
  }

  /** `trimEnd()`: drops the trailing whitespace and nothing else. */
  function TrimEnd(s: string): (r: string)
    ensures |r| <= |s|
  {
    s[..SkipSpacesBack(s, |s|)]
  }

  /** What `trimEnd()` keeps is a prefix of its input, before whitespace only, and ends with no whitespace. */
  lemma TrimEndPrefix(s: string)
    ensures TrimEnd(s) == s[..|TrimEnd(s)|]
    ensures TrimEnd(s) == [] || !IsSpace(TrimEnd(s)[|TrimEnd(s)| - 1])
    ensures AllSpaces(s, |TrimEnd(s)|, |s|)
  {
    SkipSpacesBackSkipped(s, |s|);
  }

  /** `trim()`. */
  function Trim(s: string): (r: string)
  {
    TrimEnd(TrimStart(s))
  }

  /** What `trim()` returns is a slice of its input with only whitespace cut off either end. */
  lemma TrimSlice(s: string) returns (a: nat, b: nat)
    ensures a <= b <= |s| && Trim(s) == s[a..b]
    ensures AllSpaces(s, 0, a) && AllSpaces(s, b, |s|)
    ensures a < b ==> !IsSpace(s[a]) && !IsSpace(s[b - 1])
  {
    var t := TrimStart(s);
    TrimStartSuffix(s);
    a := |s| - |t|;
    var r := TrimEnd(t);
    TrimEndPrefix(t);
    b := a + |r|;
    assert r == s[a..b];
    forall m | b <= m < |s| ensures IsSpace(s[m]) {
      assert s[m] == t[m - a];
    }
  }

  /** A string with no whitespace at either end is its own trim. */
  lemma TrimOfTrimmed(s: string)
    requires s == [] || (!IsSpace(s[0]) && !IsSpace(s[|s| - 1]))
    ensures Trim(s) == s
  {
    assert s[0..] == s && s[..|s|] == s;
  }

  /** `trim()` is idempotent. */
  lemma TrimIdempotent(s: string)
    ensures Trim(Trim(s)) == Trim(s)
  {
    var a, b := TrimSlice(s);
    TrimOfTrimmed(s[a..b]);
  }

  /** `s || d` for a string `s`: the default `d` replaces the empty string, which is falsy. */
  function OrDefault(s: string, d: string): string {
    if s == [] then d else s
  }

  /** `s[i..]` starts with `p`. */
  predicate StartsWithAt(s: string, i: nat, p: string) {
    i + |p| <= |s| && s[i..i + |p|] == p
  }

  /** `s.includes(p)`. */
  predicate Includes(s: string, p: string) {
    exists i: nat | i <= |s| :: StartsWithAt(s, i, p)
  }

  /** `s.replace(/,/g, '')`. */
  function RemoveCommas(s: string): (r: string)
    ensures |r| <= |s|
  {
    if s == [] then []
    else (if s[0] == ',' then [] else [s[0]]) + RemoveCommas(s[1..])
  }

  lemma RemoveCommasAppend(a: string, b: string)
    ensures RemoveCommas(a + b) == RemoveCommas(a) + RemoveCommas(b)
  {
    if a == [] {
      assert a + b == b;
    } else {
      assert (a + b)[0] == a[0];
      assert (a + b)[1..] == a[1..] + b;
      RemoveCommasAppend(a[1..], b);
    }
  }

  lemma RemoveCommasNoComma(s: string)
    requires ',' !in s
    ensures RemoveCommas(s) == s
  {
  }

  /** A digit string has no comma to remove. */
  lemma RemoveCommasDigits(s: string)
    requires AllDigits(s)
    ensures RemoveCommas(s) == s
  {
    assert forall k | 0 <= k < |s| :: s[k] != ',';
    RemoveCommasNoComma(s);
  }

  /** A trailing comma is dropped. */
  lemma RemoveCommasTrailingComma(a: string)
    ensures RemoveCommas(a + [',']) == RemoveCommas(a)
  {
    RemoveCommasAppend(a, [',']);
    assert RemoveCommas([',']) == [];
  }

  /** `s.split(sep)` for a one-character separator: never empty, and `[""]` for `""`. */
  function Split(s: string, sep: char): (parts: seq<string>)
    ensures |parts| >= 1
    ensures forall k | 0 <= k < |parts| :: sep !in parts[k]
  {
    if s == [] then [[]]
    else if s[0] == sep then [[]] + Split(s[1..], sep)
    else
      var rest := Split(s[1..], sep);
      [[s[0]] + rest[0]] + rest[1..]
  }

  /** Joining the pieces with the separator gives the input back. */
  function Join(parts: seq<string>, sep: char): string
    requires |parts| >= 1
  {
    if |parts| == 1 then parts[0] else parts[0] + [sep] + Join(parts[1..], sep)
  }

  lemma {:induction false} SplitJoin(s: string, sep: char)
    ensures Join(Split(s, sep), sep) == s
  {
    if s == [] {
    } else if s[0] == sep {
      SplitJoin(s[1..], sep);
      var rest := Split(s[1..], sep);
      assert Split(s, sep) == [[]] + rest;
      assert ([[]] + rest)[1..] == rest;
    } else {
      SplitJoin(s[1..], sep);
      var rest := Split(s[1..], sep);
      var parts := [[s[0]] + rest[0]] + rest[1..];
      assert Split(s, sep) == parts;
      if |rest| == 1 {
      } else {
        assert parts[1..] == rest[1..];
        assert Join(rest, sep) == rest[0] + [sep] + Join(rest[1..], sep);
      }
    }
  }

  /** A string without the separator splits into itself alone. */
  lemma {:induction false} SplitNoSeparator(s: string, sep: char)
    requires sep !in s
    ensures Split(s, sep) == [s]
  {
    if s != [] {
      SplitNoSeparator(s[1..], sep);
      assert [s[0]] + s[1..] == s;
    }
  }

  /** `(a + sep + b).split(sep)` is `[a, b]` when neither piece holds the separator. */
  lemma {:induction false} SplitTwo(a: string, b: string, sep: char)
    requires sep !in a && sep !in b
    ensures Split(a + [sep] + b, sep) == [a, b]
  {
    if a == [] {
      assert [] + [sep] + b == [sep] + b;
      assert ([sep] + b)[1..] == b;
      SplitNoSeparator(b, sep);
    } else {
      assert (a + [sep] + b)[1..] == a[1..] + [sep] + b;
      SplitTwo(a[1..], b, sep);
      assert [a[0]] + a[1..] == a;
    }
  }
}
