/** The Python built-ins the storage layer leans on, with Python's own
    semantics: `None`, `str.find`, slicing `s[i:j]`, `str.strip()`,
    `sep.join(parts)` and `str(n)` for an integer.  `Split` (Python's
    `s.split(sep)`) and `ParseInt` (Python's `int(s)`) are not used by the
    storage layer; they are the inverses against which `Join` and `IntText`
    are checked. */
module Py {

  datatype Option<+T> = None | Some(value: T)

  // ---------------------------------------------------------------------
  // str.find

  /** `p` occurs in `s` starting at index `k`. */
  predicate OccursAt(s: string, p: string, k: int) {
    0 <= k && k + |p| <= |s| && s[k..k + |p|] == p
  }

  /** Python's `p in s`. */
  predicate Contains(s: string, p: string) {
    exists k :: 0 <= k <= |s| && OccursAt(s, p, k)
  }

  /** `s.find(p, i)`: the lowest index from `i` on at which `p` occurs, or -1. */
  function FindFrom(s: string, p: string, i: nat): (r: int)
    decreases |s| - i
    ensures r == -1 || (i <= r && OccursAt(s, p, r))
    ensures r == -1 ==> forall k :: i <= k ==> !OccursAt(s, p, k)
    ensures r != -1 ==> forall k :: i <= k < r ==> !OccursAt(s, p, k)
  {
    if i + |p| > |s| then -1
    else if s[i..i + |p|] == p then i
    else FindFrom(s, p, i + 1)
  }

  /** `s.find(p)`: the first occurrence of `p` in `s`, or -1 when there is none. */
  function Find(s: string, p: string): (r: int)
    ensures r == -1 <==> !Contains(s, p)
    ensures r != -1 ==> OccursAt(s, p, r) && forall k :: 0 <= k < r ==> !OccursAt(s, p, k)
  {
    FindFrom(s, p, 0)
  }

  /** `p` cannot start inside `a` when `a` is followed by `p` itself: every
      window that starts in `a` lies inside `a + p[..|p| - 1]`. */
  predicate StartsNowhereIn(a: string, p: string)
    requires p != []
  {
    !Contains(a + p[..|p| - 1], p)
  }

  /** The first occurrence of `p` in `a + p + b` is the one right after `a`
      exactly when `p` starts nowhere in `a`. */
  lemma FindAfter(a: string, p: string, b: string)
    requires p != []
    requires StartsNowhereIn(a, p)
    ensures Find(a + p + b, p) == |a|
  {
    var s := a + p + b;
    assert s[|a|..|a| + |p|] == p;
    assert OccursAt(s, p, |a|);
    var w := a + p[..|p| - 1];
    assert s[..|w|] == w;
    forall k | 0 <= k < |a|
      ensures !OccursAt(s, p, k)
    {
      assert !OccursAt(w, p, k);
      assert k + |p| <= |w|;
      var here, there := s[k..k + |p|], w[k..k + |p|];
      forall t | 0 <= t < |p| ensures here[t] == there[t] {
        assert s[..|w|][k + t] == s[k + t];
      }
      assert here == there;
    }
  }

  /** A text that opens with `p` has its first `p` at index 0. */
  lemma FindAtStart(p: string, b: string)
    requires p != []
    ensures Find(p + b, p) == 0
  {
    var w := [] + p[..|p| - 1];
    forall k | 0 <= k <= |w| ensures !OccursAt(w, p, k) { }
    assert [] + p + b == p + b;
    FindAfter([], p, b);
  }

  /** `p` starts nowhere in `a` when no position of `a` (followed by `p`)
      holds the first two characters of `p`. */
  lemma NoPairStart(a: string, p: string)
    requires |p| >= 2
    requires forall k :: 0 <= k < |a| ==> (a + p)[k] != p[0] || (a + p)[k + 1] != p[1]
    ensures StartsNowhereIn(a, p)
  {
    var w := a + p[..|p| - 1];
    forall k | 0 <= k <= |w|
      ensures !OccursAt(w, p, k)
    {
      if k + |p| <= |w| {
        assert w[k..k + |p|][0] == w[k] == (a + p)[k];
        assert w[k..k + |p|][1] == w[k + 1] == (a + p)[k + 1];
      }
    }
  }

  /** A string without `c` contains no occurrence of a pattern starting with `c`. */
  lemma AbsentFirstChar(s: string, p: string)
    requires p != []
    requires forall k :: 0 <= k < |s| ==> s[k] != p[0]
    ensures !Contains(s, p)
  {
    forall k | 0 <= k <= |s|
      ensures !OccursAt(s, p, k)
    {
      if k + |p| <= |s| {
        assert s[k..k + |p|][0] == s[k];
      }
    }
  }

  // ---------------------------------------------------------------------
  // slicing

  /** How Python normalises one bound of a slice of a sequence of length `n`. */
  function SliceBound(i: int, n: nat): (k: nat)
    ensures k <= n
    ensures 0 <= i <= n ==> k == i
    ensures i > n ==> k == n
  {
    if i < 0 then (if i + n < 0 then 0 else i + n)
    else if i > n then n
    else i
  }

  /** Python's `s[i:j]`: both bounds clamped, empty when they cross. */
  function Slice(s: string, i: int, j: int): (r: string)
    ensures 0 <= i <= j <= |s| ==> r == s[i..j]
    ensures 0 <= j <= i ==> r == []
    ensures 0 <= i <= |s| <= j ==> r == s[i..]
    ensures |s| <= i ==> r == []
  {
    var a, b := SliceBound(i, |s|), SliceBound(j, |s|);
    if a < b then s[a..b] else []
  }

  /** A negative bound counts from the end of the text, and one that
      reaches past the front is the front. */
  lemma SliceFromEnd(s: string, i: int, j: int)
    ensures i < 0 ==> Slice(s, i, j) == Slice(s, if i + |s| < 0 then 0 else i + |s|, j)
    ensures j < 0 ==> Slice(s, i, j) == Slice(s, i, if j + |s| < 0 then 0 else j + |s|)
  {
  }

  // ---------------------------------------------------------------------
  // str.strip()

  /** Python's `c.isspace()`: the characters `strip()` removes by default. */
  predicate IsSpace(c: char) {
    || c == ' '
    || ('\t' <= c <= '\r')
    || ('\U{1C}' <= c <= '\U{1F}')
    || c == '\U{85}'
    || c == '\U{A0}'
    || c == '\U{1680}'
    || ('\U{2000}' <= c <= '\U{200A}')
    || c == '\U{2028}'
    || c == '\U{2029}'
    || c == '\U{202F}'
    || c == '\U{205F}'
    || c == '\U{3000}'
  }

  predicate AllSpace(s: string) {
    forall k :: 0 <= k < |s| ==> IsSpace(s[k])
  }

  /** Neither end of `r` is whitespace. */
  predicate Trimmed(r: string) {
    r == [] || (!IsSpace(r[0]) && !IsSpace(r[|r| - 1]))
  }

  /** The first index from `i` on that is not whitespace, or `|s|`. */
  function SkipSpace(s: string, i: nat): (a: nat)
    requires i <= |s|
    ensures i <= a <= |s|
    ensures forall k :: i <= k < a ==> IsSpace(s[k])
    ensures a == |s| || !IsSpace(s[a])
    decreases |s| - i
  {
    if i == |s| || !IsSpace(s[i]) then i else SkipSpace(s, i + 1)
  }

  /** Scanning back from `j` no further than `lo`: the index just after the
      last character that is not whitespace, or `lo`. */
  function BackSpace(s: string, lo: nat, j: nat): (b: nat)
    requires lo <= j <= |s|
    ensures lo <= b <= j
    ensures forall k :: b <= k < j ==> IsSpace(s[k])
    ensures b == lo || !IsSpace(s[b - 1])
    decreases j
  {
    if j == lo || !IsSpace(s[j - 1]) then j else BackSpace(s, lo, j - 1)
  }

  /** Python's `s.strip()`: whitespace cut off the front, then off the back
      of what is left. */
  function Strip(s: string): string {
    var a := SkipSpace(s, 0);
    s[a..BackSpace(s, a, |s|)]
  }

  /** Independent description of stripping: `r` is the infix of `s` left
      once whitespace is cut from both ends, and no more. */
  ghost predicate IsStripOf(s: string, r: string) {
    exists a, b ::
      && 0 <= a <= b <= |s|
      && r == s[a..b]
      && AllSpace(s[..a])
      && AllSpace(s[b..])
      && Trimmed(r)
  }

  /** What `Strip` leaves has no whitespace at either end. */
  lemma StripTrimmed(s: string)
    ensures Trimmed(Strip(s))
  {
    var a := SkipSpace(s, 0);
    var b := BackSpace(s, a, |s|);
    if a < b {
      assert s[a..b][0] == s[a];
      assert s[a..b][b - a - 1] == s[b - 1];
    }
  }

  lemma StripIsStripOf(s: string)
    ensures IsStripOf(s, Strip(s))
  {
    var a := SkipSpace(s, 0);
    var b := BackSpace(s, a, |s|);
    assert AllSpace(s[..a]) by {
      forall k | 0 <= k < a ensures IsSpace(s[..a][k]) { assert s[..a][k] == s[k]; }
    }
    assert AllSpace(s[b..]) by {
      forall k | 0 <= k < |s| - b ensures IsSpace(s[b..][k]) { assert s[b..][k] == s[b + k]; }
    }
    StripTrimmed(s);
  }

  /** The forward scan stops at the first character that is not whitespace. */
  lemma {:induction false} SkipSpaceAt(s: string, i: nat, a: nat)
    requires i <= a <= |s|
    requires forall k :: i <= k < a ==> IsSpace(s[k])
    requires a == |s| || !IsSpace(s[a])
    ensures SkipSpace(s, i) == a
    decreases a - i
  {
    if i < a {
      SkipSpaceAt(s, i + 1, a);
    }
  }

  /** The backward scan stops after the last character that is not whitespace. */
  lemma {:induction false} BackSpaceAt(s: string, lo: nat, j: nat, b: nat)
    requires lo <= b <= j <= |s|
    requires forall k :: b <= k < j ==> IsSpace(s[k])
    requires b == lo || !IsSpace(s[b - 1])
    ensures BackSpace(s, lo, j) == b
    decreases j - b
  {
    if b < j {
      BackSpaceAt(s, lo, j - 1, b);
    }
  }

  /** Any cut that meets the description is the one `Strip` makes. */
  lemma StripAt(s: string, a: nat, b: nat)
    requires a <= b <= |s| && AllSpace(s[..a]) && AllSpace(s[b..]) && Trimmed(s[a..b])
    ensures Strip(s) == s[a..b]
  {
    assert forall k :: 0 <= k < a ==> IsSpace(s[k]) by {
      forall k | 0 <= k < a ensures IsSpace(s[k]) { assert s[..a][k] == s[k]; }
    }
    assert forall k :: b <= k < |s| ==> IsSpace(s[k]) by {
      forall k | b <= k < |s| ensures IsSpace(s[k]) { assert s[b..][k - b] == s[k]; }
    }
    if a == b {
      SkipSpaceAt(s, 0, |s|);
    } else {
      assert s[a..b][0] == s[a];
      assert s[a..b][b - a - 1] == s[b - 1];
      SkipSpaceAt(s, 0, a);
      BackSpaceAt(s, a, |s|, b);
    }
  }

  /** `Strip` agrees with the independent description, in both directions. */
  lemma StripCharacterised(s: string, r: string)
    ensures r == Strip(s) <==> IsStripOf(s, r)
  {
    StripIsStripOf(s);
    if IsStripOf(s, r) {
      var a, b :| && 0 <= a <= b <= |s| && r == s[a..b] && AllSpace(s[..a])
                  && AllSpace(s[b..]) && Trimmed(r);
      StripAt(s, a, b);
    }
  }

  /** Stripping whitespace padding off a trimmed string gives that string back. */
  lemma StripPadded(w: string, t: string, w': string)
    requires AllSpace(w) && AllSpace(w') && Trimmed(t)
    ensures Strip(w + t + w') == t
  {
    var s := w + t + w';
    assert s[|w|..|w| + |t|] == t;
    assert s[..|w|] == w;
    assert s[|w| + |t|..] == w';
    assert IsStripOf(s, t);
    StripCharacterised(s, t);
  }

  lemma StripIdempotent(s: string)
    ensures Strip(Strip(s)) == Strip(s)
  {
    var t := Strip(s);
    StripTrimmed(s);
    assert t[..0] == [] && t[|t|..] == [] && t[0..|t|] == t;
    StripAt(t, 0, |t|);
  }

  // ---------------------------------------------------------------------
  // sep.join(parts) and its inverse s.split(sep)

  /** Python's `sep.join(parts)`. */
  function Join(sep: string, parts: seq<string>): string
    decreases |parts|
  {
    if |parts| == 0 then ""
    else if |parts| == 1 then parts[0]
    else parts[0] + sep + Join(sep, parts[1..])
  }

  /** Python's `s.split(sep)` for a non-empty separator. */
  function Split(s: string, sep: string): (r: seq<string>)
    requires sep != []
    ensures |r| >= 1
    decreases |s|
  {
    var i := Find(s, sep);
    if i == -1 then [s] else [s[..i]] + Split(s[i + |sep|..], sep)
  }

  lemma ContainsExtend(a: string, b: string, p: string)
    requires Contains(a, p)
    ensures Contains(a + b, p)
  {
    var k :| 0 <= k <= |a| && OccursAt(a, p, k);
    assert (a + b)[k..k + |p|] == a[k..k + |p|];
    assert OccursAt(a + b, p, k);
  }

  /** Splitting a join gives the parts back, provided the separator starts
      nowhere inside a part. */
  lemma {:induction false} SplitJoin(sep: string, parts: seq<string>)
    requires sep != [] && |parts| >= 1
    requires forall k :: 0 <= k < |parts| ==> StartsNowhereIn(parts[k], sep)
    ensures Split(Join(sep, parts), sep) == parts
    decreases |parts|
  {
    if |parts| == 1 {
      if Contains(parts[0], sep) {
        ContainsExtend(parts[0], sep[..|sep| - 1], sep);
      }
    } else {
      var rest := Join(sep, parts[1..]);
      var s := parts[0] + sep + rest;
      FindAfter(parts[0], sep, rest);
      assert s[..|parts[0]|] == parts[0];
      assert s[|parts[0]| + |sep|..] == rest;
      SplitJoin(sep, parts[1..]);
      assert [parts[0]] + parts[1..] == parts;
    }
  }

  predicate CommaFree(t: string) {
    forall k :: 0 <= k < |t| ==> t[k] != ','
  }

  lemma CommaFreeConcat(a: string, b: string)
    requires CommaFree(a) && CommaFree(b)
    ensures CommaFree(a + b)
  {
    forall k | 0 <= k < |a + b| ensures (a + b)[k] != ',' {
      if k >= |a| {
        assert (a + b)[k] == b[k - |a|];
      }
    }
  }

  /** The comma-space separator starts nowhere in a part without a comma. */
  lemma CommaFreeSeparates(t: string)
    requires CommaFree(t)
    ensures StartsNowhereIn(t, ", ")
  {
    var w := t + ", "[..1];
    forall k | 0 <= k <= |w|
      ensures !OccursAt(w, ", ", k)
    {
      if k + 2 <= |w| {
        assert w[k..k + 2][0] == w[k] == t[k];
      }
    }
  }

  /** A comma-space list of comma-free parts splits back into those parts. */
  lemma SplitJoinCommaFree(parts: seq<string>)
    requires |parts| >= 1 && forall k :: 0 <= k < |parts| ==> CommaFree(parts[k])
    ensures Split(Join(", ", parts), ", ") == parts
  {
    forall k | 0 <= k < |parts| ensures StartsNowhereIn(parts[k], ", ") {
      CommaFreeSeparates(parts[k]);
    }
    SplitJoin(", ", parts);
  }

  // ---------------------------------------------------------------------
  // str(n) and int(s) for integers

  predicate IsDigit(c: char) {
    '0' <= c <= '9'
  }

  function DigitChar(d: nat): (c: char)
    requires d < 10
    ensures IsDigit(c)
  {
    (48 + d) as char
  }

  function DigitValue(c: char): (d: nat)
    requires IsDigit(c)
    ensures d < 10
  {
    c as int - 48
  }

  /** Decimal digits of `n`, most significant first, no leading zero. */
  function NatDigits(n: nat): (r: string)
    ensures r != [] && forall k :: 0 <= k < |r| ==> IsDigit(r[k])
    ensures r[0] == '0' ==> n == 0 && |r| == 1
  {
    if n < 10 then [DigitChar(n)] else NatDigits(n / 10) + [DigitChar(n % 10)]
  }

  /** Python's `str(n)` (and an f-string's `{n}`) for an int. */
  function IntText(n: int): string {
    if n < 0 then "-" + NatDigits(-n) else NatDigits(n)
  }

  /** The value of a non-empty run of digits. */
  function DigitsValue(s: string): nat
    requires s != [] && forall k :: 0 <= k < |s| ==> IsDigit(s[k])
  {
    if |s| == 1 then DigitValue(s[0])
    else DigitsValue(s[..|s| - 1]) * 10 + DigitValue(s[|s| - 1])
  }

  predicate AllDigits(s: string) {
    s != [] && forall k :: 0 <= k < |s| ==> IsDigit(s[k])
  }

  /** Python's `int(s)` on an optional minus sign and decimal digits
      (the whitespace, `+` and `_` it also accepts are never produced by `IntText`). */
  function ParseInt(s: string): Option<int> {
    if s != [] && s[0] == '-' && AllDigits(s[1..]) then Some(0 - DigitsValue(s[1..]))
    else if AllDigits(s) then Some(DigitsValue(s))
    else None
  }

  lemma {:induction false} DigitsRoundTrip(n: nat)
    ensures DigitsValue(NatDigits(n)) == n
  {
    if n >= 10 {
      var r := NatDigits(n);
      assert r[..|r| - 1] == NatDigits(n / 10);
      DigitsRoundTrip(n / 10);
    }
  }

  /** `int(str(n)) == n`: the text an id is rendered to reads back as that id. */
  lemma IntTextRoundTrip(n: int)
    ensures ParseInt(IntText(n)) == Some(n)
  {
    if n < 0 {
      NegativeTextRoundTrip(-n);
    } else {
      NatTextRoundTrip(n);
    }
  }

  lemma NatTextRoundTrip(n: nat)
    ensures ParseInt(NatDigits(n)) == Some(n)
  {
    var d := NatDigits(n);
    assert d[0] != '-';
    assert AllDigits(d);
    DigitsRoundTrip(n);
  }

  lemma NegativeTextRoundTrip(m: nat)
    requires m > 0
    ensures ParseInt("-" + NatDigits(m)) == Some(0 - m)
  {
    var d := NatDigits(m);
    var t := "-" + d;
    assert t[1..] == d;
    assert AllDigits(d);
    DigitsRoundTrip(m);
  }

  /** The rendering of an int holds no comma, so it never splits a list item. */
  lemma IntTextCommaFree(n: int)
    ensures CommaFree(IntText(n))
  {
    var d := if n < 0 then NatDigits(-n) else NatDigits(n);
    assert forall k :: 0 <= k < |d| ==> IsDigit(d[k]);
    if n < 0 {
      assert forall k :: 1 <= k < |IntText(n)| ==> IntText(n)[k] == d[k - 1];
    }
  }
}
