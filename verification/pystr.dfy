/** The Python `str` operations the pipeline relies on: `isspace`, `strip`,
    slicing, `join` and the decimal rendering of a non-negative `int`. */
module PyStr {

  function Min(a: int, b: int): int { if a < b then a else b }

  /** The code points Python's `str.isspace` accepts, as inclusive ranges: the
      ASCII controls 9..13, the information separators 28..31 and space, NEL,
      NO-BREAK SPACE, OGHAM SPACE MARK, the spaces U+2000..U+200A, the line and
      paragraph separators, NARROW NO-BREAK SPACE, MEDIUM MATHEMATICAL SPACE and
      IDEOGRAPHIC SPACE. */
  const SpaceRanges: seq<(int, int)> := [
    (0x09, 0x0D), (0x1C, 0x20), (0x85, 0x85), (0xA0, 0xA0), (0x1680, 0x1680),
    (0x2000, 0x200A), (0x2028, 0x2029), (0x202F, 0x202F), (0x205F, 0x205F), (0x3000, 0x3000)
  ]

  predicate InRanges(n: int, ranges: seq<(int, int)>) {
    ranges != [] && (ranges[0].0 <= n <= ranges[0].1 || InRanges(n, ranges[1..]))
  }

  /** Python's `str.isspace` on one character. */
  predicate IsSpace(c: char) {
    InRanges(c as int, SpaceRanges)
  }

  ghost predicate AllSpace(s: string) {
    forall k :: 0 <= k < |s| ==> IsSpace(s[k])
  }

  /** `r` occurs in `s` as a contiguous run of characters. */
  ghost predicate IsInfix(r: string, s: string) {
    exists lo :: OccursAt(r, s, lo)
  }

  /** `r` occurs in `s` starting at index `lo`. */
  predicate OccursAt(r: string, s: string, lo: int) {
    0 <= lo && lo + |r| <= |s| && s[lo..lo + |r|] == r
  }

  lemma InfixAt(r: string, s: string, lo: int)
    requires OccursAt(r, s, lo)
    ensures IsInfix(r, s)
  {
  }

  lemma InfixTransitive(r: string, m: string, s: string)
    requires IsInfix(r, m) && IsInfix(m, s)
    ensures IsInfix(r, s)
  {
    var a :| OccursAt(r, m, a);
    var b :| OccursAt(m, s, b);
    forall k | 0 <= k < |r|
      ensures s[b + a..b + a + |r|][k] == r[k]
    {
      assert r[k] == m[a + k] == s[b + a + k];
    }
    assert s[b + a..b + a + |r|] == r;
    InfixAt(r, s, b + a);
  }

  // ---------------------------------------------------------------- strip

  /** The reference meaning of `s.strip()`: it keeps `s[lo..hi]`, everything
      outside that range is whitespace, and a non-empty kept part neither starts
      nor ends with whitespace. */
  ghost predicate StripsTo(s: string, lo: int, hi: int) {
    && 0 <= lo <= hi <= |s|
    && (forall k :: 0 <= k < lo ==> IsSpace(s[k]))
    && (forall k :: hi <= k < |s| ==> IsSpace(s[k]))
    && (lo < hi ==> !IsSpace(s[lo]) && !IsSpace(s[hi - 1]))
  }

  /** Python's `s.strip()` with no argument: whitespace is removed from both
      ends, one character at a time, until neither end is whitespace. */
  function Strip(s: string): string
    decreases |s|
  {
    if |s| > 0 && IsSpace(s[0]) then Strip(s[1..])
    else if |s| > 0 && IsSpace(s[|s| - 1]) then Strip(s[..|s| - 1])
    else s
  }

  /** How many characters `Strip` removes from the front of `s`. */
  ghost function StripStart(s: string): nat
    decreases |s|
  {
    if |s| > 0 && IsSpace(s[0]) then 1 + StripStart(s[1..])
    else if |s| > 0 && IsSpace(s[|s| - 1]) then StripStart(s[..|s| - 1])
    else 0
  }

  /** `Strip(s)` is the part of `s` the reference meaning keeps, starting at
      `StripStart(s)`. */
  ghost predicate StripMeets(s: string) {
    StripsTo(s, StripStart(s), StripStart(s) + |Strip(s)|)
    && Strip(s) == s[StripStart(s)..StripStart(s) + |Strip(s)|]
  }

  /** `Strip` meets the reference meaning. */
  lemma {:induction false} StripMeaning(s: string)
    ensures StripMeets(s)
    decreases |s|
  {
    if |s| > 0 && IsSpace(s[0]) {
      StripMeaning(s[1..]);
      StripMeetsFront(s);
    } else if |s| > 0 && IsSpace(s[|s| - 1]) {
      StripMeaning(s[..|s| - 1]);
      StripMeetsBack(s);
    } else {
      assert StripStart(s) == 0 && StripStart(s) + |Strip(s)| == |s|;
      assert s[0..|s|] == s;
    }
  }

  lemma {:induction false} StripMeetsFront(s: string)
    requires |s| > 0 && IsSpace(s[0]) && StripMeets(s[1..])
    ensures StripMeets(s)
  {
    var t := s[1..];
    var lo, hi := StripStart(t), StripStart(t) + |Strip(t)|;
    assert Strip(s) == Strip(t);
    assert StripStart(s) == lo + 1 && StripStart(s) + |Strip(s)| == hi + 1;
    StripsToFront(s, lo, hi);
  }

  lemma {:induction false} StripMeetsBack(s: string)
    requires |s| > 0 && !IsSpace(s[0]) && IsSpace(s[|s| - 1]) && StripMeets(s[..|s| - 1])
    ensures StripMeets(s)
  {
    var t := s[..|s| - 1];
    var lo, hi := StripStart(t), StripStart(t) + |Strip(t)|;
    assert Strip(s) == Strip(t);
    assert StripStart(s) == lo && StripStart(s) + |Strip(s)| == hi;
    StripsToBack(s, lo, hi);
  }

  /** Putting a whitespace character in front shifts the kept range by one. */
  lemma {:induction false} StripsToFront(s: string, lo: int, hi: int)
    requires |s| > 0 && IsSpace(s[0]) && StripsTo(s[1..], lo, hi)
    ensures StripsTo(s, lo + 1, hi + 1) && s[lo + 1..hi + 1] == s[1..][lo..hi]
  {
    var t := s[1..];
    forall k | 0 < k < lo + 1
      ensures IsSpace(s[k])
    {
      assert s[k] == t[k - 1];
    }
    forall k | hi + 1 <= k < |s|
      ensures IsSpace(s[k])
    {
      assert s[k] == t[k - 1];
    }
    if lo < hi {
      assert s[lo + 1] == t[lo] && s[hi] == t[hi - 1];
    }
  }

  /** Putting a whitespace character at the end keeps the same range. */
  lemma {:induction false} StripsToBack(s: string, lo: int, hi: int)
    requires |s| > 0 && IsSpace(s[|s| - 1]) && StripsTo(s[..|s| - 1], lo, hi)
    ensures StripsTo(s, lo, hi) && s[lo..hi] == s[..|s| - 1][lo..hi]
  {
    var t := s[..|s| - 1];
    forall k | 0 <= k < lo
      ensures IsSpace(s[k])
    {
      assert s[k] == t[k];
    }
    forall k | hi <= k < |s| - 1
      ensures IsSpace(s[k])
    {
      assert s[k] == t[k];
    }
    if lo < hi {
      assert s[lo] == t[lo] && s[hi - 1] == t[hi - 1];
    }
  }

  /** The stripped text is no longer than the original, neither starts nor ends
      with whitespace, and is empty exactly when the original is all whitespace. */
  lemma {:induction false} StripShape(s: string)
    ensures |Strip(s)| <= |s|
    ensures Strip(s) != [] ==> !IsSpace(Strip(s)[0]) && !IsSpace(Strip(s)[|Strip(s)| - 1])
    ensures Strip(s) == [] <==> AllSpace(s)
  {
    StripMeaning(s);
    StripsToEmpty(s, StripStart(s), StripStart(s) + |Strip(s)|);
  }

  /** What `strip` keeps is a contiguous piece of its argument. */
  lemma StripInfix(s: string)
    ensures IsInfix(Strip(s), s)
  {
    StripMeaning(s);
    InfixAt(Strip(s), s, StripStart(s));
  }

  /** Whatever bounds satisfy the reference meaning, they keep the same text. */
  lemma {:induction false} StripsToUnique(s: string, lo: int, hi: int, lo': int, hi': int)
    requires StripsTo(s, lo, hi) && StripsTo(s, lo', hi')
    ensures s[lo..hi] == s[lo'..hi']
  {
    StripsToEmpty(s, lo, hi);
    StripsToEmpty(s, lo', hi');
    if lo < hi {
      assert !IsSpace(s[lo]) && !IsSpace(s[lo']);
      assert !IsSpace(s[hi - 1]) && !IsSpace(s[hi' - 1]);
    }
  }

  /** The kept part is empty exactly when the whole string is whitespace. */
  lemma {:induction false} StripsToEmpty(s: string, lo: int, hi: int)
    requires StripsTo(s, lo, hi)
    ensures lo == hi <==> AllSpace(s)
  {
    if lo < hi {
      assert !IsSpace(s[lo]);
    }
  }

  /** `Strip` computes exactly the reference meaning. */
  lemma StripCharacterised(s: string, lo: int, hi: int)
    requires StripsTo(s, lo, hi)
    ensures Strip(s) == s[lo..hi]
  {
    StripMeaning(s);
    StripsToUnique(s, StripStart(s), StripStart(s) + |Strip(s)|, lo, hi);
  }

  /** Stripping twice is stripping once. */
  lemma {:induction false} StripIdempotent(s: string)
    ensures Strip(Strip(s)) == Strip(s)
  {
    var r := Strip(s);
    StripShape(s);
    assert StripsTo(r, 0, |r|);
    StripCharacterised(r, 0, |r|);
    assert r[0..|r|] == r;
  }

  // ---------------------------------------------------------------- slicing

  /** Python's normalisation of one slice bound against a length `n`: a
      negative bound counts from the end, then the bound is clamped to 0..n. */
  function SliceBound(i: int, n: nat): (j: nat)
    ensures j <= n
  {
    if i < 0 then (if i + n < 0 then 0 else i + n) else if i < n then i else n
  }

  /** Python's `s[a:b]`. */
  function Slice(s: string, a: int, b: int): string
  {
    var lo, hi := SliceBound(a, |s|), SliceBound(b, |s|);
    s[lo..if lo < hi then hi else lo]
  }

  /** With non-negative bounds `a <= b`, `s[a:b]` clamps both bounds to the
      length of `s`. */
  lemma SliceClamped(s: string, a: int, b: int)
    requires 0 <= a <= b
    ensures Slice(s, a, b) == s[Min(a, |s|)..Min(b, |s|)]
  {
  }

  // ---------------------------------------------------------------- join

  /** Python's `sep.join(parts)`. */
  function Join(parts: seq<string>, sep: string): string
  {
    if |parts| == 0 then ""
    else if |parts| == 1 then parts[0]
    else parts[0] + sep + Join(parts[1..], sep)
  }

  /** Where part `i` starts in `Join(parts, sep)`: every earlier part and one
      separator after each. */
  function JoinOffset(parts: seq<string>, sep: string, i: nat): nat
    requires i <= |parts|
  {
    if i == 0 then 0 else |parts[0]| + |sep| + JoinOffset(parts[1..], sep, i - 1)
  }

  function TotalLength(parts: seq<string>): nat
  {
    if parts == [] then 0 else |parts[0]| + TotalLength(parts[1..])
  }

  /** Joining n parts adds exactly n - 1 separators' worth of characters. */
  lemma {:induction false} JoinLength(parts: seq<string>, sep: string)
    requires |parts| > 0
    ensures |Join(parts, sep)| == TotalLength(parts) + (|parts| - 1) * |sep|
  {
    if |parts| > 1 {
      JoinLength(parts[1..], sep);
    }
  }

  /** Part `i` sits at `JoinOffset(parts, sep, i)` in the joined text. */
  lemma {:induction false} JoinPartAt(parts: seq<string>, sep: string, i: nat)
    requires i < |parts|
    ensures JoinOffset(parts, sep, i) + |parts[i]| <= |Join(parts, sep)|
    ensures Join(parts, sep)[JoinOffset(parts, sep, i)..JoinOffset(parts, sep, i) + |parts[i]|] == parts[i]
  {
    var j := Join(parts, sep);
    if i == 0 {
      if |parts| > 1 {
        assert j == parts[0] + (sep + Join(parts[1..], sep));
      }
    } else {
      var rest := Join(parts[1..], sep);
      var b := |parts[0]| + |sep|;
      JoinPartAt(parts[1..], sep, i - 1);
      var o := JoinOffset(parts[1..], sep, i - 1);
      assert j == (parts[0] + sep) + rest;
      assert j[b + o..b + o + |parts[i]|] == rest[o..o + |parts[i]|];
    }
  }

  /** A separator sits between part `i` and part `i + 1`. */
  lemma {:induction false} JoinSeparatorAt(parts: seq<string>, sep: string, i: nat)
    requires i + 1 < |parts|
    ensures JoinOffset(parts, sep, i) + |parts[i]| + |sep| == JoinOffset(parts, sep, i + 1)
    ensures JoinOffset(parts, sep, i + 1) <= |Join(parts, sep)|
    ensures Join(parts, sep)[JoinOffset(parts, sep, i) + |parts[i]|..JoinOffset(parts, sep, i + 1)] == sep
  {
    var j := Join(parts, sep);
    var rest := Join(parts[1..], sep);
    if i == 0 {
      assert j == parts[0] + sep + rest;
      assert j[|parts[0]|..|parts[0]| + |sep|] == sep;
    } else {
      var b := |parts[0]| + |sep|;
      JoinSeparatorAt(parts[1..], sep, i - 1);
      var o := JoinOffset(parts[1..], sep, i - 1);
      var o' := JoinOffset(parts[1..], sep, i);
      assert j == (parts[0] + sep) + rest;
      assert j[b + o + |parts[i]|..b + o'] == rest[o + |parts[i]|..o'];
    }
  }

  /** Part `i` of `parts` appears in `j` at its join offset. */
  ghost predicate PartPlaced(j: string, parts: seq<string>, sep: string, i: nat)
    requires i < |parts|
  {
    JoinOffset(parts, sep, i) + |parts[i]| <= |j|
    && j[JoinOffset(parts, sep, i)..JoinOffset(parts, sep, i) + |parts[i]|] == parts[i]
  }

  /** The separator appears in `j` right before part `i`. */
  ghost predicate SeparatorBefore(j: string, parts: seq<string>, sep: string, i: nat)
    requires i < |parts|
  {
    |sep| <= JoinOffset(parts, sep, i) <= |j|
    && j[JoinOffset(parts, sep, i) - |sep|..JoinOffset(parts, sep, i)] == sep
  }

  /** The joined text is the parts in order, one separator before every part
      but the first, and nothing after the last part. */
  lemma JoinLayout(parts: seq<string>, sep: string)
    requires |parts| > 0
    ensures |Join(parts, sep)| == JoinOffset(parts, sep, |parts| - 1) + |parts[|parts| - 1]|
    ensures forall i :: 0 <= i < |parts| ==> PartPlaced(Join(parts, sep), parts, sep, i)
    ensures forall i :: 0 < i < |parts| ==> SeparatorBefore(Join(parts, sep), parts, sep, i)
  {
    JoinEnd(parts, sep);
    forall i | 0 <= i < |parts|
      ensures PartPlaced(Join(parts, sep), parts, sep, i)
    {
      JoinPartAt(parts, sep, i);
    }
    forall i | 0 < i < |parts|
      ensures SeparatorBefore(Join(parts, sep), parts, sep, i)
    {
      JoinSeparatorAt(parts, sep, i - 1);
    }
  }

  lemma {:induction false} JoinEnd(parts: seq<string>, sep: string)
    requires |parts| > 0
    ensures |Join(parts, sep)| == JoinOffset(parts, sep, |parts| - 1) + |parts[|parts| - 1]|
  {
    if |parts| > 1 {
      JoinEnd(parts[1..], sep);
      assert parts[1..][|parts| - 2] == parts[|parts| - 1];
    }
  }

  // ---------------------------------------------------------------- str(n)

  predicate IsDigit(c: char) { '0' <= c <= '9' }

  function DigitChar(d: nat): (c: char)
    requires d < 10
    ensures IsDigit(c) && DigitValue(c) == d
  {
    ('0' as int + d) as char
  }

  function DigitValue(c: char): nat
    requires IsDigit(c)
  {
    c as int - '0' as int
  }

  /** Python's `str(n)` (or `f"{n}"`) for a non-negative integer. */
  function DecimalString(n: nat): (s: string)
    ensures |s| >= 1
    ensures forall k :: 0 <= k < |s| ==> IsDigit(s[k])
    ensures |s| > 1 ==> s[0] != '0'
  {
    if n < 10 then [DigitChar(n)] else DecimalString(n / 10) + [DigitChar(n % 10)]
  }

  /** The number a string of decimal digits denotes. */
  function DecimalValue(s: string): nat
    requires forall k :: 0 <= k < |s| ==> IsDigit(s[k])
  {
    if s == [] then 0
    else DecimalValue(s[..|s| - 1]) * 10 + DigitValue(s[|s| - 1])
  }

  /** Reading back the decimal rendering gives the number. */
  lemma {:induction false} DecimalRoundTrip(n: nat)
    ensures DecimalValue(DecimalString(n)) == n
  {
    var s := DecimalString(n);
    if n >= 10 {
      DecimalRoundTrip(n / 10);
      assert s[..|s| - 1] == DecimalString(n / 10);
    } else {
      assert s[..|s| - 1] == [];
    }
  }

  /** Different numbers render differently. */
  lemma DecimalStringInjective(m: nat, n: nat)
    requires DecimalString(m) == DecimalString(n)
    ensures m == n
  {
    DecimalRoundTrip(m);
    DecimalRoundTrip(n);
  }
}
