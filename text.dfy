/** The .NET string, character and number primitives the core relies on, modelled on
    `seq<char>` with the invariant culture. Case mapping covers ASCII letters only. */
module Text {
  import opened Wrappers

  const Int32Min: int := -0x8000_0000
  const Int32Max: int := 0x7FFF_FFFF
  const Int64Min: int := -0x8000_0000_0000_0000
  const Int64Max: int := 0x7FFF_FFFF_FFFF_FFFF

  /** The sign of an integer, as `CompareTo` on `int` and `long` reports it. */
  function Sign(x: int): (r: int)
    ensures r == -1 || r == 0 || r == 1
    ensures (r < 0 <==> x < 0) && (r > 0 <==> x > 0)
  {
    if x < 0 then -1 else if x > 0 then 1 else 0
  }

  predicate IsAsciiDigit(c: char) {
    '0' <= c <= '9'
  }

  /** First code points of the blocks of ten decimal digits (Unicode category Nd) in the
      Basic Multilingual Plane. */
  const DigitBlocks: seq<int> := [
    0x0030, 0x0660, 0x06F0, 0x07C0, 0x0966, 0x09E6, 0x0A66, 0x0AE6, 0x0B66, 0x0BE6,
    0x0C66, 0x0CE6, 0x0D66, 0x0DE6, 0x0E50, 0x0ED0, 0x0F20, 0x1040, 0x1090, 0x17E0,
    0x1810, 0x1946, 0x19D0, 0x1A80, 0x1A90, 0x1B50, 0x1BB0, 0x1C40, 0x1C50, 0xA620,
    0xA8D0, 0xA900, 0xA9D0, 0xA9F0, 0xAA50, 0xABF0, 0xFF10]

  predicate InDigitBlocks(n: int, k: nat)
    decreases |DigitBlocks| - k
  {
    k < |DigitBlocks| && (DigitBlocks[k] <= n < DigitBlocks[k] + 10 || InDigitBlocks(n, k + 1))
  }

  /** `char.IsDigit`, which is also what the regex class `\d` accepts. */
  predicate IsDigit(c: char) {
    InDigitBlocks(c as int, 0)
  }

  lemma AsciiDigitIsDigit(c: char)
    ensures IsAsciiDigit(c) ==> IsDigit(c)
  {
  }

  /** `char.IsWhiteSpace`. */
  predicate IsWhiteSpace(c: char) {
    var n := c as int;
    (0x09 <= n <= 0x0D) || n == 0x20 || n == 0x85 || n == 0xA0 || n == 0x1680
    || (0x2000 <= n <= 0x200A) || n == 0x2028 || n == 0x2029 || n == 0x202F
    || n == 0x205F || n == 0x3000
  }

  /** The white space that `NumberStyles.Integer` allows around a number. */
  predicate IsNumberWhite(c: char) {
    (0x09 <= c as int <= 0x0D) || c == ' '
  }

  predicate AllAsciiDigits(s: string) {
    forall i :: 0 <= i < |s| ==> IsAsciiDigit(s[i])
  }

  /** `char.ToLowerInvariant` on ASCII letters. */
  function LowerChar(c: char): char {
    if 'A' <= c <= 'Z' then (c as int + 32) as char else c
  }

  /** The simple upper-case mapping `OrdinalIgnoreCase` compares by, on ASCII letters. */
  function UpperChar(c: char): char {
    if 'a' <= c <= 'z' then (c as int - 32) as char else c
  }

  /** `string.ToLowerInvariant`. */
  function Lower(s: string): (r: string)
    ensures |r| == |s| && forall i :: 0 <= i < |s| ==> r[i] == LowerChar(s[i])
  {
    seq(|s|, i requires 0 <= i < |s| => LowerChar(s[i]))
  }

  /** The string `OrdinalIgnoreCase` actually compares. */
  function Upper(s: string): (r: string)
    ensures |r| == |s| && forall i :: 0 <= i < |s| ==> r[i] == UpperChar(s[i])
  {
    seq(|s|, i requires 0 <= i < |s| => UpperChar(s[i]))
  }

  /** Ordinal lexicographic comparison, reported as a sign. */
  function CompareOrdinal(a: string, b: string): (r: int)
    ensures r == -1 || r == 0 || r == 1
    ensures r == 0 <==> a == b
  {
    if a == [] && b == [] then 0
    else if a == [] then -1
    else if b == [] then 1
    else if a[0] < b[0] then -1
    else if a[0] > b[0] then 1
    else
      var r := CompareOrdinal(a[1..], b[1..]);
      assert a == [a[0]] + a[1..] && b == [b[0]] + b[1..];
      r
  }

  lemma {:induction false} CompareOrdinalAntisymmetric(a: string, b: string)
    ensures CompareOrdinal(a, b) == -CompareOrdinal(b, a)
  {
    if a != [] && b != [] && a[0] == b[0] {
      CompareOrdinalAntisymmetric(a[1..], b[1..]);
    }
  }

  lemma {:induction false} CompareOrdinalTransitive(a: string, b: string, c: string)
    requires CompareOrdinal(a, b) <= 0 && CompareOrdinal(b, c) <= 0
    ensures CompareOrdinal(a, c) <= 0
  {
    if a != [] && b != [] && c != [] && a[0] == b[0] == c[0] {
      CompareOrdinalTransitive(a[1..], b[1..], c[1..]);
    }
  }

  /** `string.Compare(a, b, StringComparison.OrdinalIgnoreCase)`, reported as a sign. */
  function CompareIgnoreCase(a: string, b: string): int {
    CompareOrdinal(Upper(a), Upper(b))
  }

  /** `s.IndexOf(c)`: the first index of `c`, or -1. */
  function IndexOf(s: string, c: char): (r: int)
    ensures -1 <= r < |s|
    ensures r == -1 <==> c !in s
    ensures r >= 0 ==> s[r] == c && c !in s[..r]
  {
    if s == [] then -1
    else if s[0] == c then 0
    else
      var k := IndexOf(s[1..], c);
      assert s == [s[0]] + s[1..];
      if k == -1 then -1
      else
        assert s[..k + 1] == [s[0]] + s[1..][..k];
        k + 1
  }

  /** `s.LastIndexOf(c)`: the last index of `c`, or -1. */
  function LastIndexOf(s: string, c: char): (r: int)
    ensures -1 <= r < |s|
    ensures r == -1 <==> c !in s
    ensures r >= 0 ==> s[r] == c && c !in s[r + 1..]
  {
    if s == [] then -1
    else if s[|s| - 1] == c then |s| - 1
    else
      var k := LastIndexOf(s[..|s| - 1], c);
      assert s == s[..|s| - 1] + [s[|s| - 1]];
      if k >= 0 then
        assert s[k + 1..] == s[..|s| - 1][k + 1..] + [s[|s| - 1]];
        k
      else k
  }

  predicate StartsWith(s: string, prefix: string) {
    |prefix| <= |s| && s[..|prefix|] == prefix
  }

  predicate EndsWith(s: string, suffix: string) {
    |suffix| <= |s| && s[|s| - |suffix|..] == suffix
  }

  /** `p` occurs in `s` starting at index `i`. */
  predicate OccursAt(s: string, p: string, i: int) {
    0 <= i <= |s| - |p| && s[i..i + |p|] == p
  }

  /** `s.Contains(p)` with ordinal comparison. */
  predicate Contains(s: string, p: string) {
    exists i :: 0 <= i <= |s| && OccursAt(s, p, i)
  }

  /** `s.Contains(p, StringComparison.OrdinalIgnoreCase)`. */
  predicate ContainsIgnoreCase(s: string, p: string) {
    Contains(Upper(s), Upper(p))
  }

  /** `s.StartsWith(p, StringComparison.OrdinalIgnoreCase)`. */
  predicate StartsWithIgnoreCase(s: string, p: string) {
    StartsWith(Upper(s), Upper(p))
  }

  /** `s.Replace(pattern, replacement)`: every occurrence, scanning left to right without overlap. */
  function ReplaceAll(s: string, pattern: string, replacement: string): string
    requires pattern != []
    decreases |s|
  {
    if s == [] then []
    else if StartsWith(s, pattern) then replacement + ReplaceAll(s[|pattern|..], pattern, replacement)
    else [s[0]] + ReplaceAll(s[1..], pattern, replacement)
  }

  /** `Replace` leaves a text without an occurrence of the pattern unchanged. */
  lemma {:induction false} ReplaceAbsent(s: string, p: string, r: string)
    requires p != [] && !Contains(s, p)
    ensures ReplaceAll(s, p, r) == s
    decreases |s|
  {
    if s != [] {
      assert !OccursAt(s, p, 0);
      forall i | OccursAt(s[1..], p, i) ensures false {
        assert s[1..][i..i + |p|] == s[i + 1..i + 1 + |p|];
        assert OccursAt(s, p, i + 1);
      }
      ReplaceAbsent(s[1..], p, r);
      assert s == [s[0]] + s[1..];
    }
  }

  /** The value of a string of ASCII digits. */
  function DigitsValue(s: string): (v: nat)
    requires AllAsciiDigits(s)
  {
    if s == [] then 0
    else DigitsValue(s[..|s| - 1]) * 10 + (s[|s| - 1] as int - '0' as int)
  }

  function TrimEndNul(s: string): (r: string)
    ensures |r| <= |s| && r == s[..|r|]
    ensures r == [] || r[|r| - 1] != '\0'
  {
    if s != [] && s[|s| - 1] == '\0' then TrimEndNul(s[..|s| - 1]) else s
  }

  function TrimEndNumberWhite(s: string): (r: string)
    ensures |r| <= |s| && r == s[..|r|]
  {
    if s != [] && IsNumberWhite(s[|s| - 1]) then TrimEndNumberWhite(s[..|s| - 1]) else s
  }

  function TrimStartNumberWhite(s: string): (r: string)
    ensures |r| <= |s| && r == s[|s| - |r|..]
  {
    if s != [] && IsNumberWhite(s[0]) then TrimStartNumberWhite(s[1..]) else s
  }

  /** `TryParse` with `NumberStyles.Integer` and the invariant culture: optional white space, an
      optional sign, at least one ASCII digit, optional white space, then optional NUL characters;
      `None` when the text has another shape or its value lies outside `lo..hi`. */
  function TryParseInteger(s: string, lo: int, hi: int): (r: Option<int>)
    ensures r.Some? ==> lo <= r.value <= hi
  {
    var t := TrimStartNumberWhite(TrimEndNumberWhite(TrimEndNul(s)));
    if t == [] then None
    else
      var digits := if t[0] == '-' || t[0] == '+' then t[1..] else t;
      if digits == [] || !AllAsciiDigits(digits) then None
      else
        var m: int := DigitsValue(digits);
        var v := if t[0] == '-' then -m else m;
        if lo <= v <= hi then Some(v) else None
  }

  /** A text that parses holds at least one ASCII digit. */
  lemma ParsedTextHasAsciiDigit(s: string, lo: int, hi: int)
    requires forall i :: 0 <= i < |s| ==> !IsAsciiDigit(s[i])
    ensures TryParseInteger(s, lo, hi).None?
  {
    var t1 := TrimEndNul(s);
    var t2 := TrimEndNumberWhite(t1);
    var t := TrimStartNumberWhite(t2);
    if t != [] {
      var j := |t2| - |t|;
      var digits := if t[0] == '-' || t[0] == '+' then t[1..] else t;
      if digits != [] {
        var k := if t[0] == '-' || t[0] == '+' then j + 1 else j;
        assert digits[0] == t2[k] == t1[k] == s[k];
        assert !AllAsciiDigits(digits);
      }
    }
  }

  /** A text that begins with an ASCII letter never parses: the letter is neither white space,
      a sign nor a digit. */
  lemma LeadingLetterNeverParses(s: string, lo: int, hi: int)
    requires s != [] && ('a' <= s[0] <= 'z' || 'A' <= s[0] <= 'Z')
    ensures TryParseInteger(s, lo, hi).None?
  {
    var t1 := TrimEndNul(s);
    var t2 := TrimEndNumberWhite(t1);
    var t := TrimStartNumberWhite(t2);
    if t2 != [] {
      assert t2[0] == t1[0] == s[0];
      assert !IsNumberWhite(t2[0]);
      assert t == t2;
      assert t[0] != '-' && t[0] != '+' && !IsAsciiDigit(t[0]);
      assert !AllAsciiDigits(t);
    }
  }

  /** `int.TryParse`. */
  function TryParseInt32(s: string): Option<int> {
    TryParseInteger(s, Int32Min, Int32Max)
  }

  /** `long.TryParse`. */
  function TryParseInt64(s: string): Option<int> {
    TryParseInteger(s, Int64Min, Int64Max)
  }

  /** The digits of a natural number in base ten, without leading zeros. */
  function DecimalDigits(n: nat): (r: string)
    ensures r != [] && AllAsciiDigits(r)
    decreases n
  {
    var d := ['0' + (n % 10) as char];
    if n < 10 then d else DecimalDigits(n / 10) + d
  }

  /** `int.ToString()` in the invariant culture. */
  function DecimalString(n: int): string {
    if n < 0 then "-" + DecimalDigits(-n) else DecimalDigits(n)
  }

  lemma {:induction false} DecimalDigitsValue(n: nat)
    ensures DigitsValue(DecimalDigits(n)) == n
    decreases n
  {
    var s := DecimalDigits(n);
    if n >= 10 {
      DecimalDigitsValue(n / 10);
      assert s[..|s| - 1] == DecimalDigits(n / 10);
    }
  }

  /** Formatting a number and parsing it back gives the number again. */
  lemma DecimalStringParses(n: int, lo: int, hi: int)
    requires lo <= n <= hi
    ensures TryParseInteger(DecimalString(n), lo, hi) == Some(n)
  {
    var s := DecimalString(n);
    var m := if n < 0 then -n else n;
    DecimalDigitsValue(m);
    var ds := DecimalDigits(m);
    assert s[|s| - 1] == ds[|ds| - 1];
    assert TrimEndNul(s) == s;
    assert TrimEndNumberWhite(s) == s;
    assert TrimStartNumberWhite(s) == s;
    if n < 0 {
      assert s[1..] == ds;
    }
  }

  predicate AllWhiteSpace(s: string) {
    forall i :: 0 <= i < |s| ==> IsWhiteSpace(s[i])
  }

  /** `r` is the slice `s[a..b]`, and everything of `s` outside it is white space. */
  predicate TrimmedAt(s: string, r: string, a: int, b: int) {
    0 <= a <= b <= |s| && r == s[a..b] && AllWhiteSpace(s[..a]) && AllWhiteSpace(s[b..])
  }

  /** `string.Trim()`: removes white space at both ends. The result is the slice of the input
      left once the white space at both ends is gone, and it starts and ends with a character
      that is not white space. */
  function Trim(s: string): (r: string)
    ensures r != [] ==> !IsWhiteSpace(r[0]) && !IsWhiteSpace(r[|r| - 1])
    ensures exists a, b :: TrimmedAt(s, r, a, b)
    decreases |s|
  {
    if s == [] then
      assert TrimmedAt(s, [], 0, 0);
      []
    else if IsWhiteSpace(s[0]) then
      var t := Trim(s[1..]);
      TrimFront(s, s[1..], t);
      t
    else if IsWhiteSpace(s[|s| - 1]) then
      var t := Trim(s[..|s| - 1]);
      TrimBack(s, s[..|s| - 1], t);
      t
    else
      assert TrimmedAt(s, s, 0, |s|) by { assert s[..0] == [] && s[|s|..] == [] && s[0..|s|] == s; }
      s
  }

  /** White space put in front of a trimmed text is trimmed off too. */
  lemma TrimFront(s: string, u: string, t: string)
    requires s != [] && IsWhiteSpace(s[0]) && u == s[1..]
    requires exists a, b :: TrimmedAt(u, t, a, b)
    ensures exists a, b :: TrimmedAt(s, t, a, b)
  {
    var a, b :| TrimmedAt(u, t, a, b);
    var c := s[0];
    assert s == [c] + u;
    assert s[..a + 1] == [c] + u[..a];
    assert s[b + 1..] == u[b..];
    assert s[a + 1..b + 1] == u[a..b];
    assert TrimmedAt(s, t, a + 1, b + 1);
  }

  /** White space put after a trimmed text is trimmed off too. */
  lemma TrimBack(s: string, u: string, t: string)
    requires s != [] && IsWhiteSpace(s[|s| - 1]) && u == s[..|s| - 1]
    requires exists a, b :: TrimmedAt(u, t, a, b)
    ensures exists a, b :: TrimmedAt(s, t, a, b)
  {
    var a, b :| TrimmedAt(u, t, a, b);
    var c := s[|s| - 1];
    assert s == u + [c];
    assert s[..a] == u[..a];
    assert s[b..] == u[b..] + [c];
    assert s[a..b] == u[a..b];
    assert TrimmedAt(s, t, a, b);
  }

  predicate IsNullOrEmpty(s: Option<string>) {
    s.None? || s.value == []
  }

  /** `string.IsNullOrWhiteSpace`. */
  predicate IsNullOrWhiteSpace(s: Option<string>) {
    s.None? || forall i :: 0 <= i < |s.value| ==> IsWhiteSpace(s.value[i])
  }

  /** `s.Split(sep, StringSplitOptions.RemoveEmptyEntries)`: the maximal runs of `s` without
      the separator, in order, leaving out the empty ones (see `TokensAreRuns`). */
  function Tokens(s: string, sep: char): (r: seq<string>)
    ensures forall i :: 0 <= i < |r| ==> r[i] != [] && sep !in r[i]
    decreases |s|
  {
    if s == [] then []
    else
      var k := IndexOf(s, sep);
      if k < 0 then [s]
      else if k == 0 then Tokens(s[1..], sep)
      else [s[..k]] + Tokens(s[k + 1..], sep)
  }

  /** `s.Split(sep)` without options: every run between two separators, empty ones included.
      Joined back with the separator they give `s` (`SplitAllJoins`). */
  function SplitAll(s: string, sep: char): (r: seq<string>)
    ensures |r| >= 1 && forall i :: 0 <= i < |r| ==> sep !in r[i]
    decreases |s|
  {
    if s == [] then [[]]
    else
      var rest := SplitAll(s[1..], sep);
      if s[0] == sep then [[]] + rest else [[s[0]] + rest[0]] + rest[1..]
  }

  /** `string.Join(sep, xs)`. */
  function JoinWith(xs: seq<string>, sep: char): string
    requires |xs| >= 1
    decreases |xs|
  {
    if |xs| == 1 then xs[0] else xs[0] + [sep] + JoinWith(xs[1..], sep)
  }

  /** The non-empty strings of `xs`, in order. */
  function NonEmpty(xs: seq<string>): seq<string> {
    if xs == [] then [] else (if xs[0] == [] then [] else [xs[0]]) + NonEmpty(xs[1..])
  }

  /** The runs `SplitAll` cuts are exactly the text between the separators. */
  lemma {:induction false} SplitAllJoins(s: string, sep: char)
    ensures JoinWith(SplitAll(s, sep), sep) == s
    decreases |s|
  {
    if s != [] {
      var rest := SplitAll(s[1..], sep);
      SplitAllJoins(s[1..], sep);
      if s[0] == sep {
        assert SplitAll(s, sep)[1..] == rest;
      } else if |rest| == 1 {
        assert SplitAll(s, sep) == [[s[0]] + rest[0]];
      } else {
        var r := SplitAll(s, sep);
        assert r[1..] == rest[1..];
        assert JoinWith(rest, sep) == rest[0] + [sep] + JoinWith(rest[1..], sep);
      }
    }
  }

  /** A run without the separator, then the separator: the run is the first piece. */
  lemma {:induction false} SplitAllRun(w: string, sep: char, v: string)
    requires sep !in w
    ensures SplitAll(w + [sep] + v, sep) == [w] + SplitAll(v, sep)
    decreases |w|
  {
    var s := w + [sep] + v;
    if w == [] {
      assert s[1..] == v;
    } else {
      assert s[1..] == w[1..] + [sep] + v;
      SplitAllRun(w[1..], sep, v);
      assert ([w[1..]] + SplitAll(v, sep))[1..] == SplitAll(v, sep);
      assert [w[0]] + w[1..] == w;
    }
  }

  /** A text without the separator is one piece. */
  lemma {:induction false} SplitAllWhole(s: string, sep: char)
    requires sep !in s
    ensures SplitAll(s, sep) == [s]
    decreases |s|
  {
    if s != [] {
      SplitAllWhole(s[1..], sep);
      assert [s[0]] + s[1..] == s;
    }
  }

  /** `Split` with `RemoveEmptyEntries` is `Split` without it, less the empty pieces. */
  lemma {:induction false} TokensAreRuns(s: string, sep: char)
    ensures Tokens(s, sep) == NonEmpty(SplitAll(s, sep))
    ensures JoinWith(SplitAll(s, sep), sep) == s
    decreases |s|
  {
    SplitAllJoins(s, sep);
    if s != [] {
      var k := IndexOf(s, sep);
      if k < 0 {
        SplitAllWhole(s, sep);
        assert NonEmpty([s]) == [s] + NonEmpty([]);
      } else {
        assert s == s[..k] + [sep] + s[k + 1..];
        SplitAllRun(s[..k], sep, s[k + 1..]);
        TokensAreRuns(s[k + 1..], sep);
        var pieces := [s[..k]] + SplitAll(s[k + 1..], sep);
        assert pieces[1..] == SplitAll(s[k + 1..], sep);
        if k == 0 {
          assert s[1..] == s[k + 1..];
        }
      }
    }
  }

  /** `Path.Combine(a, b)` on Unix paths: a rooted `b` replaces `a`, an empty side gives the
      other, and otherwise `a` and `b` are joined by exactly one '/' (the one `a` ends with, or
      an added one). */
  function Combine(a: string, b: string): (r: string)
    ensures b == [] ==> r == a
    ensures a == [] || (b != [] && b[0] == '/') ==> r == b
    ensures b != [] && b[0] != '/' && a != [] ==>
      exists d :: r == d + "/" + b && (d == a || d + "/" == a)
    ensures r == [] <==> a == [] && b == []
  {
    if b == [] then a
    else if a == [] then b
    else if b[0] == '/' then b
    else if a[|a| - 1] == '/' then
      assert a == a[..|a| - 1] + "/";
      a + b
    else a + "/" + b
  }

  /** `Path.GetFileName`: the text after the last '/', or the whole path when it has none. */
  function GetFileName(p: string): (r: string)
    ensures '/' !in r && EndsWith(p, r)
  {
    var k := LastIndexOf(p, '/');
    p[k + 1..]
  }

  /** The file name is the longest suffix without '/': the whole path, or what follows a '/'. */
  lemma FileNameIsLastSegment(p: string)
    ensures var r := GetFileName(p);
      r == p || (|r| < |p| && p[|p| - |r| - 1] == '/')
  {
    var k := LastIndexOf(p, '/');
    if k >= 0 {
      assert |p[k + 1..]| == |p| - k - 1;
    }
  }

  /** The file name of a relative name without '/' combined with a directory is that name. */
  lemma FileNameOfCombine(dir: string, name: string)
    requires name != [] && '/' !in name
    ensures GetFileName(Combine(dir, name)) == name
  {
    var r := Combine(dir, name);
    if dir != [] {
      var d :| r == d + "/" + name && (d == dir || d + "/" == dir);
      assert r[|r| - |name| - 1] == '/';
      assert r[|r| - |name|..] == name;
      FileNameIsLastSegment(r);
    }
  }
}
