/** Package version ordering: an optional numeric epoch before ':', a version made of
    segments, and a package release after the last '-'. Segments are split at '.', '-', '_'
    and '+' and wherever digits and non-digits meet; numeric segments compare by value,
    pre-release tags rank below a release, other text compares case-insensitively. */
module VersionComparer {
  import opened Wrappers
  import opened Text

  // ---------------------------------------------------------------------------------------
  // Splitting a version into segments

  predicate IsSeparator(c: char) {
    c == '.' || c == '-' || c == '_' || c == '+'
  }

  /** The state of the left-to-right segment scanner: finished segments, the segment being
      built, and whether its characters are digits (absent after a separator). */
  datatype Splitter = Splitter(parts: seq<string>, current: string, wasDigit: Option<bool>)

  /** One character of the scanner. */
  function Step(st: Splitter, c: char): Splitter {
    if IsSeparator(c) then
      Splitter(if st.current != [] then st.parts + [st.current] else st.parts, [], None)
    else if st.wasDigit.Some? && st.wasDigit.value != IsDigit(c) && st.current != [] then
      Splitter(st.parts + [st.current], [c], Some(IsDigit(c)))
    else
      Splitter(st.parts, st.current + [c], Some(IsDigit(c)))
  }

  /** The scanner state after reading all of `s`. */
  function Scan(s: string): Splitter {
    if s == [] then Splitter([], [], None) else Step(Scan(s[..|s| - 1]), s[|s| - 1])
  }

  function Finish(st: Splitter): seq<string> {
    if st.current != [] then st.parts + [st.current] else st.parts
  }

  /** The segments of a version, as the scanner produces them. */
  function Segments(v: string): seq<string> {
    Finish(Scan(v))
  }

  /** A segment: non-empty, free of separators, all digits or no digits at all. */
  predicate IsSegment(p: string) {
    p != []
    && (forall i :: 0 <= i < |p| ==> !IsSeparator(p[i]))
    && (forall i :: 0 <= i < |p| ==> IsDigit(p[i]) == IsDigit(p[0]))
  }

  function Concat(ps: seq<string>): string {
    if ps == [] then [] else Concat(ps[..|ps| - 1]) + ps[|ps| - 1]
  }

  /** `s` without its separators. */
  function Strip(s: string): string {
    if s == [] then []
    else Strip(s[..|s| - 1]) + (if IsSeparator(s[|s| - 1]) then [] else [s[|s| - 1]])
  }

  lemma ConcatAppend(ps: seq<string>, p: string)
    ensures Concat(ps + [p]) == Concat(ps) + p
  {
    assert (ps + [p])[..|ps|] == ps;
  }

  predicate ScanInvariant(st: Splitter) {
    (forall k :: 0 <= k < |st.parts| ==> IsSegment(st.parts[k]))
    && (st.wasDigit.None? <==> st.current == [])
    && (st.current != [] ==> IsSegment(st.current) && st.wasDigit.value == IsDigit(st.current[0]))
  }

  lemma StepKeepsInvariant(st: Splitter, c: char)
    requires ScanInvariant(st)
    ensures ScanInvariant(Step(st, c))
    ensures Concat(Step(st, c).parts) + Step(st, c).current
      == Concat(st.parts) + st.current + (if IsSeparator(c) then [] else [c])
  {
    var st' := Step(st, c);
    if IsSeparator(c) {
      if st.current != [] {
        ConcatAppend(st.parts, st.current);
      }
    } else if st.wasDigit.Some? && st.wasDigit.value != IsDigit(c) && st.current != [] {
      ConcatAppend(st.parts, st.current);
      assert st'.current == [c];
    } else {
      var cur := st.current + [c];
      assert st'.current == cur && st'.parts == st.parts;
      assert cur[0] == if st.current != [] then st.current[0] else c;
      forall i | 0 <= i < |cur| ensures !IsSeparator(cur[i]) && IsDigit(cur[i]) == IsDigit(cur[0]) {
        if i < |st.current| {
          assert cur[i] == st.current[i];
        }
      }
    }
  }

  lemma {:induction false} ScanKeepsInvariant(s: string)
    ensures ScanInvariant(Scan(s))
    ensures Concat(Scan(s).parts) + Scan(s).current == Strip(s)
  {
    if s != [] {
      var s' := s[..|s| - 1];
      ScanKeepsInvariant(s');
      StepKeepsInvariant(Scan(s'), s[|s| - 1]);
    }
  }

  /** Every segment is a non-empty, homogeneous run without separators, and the segments
      spell out the version with its separators removed. */
  lemma SegmentsShape(v: string)
    ensures forall k :: 0 <= k < |Segments(v)| ==> IsSegment(Segments(v)[k])
    ensures Concat(Segments(v)) == Strip(v)
  {
    ScanKeepsInvariant(v);
    var st := Scan(v);
    var segs := Segments(v);
    if st.current != [] {
      ConcatAppend(st.parts, st.current);
      assert segs == st.parts + [st.current];
      forall k | 0 <= k < |segs| ensures IsSegment(segs[k]) {
        if k < |st.parts| {
          assert segs[k] == st.parts[k];
        }
      }
    } else {
      assert segs == st.parts && Concat(st.parts) + st.current == Concat(st.parts);
    }
  }

  /** Splits a version into its segments, one character at a time. */
  method SplitVersion(version: string) returns (parts: seq<string>)
    ensures parts == Segments(version)
  {
    parts := [];
    var current: string := [];
    var wasDigit: Option<bool> := None;
    var i := 0;
    while i < |version|
      invariant 0 <= i <= |version|
      invariant Splitter(parts, current, wasDigit) == Scan(version[..i])
    {
      var c := version[i];
      assert version[..i + 1][..i] == version[..i];
      if IsSeparator(c) {
        if current != [] {
          parts := parts + [current];
          current := [];
        }
        wasDigit := None;
      } else {
        var isDigit := IsDigit(c);
        if wasDigit.Some? && wasDigit.value != isDigit && current != [] {
          parts := parts + [current];
          current := [];
        }
        current := current + [c];
        wasDigit := Some(isDigit);
      }
      i := i + 1;
    }
    assert version[..i] == version;
    if current != [] {
      parts := parts + [current];
    }
  }

  // ---------------------------------------------------------------------------------------
  // Pre-release tags

  /** The alternatives of the tag pattern, in the order the pattern lists them. */
  const Tags: seq<string> := ["alpha", "beta", "rc", "pre", "dev", "snapshot", "git", "svn", "cvs", "hg"]

  function TagRank(tag: string): int {
    if tag == "dev" then 0
    else if tag == "snapshot" then 1
    else if tag == "git" || tag == "svn" || tag == "cvs" || tag == "hg" then 2
    else if tag == "alpha" then 3
    else if tag == "beta" then 4
    else if tag == "pre" then 5
    else if tag == "rc" then 6
    else -1
  }

  predicate AllDigits(s: string) {
    forall i :: 0 <= i < |s| ==> IsDigit(s[i])
  }

  /** `s` matches `^tag(\d*)$`, where `$` also matches just before a final line feed. */
  predicate MatchesTag(s: string, tag: string) {
    StartsWith(s, tag)
    && (AllDigits(s[|tag|..]) || (|s| > |tag| && s[|s| - 1] == '\n' && AllDigits(s[|tag|..|s| - 1])))
  }

  /** The first alternative, from index `k` on, with which the pattern matches `s`. */
  function FindTag(s: string, k: nat): (r: int)
    requires k <= |Tags|
    ensures r == -1 || k <= r < |Tags|
    decreases |Tags| - k
  {
    if k == |Tags| then -1
    else if MatchesTag(s, Tags[k]) then k
    else FindTag(s, k + 1)
  }

  /** The search finds the first alternative that matches, and fails only when none does. */
  lemma {:induction false} FindTagIsFirstMatch(s: string, k: nat)
    requires k <= |Tags|
    ensures FindTag(s, k) >= 0 ==>
      MatchesTag(s, Tags[FindTag(s, k)]) && forall j :: k <= j < FindTag(s, k) ==> !MatchesTag(s, Tags[j])
    ensures FindTag(s, k) == -1 ==> forall j :: k <= j < |Tags| ==> !MatchesTag(s, Tags[j])
    decreases |Tags| - k
  {
    if k < |Tags| && !MatchesTag(s, Tags[k]) {
      FindTagIsFirstMatch(s, k + 1);
    }
  }

  /** The rank of a pre-release tag (dev < snapshot < git, svn, cvs, hg < alpha < beta < pre < rc),
      or -1 when the lower-cased part is not a tag followed by digits. */
  function GetPreReleaseOrder(part: string): (r: int)
    ensures -1 <= r <= 6
  {
    var j := FindTag(Lower(part), 0);
    if j < 0 then -1
    else
      assert 0 <= TagRank(Tags[j]) by {
        if j == 0 {} else if j == 1 {} else if j == 2 {} else if j == 3 {} else if j == 4 {}
        else if j == 5 {} else if j == 6 {} else if j == 7 {} else if j == 8 {} else {}
      }
      TagRank(Tags[j])
  }

  /** The rank is that of the first alternative of `^(alpha|beta|rc|pre|dev|snapshot|git|svn|cvs|hg)(\d*)$`
      that matches the lower-cased part, and -1 exactly when none matches. */
  lemma PreReleaseOrderIsPatternMatch(part: string)
    ensures GetPreReleaseOrder(part) >= 0 <==> exists j :: 0 <= j < |Tags| && MatchesTag(Lower(part), Tags[j])
    ensures GetPreReleaseOrder(part) >= 0 ==> exists j :: (0 <= j < |Tags| && MatchesTag(Lower(part), Tags[j])
      && GetPreReleaseOrder(part) == TagRank(Tags[j]) && forall i :: 0 <= i < j ==> !MatchesTag(Lower(part), Tags[i]))
  {
    var j := FindTag(Lower(part), 0);
    FindTagIsFirstMatch(Lower(part), 0);
    if j >= 0 {
      assert 0 <= TagRank(Tags[j]) by {
        if j == 0 {} else if j == 1 {} else if j == 2 {} else if j == 3 {} else if j == 4 {}
        else if j == 5 {} else if j == 6 {} else if j == 7 {} else if j == 8 {} else {}
      }
    }
  }

  /** A tag begins with a letter, so a part that is a tag begins with an ASCII letter. */
  lemma TagStartsWithLetter(part: string)
    requires GetPreReleaseOrder(part) >= 0
    ensures part != [] && ('a' <= part[0] <= 'z' || 'A' <= part[0] <= 'Z')
  {
    var j := FindTag(Lower(part), 0);
    assert 'a' <= Tags[j][0] <= 'z' by {
      if j == 0 {} else if j == 1 {} else if j == 2 {} else if j == 3 {} else if j == 4 {}
      else if j == 5 {} else if j == 6 {} else if j == 7 {} else if j == 8 {} else {}
    }
    assert Lower(part)[0] == Tags[j][0];
  }

  /** A part that parses as a number is never a tag. */
  lemma NumberIsNotTag(part: string)
    requires GetPreReleaseOrder(part) >= 0
    ensures TryParseInt64(part).None?
  {
    TagStartsWithLetter(part);
    LeadingLetterNeverParses(part, Int64Min, Int64Max);
  }

  // ---------------------------------------------------------------------------------------
  // Comparing segments

  /** Compares two segments, either of which may be the empty padding of a shorter version. */
  function ComparePart(p1: string, p2: string): (r: int)
    ensures r == -1 || r == 0 || r == 1
  {
    if p1 == [] && p2 == [] then 0
    else if p1 == [] then (if GetPreReleaseOrder(p2) >= 0 then 1 else -1)
    else if p2 == [] then (if GetPreReleaseOrder(p1) >= 0 then -1 else 1)
    else
      var n1 := TryParseInt64(p1);
      var n2 := TryParseInt64(p2);
      if n1.Some? && n2.Some? then Sign(n1.value - n2.value)
      else if n1.Some? != n2.Some? then
        var pre1 := GetPreReleaseOrder(p1);
        var pre2 := GetPreReleaseOrder(p2);
        if pre1 >= 0 || pre2 >= 0 then
          if pre1 >= 0 && pre2 >= 0 then Sign(pre1 - pre2)
          else if pre1 >= 0 then -1 else 1
        else if n1.Some? then 1 else -1
      else
        var pre1 := GetPreReleaseOrder(p1);
        var pre2 := GetPreReleaseOrder(p2);
        if pre1 >= 0 && pre2 >= 0 then Sign(pre1 - pre2)
        else if pre1 >= 0 then -1
        else if pre2 >= 0 then 1
        else CompareIgnoreCase(p1, p2)
  }

  /** What a segment is ranked by: tags lowest (by tag rank), then the empty padding, then other
      text (case-insensitively), then numbers (by value). */
  datatype PartKey = TagKey(rank: int) | EmptyKey | TextKey(upper: string) | NumKey(value: int)

  function KeyClass(k: PartKey): int {
    match k
    case TagKey(_) => 0
    case EmptyKey => 1
    case TextKey(_) => 2
    case NumKey(_) => 3
  }

  function Key(p: string): PartKey {
    if p == [] then EmptyKey
    else if TryParseInt64(p).Some? then NumKey(TryParseInt64(p).value)
    else if GetPreReleaseOrder(p) >= 0 then TagKey(GetPreReleaseOrder(p))
    else TextKey(Upper(p))
  }

  /** The reference order on keys: by class first, then within the class. */
  function CompareKey(a: PartKey, b: PartKey): int {
    if KeyClass(a) != KeyClass(b) then Sign(KeyClass(a) - KeyClass(b))
    else match a
      case TagKey(x) => Sign(x - b.rank)
      case EmptyKey => 0
      case TextKey(u) => CompareOrdinal(u, b.upper)
      case NumKey(n) => Sign(n - b.value)
  }

  /** The segment comparison is the key order: segments are ranked tag < padding < text < number. */
  lemma ComparePartByKey(p1: string, p2: string)
    ensures ComparePart(p1, p2) == CompareKey(Key(p1), Key(p2))
  {
    var n1, n2 := TryParseInt64(p1), TryParseInt64(p2);
    var pre1, pre2 := GetPreReleaseOrder(p1), GetPreReleaseOrder(p2);
    if pre1 >= 0 {
      NumberIsNotTag(p1);
    }
    if pre2 >= 0 {
      NumberIsNotTag(p2);
    }
    var k1, k2 := Key(p1), Key(p2);
    if p1 != [] && p2 != [] {
      if n1.Some? && n2.Some? {
        assert k1 == NumKey(n1.value) && k2 == NumKey(n2.value);
      } else if n1.Some? {
        assert k1 == NumKey(n1.value) && KeyClass(k2) < 3;
      } else if n2.Some? {
        assert k2 == NumKey(n2.value) && KeyClass(k1) < 3;
      } else if pre1 >= 0 && pre2 >= 0 {
        assert k1 == TagKey(pre1) && k2 == TagKey(pre2);
      } else if pre1 >= 0 {
        assert k1 == TagKey(pre1) && KeyClass(k2) == 2;
      } else if pre2 >= 0 {
        assert k2 == TagKey(pre2) && KeyClass(k1) == 2;
      } else {
        assert k1 == TextKey(Upper(p1)) && k2 == TextKey(Upper(p2));
      }
    }
  }

  lemma CompareKeyAntisymmetric(a: PartKey, b: PartKey)
    ensures CompareKey(a, b) == -CompareKey(b, a)
  {
    if KeyClass(a) == KeyClass(b) && a.TextKey? {
      CompareOrdinalAntisymmetric(a.upper, b.upper);
    }
  }

  lemma CompareKeyTransitive(a: PartKey, b: PartKey, c: PartKey)
    requires CompareKey(a, b) <= 0 && CompareKey(b, c) <= 0
    ensures CompareKey(a, c) <= 0
  {
    if KeyClass(a) == KeyClass(b) == KeyClass(c) && a.TextKey? {
      CompareOrdinalTransitive(a.upper, b.upper, c.upper);
    }
  }

  lemma ComparePartAntisymmetric(p1: string, p2: string)
    ensures ComparePart(p1, p2) == -ComparePart(p2, p1)
  {
    ComparePartByKey(p1, p2);
    ComparePartByKey(p2, p1);
    CompareKeyAntisymmetric(Key(p1), Key(p2));
  }

  lemma ComparePartTransitive(p1: string, p2: string, p3: string)
    requires ComparePart(p1, p2) <= 0 && ComparePart(p2, p3) <= 0
    ensures ComparePart(p1, p3) <= 0
  {
    ComparePartByKey(p1, p2);
    ComparePartByKey(p2, p3);
    ComparePartByKey(p1, p3);
    CompareKeyTransitive(Key(p1), Key(p2), Key(p3));
  }

  lemma ComparePartReflexive(p: string)
    ensures ComparePart(p, p) == 0
  {
    ComparePartAntisymmetric(p, p);
  }

  /** A segment without digits never parses as a number. */
  lemma NonDigitSegmentIsText(p: string)
    requires forall i :: 0 <= i < |p| ==> !IsDigit(p[i])
    ensures TryParseInt64(p).None?
  {
    ParsedTextHasAsciiDigit(p, Int64Min, Int64Max);
    forall i | 0 <= i < |p| ensures !IsAsciiDigit(p[i]) {
      AsciiDigitIsDigit(p[i]);
    }
  }

  /** A digit run too long for a 64-bit integer is compared as text, so it ranks below every
      number, however small. */
  lemma OverlongNumberRanksBelowNumbers(p1: string, p2: string)
    requires p1 != [] && TryParseInt64(p1).None? && GetPreReleaseOrder(p1) < 0
    requires TryParseInt64(p2).Some?
    ensures ComparePart(p1, p2) == -1
  {
    ComparePartByKey(p1, p2);
  }

  // ---------------------------------------------------------------------------------------
  // Comparing segment lists

  /** `cmp` is antisymmetric and "not above" is transitive: a total preorder. */
  ghost predicate IsPreorder(cmp: (string, string) -> int) {
    (forall x, y :: cmp(x, y) == -cmp(y, x))
    && (forall x, y, z :: cmp(x, y) <= 0 && cmp(y, z) <= 0 ==> cmp(x, z) <= 0)
  }

  /** The segment comparison is a total preorder. */
  lemma ComparePartIsPreorder()
    ensures IsPreorder(ComparePart)
  {
    forall x, y ensures ComparePart(x, y) == -ComparePart(y, x) {
      ComparePartAntisymmetric(x, y);
    }
    forall x, y, z | ComparePart(x, y) <= 0 && ComparePart(y, z) <= 0 ensures ComparePart(x, z) <= 0 {
      ComparePartTransitive(x, y, z);
    }
  }

  /** The segment at `i`, or the empty padding past the end. */
  function PartAt(ps: seq<string>, i: nat): string {
    if i < |ps| then ps[i] else []
  }

  /** Compares two segment lists with `cmp` from index `i` on, padding the shorter list with
      empty segments: the first difference decides. */
  function ComparePartsFrom(cmp: (string, string) -> int, a: seq<string>, b: seq<string>, i: nat): int
    decreases |a| + |b| - i
  {
    if i >= |a| && i >= |b| then 0
    else
      var c := cmp(PartAt(a, i), PartAt(b, i));
      if c != 0 then c else ComparePartsFrom(cmp, a, b, i + 1)
  }

  /** The list comparison takes its values from `cmp`, so it ranges over -1, 0 and 1 with it. */
  lemma {:induction false} ComparePartsFromRange(cmp: (string, string) -> int, a: seq<string>, b: seq<string>, i: nat)
    requires forall x, y :: -1 <= cmp(x, y) <= 1
    ensures -1 <= ComparePartsFrom(cmp, a, b, i) <= 1
    decreases |a| + |b| - i
  {
    if !(i >= |a| && i >= |b|) {
      ComparePartsFromRange(cmp, a, b, i + 1);
    }
  }

  lemma ComparePartsFromUnfold(cmp: (string, string) -> int, a: seq<string>, b: seq<string>, i: nat)
    requires IsPreorder(cmp)
    ensures ComparePartsFrom(cmp, a, b, i) ==
      (var c := cmp(PartAt(a, i), PartAt(b, i));
       if c != 0 then c else ComparePartsFrom(cmp, a, b, i + 1))
  {
    assert cmp([], []) == -cmp([], []);
  }

  lemma {:induction false} ComparePartsFromAntisymmetric(cmp: (string, string) -> int, a: seq<string>, b: seq<string>, i: nat)
    requires IsPreorder(cmp)
    ensures ComparePartsFrom(cmp, a, b, i) == -ComparePartsFrom(cmp, b, a, i)
    decreases |a| + |b| - i
  {
    if !(i >= |a| && i >= |b|) {
      ComparePartsFromAntisymmetric(cmp, a, b, i + 1);
    }
  }

  lemma {:induction false} ComparePartsFromTransitive(cmp: (string, string) -> int, a: seq<string>, b: seq<string>, c: seq<string>, i: nat)
    requires IsPreorder(cmp)
    requires ComparePartsFrom(cmp, a, b, i) <= 0 && ComparePartsFrom(cmp, b, c, i) <= 0
    ensures ComparePartsFrom(cmp, a, c, i) <= 0
    decreases |a| + |b| + |c| - i
  {
    if !(i >= |a| && i >= |c|) {
      var pa, pb, pc := PartAt(a, i), PartAt(b, i), PartAt(c, i);
      ComparePartsFromUnfold(cmp, a, b, i);
      ComparePartsFromUnfold(cmp, b, c, i);
      if cmp(pa, pc) == 0 {
        // a tie between the ends forces a tie at both steps
        assert cmp(pc, pa) <= 0;
        assert cmp(pb, pa) <= 0 && cmp(pc, pb) <= 0;
        ComparePartsFromTransitive(cmp, a, b, c, i + 1);
      }
    }
  }

  lemma {:induction false} ComparePartsFromReflexive(cmp: (string, string) -> int, a: seq<string>, i: nat)
    requires IsPreorder(cmp)
    ensures ComparePartsFrom(cmp, a, a, i) == 0
    decreases |a| - i
  {
    if i < |a| {
      assert cmp(a[i], a[i]) == -cmp(a[i], a[i]);
      ComparePartsFromReflexive(cmp, a, i + 1);
    }
  }

  /** One step of the segment-list comparison: a difference at `i` decides, a tie moves on. */
  lemma ComparePartsStep(a: seq<string>, b: seq<string>, i: nat)
    requires i < |a| || i < |b|
    ensures var c := ComparePart(PartAt(a, i), PartAt(b, i));
      ComparePartsFrom(ComparePart, a, b, i) == if c != 0 then c else ComparePartsFrom(ComparePart, a, b, i + 1)
  {
  }

  /** The order of two version strings (without epoch or release), segment by segment. */
  function VersionPartsOrder(v1: string, v2: string): int {
    ComparePartsFrom(ComparePart, Segments(v1), Segments(v2), 0)
  }

  /** Compares two versions segment by segment, padding the shorter one with empty segments. */
  method CompareVersionParts(v1: string, v2: string) returns (r: int)
    ensures r == VersionPartsOrder(v1, v2)
  {
    var parts1 := SplitVersion(v1);
    var parts2 := SplitVersion(v2);
    var maxLen := if |parts1| > |parts2| then |parts1| else |parts2|;
    var i := 0;
    while i < maxLen
      invariant 0 <= i <= maxLen
      invariant ComparePartsFrom(ComparePart, parts1, parts2, 0) == ComparePartsFrom(ComparePart, parts1, parts2, i)
    {
      var cmp := ComparePart(PartAt(parts1, i), PartAt(parts2, i));
      ComparePartsStep(parts1, parts2, i);
      if cmp != 0 {
        return cmp;
      }
      i := i + 1;
    }
    return 0;
  }

  // ---------------------------------------------------------------------------------------
  // Epoch and package release

  /** Splits off a leading `epoch:` when the text before the first ':' is a 32-bit integer;
      otherwise the epoch is 0 and the version is kept whole. */
  function ParseEpoch(version: string): (r: (int, string))
    ensures |r.1| <= |version| && EndsWith(version, r.1)
  {
    var colon := IndexOf(version, ':');
    if colon > 0 && TryParseInt32(version[..colon]).Some? then
      (TryParseInt32(version[..colon]).value, version[colon + 1..])
    else (0, version)
  }

  /** Splits off the package release after the last '-' (when that '-' is not the first
      character); otherwise the release is "0". */
  function ParsePkgrel(version: string): (r: (string, string))
    ensures '-' !in r.1 || r.1 == "0"
  {
    var hyphen := LastIndexOf(version, '-');
    if hyphen > 0 then (version[..hyphen], version[hyphen + 1..]) else (version, "0")
  }

  /** The order of two versions with equal epochs: the versions decide, then the releases. */
  function ReleaseOrder(rest1: string, rest2: string): int {
    var (u1, k1) := ParsePkgrel(rest1);
    var (u2, k2) := ParsePkgrel(rest2);
    var c := VersionPartsOrder(u1, u2);
    if c != 0 then c else VersionPartsOrder(k1, k2)
  }

  /** The order of two nullable version strings. Null and empty versions are equal to each other
      and below every other version; then epochs decide, then the versions, then the releases. */
  function Order(v1: Option<string>, v2: Option<string>): (r: int)
    ensures IsNullOrEmpty(v1) ==> (r == 0 <==> IsNullOrEmpty(v2))
    ensures IsNullOrEmpty(v1) && !IsNullOrEmpty(v2) ==> r == -1
  {
    if IsNullOrEmpty(v1) && IsNullOrEmpty(v2) then 0
    else if IsNullOrEmpty(v1) then -1
    else if IsNullOrEmpty(v2) then 1
    else
      var (e1, rest1) := ParseEpoch(v1.value);
      var (e2, rest2) := ParseEpoch(v2.value);
      if e1 != e2 then Sign(e1 - e2) else ReleaseOrder(rest1, rest2)
  }

  method Compare(version1: Option<string>, version2: Option<string>) returns (r: int)
    ensures r == Order(version1, version2)
  {
    if IsNullOrEmpty(version1) && IsNullOrEmpty(version2) {
      return 0;
    }
    if IsNullOrEmpty(version1) {
      return -1;
    }
    if IsNullOrEmpty(version2) {
      return 1;
    }
    var (epoch1, rest1) := ParseEpoch(version1.value);
    var (epoch2, rest2) := ParseEpoch(version2.value);
    var epochCompare := Sign(epoch1 - epoch2);
    if epochCompare != 0 {
      return epochCompare;
    }
    var (ver1, pkgrel1) := ParsePkgrel(rest1);
    var (ver2, pkgrel2) := ParsePkgrel(rest2);
    var versionCompare := CompareVersionParts(ver1, ver2);
    if versionCompare != 0 {
      return versionCompare;
    }
    r := CompareVersionParts(pkgrel1, pkgrel2);
  }

  method IsNewer(version1: Option<string>, version2: Option<string>) returns (b: bool)
    ensures b <==> Order(version1, version2) > 0
  {
    var c := Compare(version1, version2);
    b := c > 0;
  }

  method IsOlder(version1: Option<string>, version2: Option<string>) returns (b: bool)
    ensures b <==> Order(version1, version2) < 0
  {
    var c := Compare(version1, version2);
    b := c < 0;
  }

  method AreEqual(version1: Option<string>, version2: Option<string>) returns (b: bool)
    ensures b <==> Order(version1, version2) == 0
  {
    var c := Compare(version1, version2);
    b := c == 0;
  }

  // ---------------------------------------------------------------------------------------
  // Properties of the version order

  /** The order only ever reports -1, 0 or 1. */
  lemma OrderRange(v1: Option<string>, v2: Option<string>)
    ensures Order(v1, v2) == -1 || Order(v1, v2) == 0 || Order(v1, v2) == 1
  {
    if !IsNullOrEmpty(v1) && !IsNullOrEmpty(v2) {
      var (e1, rest1) := ParseEpoch(v1.value);
      var (e2, rest2) := ParseEpoch(v2.value);
      var (u1, k1) := ParsePkgrel(rest1);
      var (u2, k2) := ParsePkgrel(rest2);
      ComparePartsFromRange(ComparePart, Segments(u1), Segments(u2), 0);
      ComparePartsFromRange(ComparePart, Segments(k1), Segments(k2), 0);
    }
  }

  lemma ReleaseOrderAntisymmetric(rest1: string, rest2: string)
    ensures ReleaseOrder(rest1, rest2) == -ReleaseOrder(rest2, rest1)
  {
    var (u1, k1) := ParsePkgrel(rest1);
    var (u2, k2) := ParsePkgrel(rest2);
    ComparePartIsPreorder();
    ComparePartsFromAntisymmetric(ComparePart, Segments(u1), Segments(u2), 0);
    ComparePartsFromAntisymmetric(ComparePart, Segments(k1), Segments(k2), 0);
  }

  lemma ReleaseOrderReflexive(rest: string)
    ensures ReleaseOrder(rest, rest) == 0
  {
    var (u, k) := ParsePkgrel(rest);
    ComparePartIsPreorder();
    ComparePartsFromReflexive(ComparePart, Segments(u), 0);
    ComparePartsFromReflexive(ComparePart, Segments(k), 0);
  }

  lemma ReleaseOrderTransitive(rest1: string, rest2: string, rest3: string)
    requires ReleaseOrder(rest1, rest2) <= 0 && ReleaseOrder(rest2, rest3) <= 0
    ensures ReleaseOrder(rest1, rest3) <= 0
  {
    var (u1, k1) := ParsePkgrel(rest1);
    var (u2, k2) := ParsePkgrel(rest2);
    var (u3, k3) := ParsePkgrel(rest3);
    var s1, s2, s3 := Segments(u1), Segments(u2), Segments(u3);
    var t1, t2, t3 := Segments(k1), Segments(k2), Segments(k3);
    ComparePartIsPreorder();
    var cmp := ComparePart;
    ComparePartsFromTransitive(cmp, s1, s2, s3, 0);
    if ComparePartsFrom(cmp, s1, s3, 0) == 0 {
      // a tie between the ends forces a tie at both steps
      ComparePartsFromAntisymmetric(cmp, s1, s3, 0);
      ComparePartsFromAntisymmetric(cmp, s1, s2, 0);
      ComparePartsFromAntisymmetric(cmp, s2, s3, 0);
      ComparePartsFromTransitive(cmp, s3, s1, s2, 0);
      ComparePartsFromTransitive(cmp, s2, s3, s1, 0);
      ComparePartsFromTransitive(cmp, t1, t2, t3, 0);
    }
  }

  /** Swapping the arguments negates the result: `IsNewer(a, b)` exactly when `IsOlder(b, a)`. */
  lemma OrderAntisymmetric(v1: Option<string>, v2: Option<string>)
    ensures Order(v1, v2) == -Order(v2, v1)
  {
    if !IsNullOrEmpty(v1) && !IsNullOrEmpty(v2) {
      ReleaseOrderAntisymmetric(ParseEpoch(v1.value).1, ParseEpoch(v2.value).1);
    }
  }

  /** Every version equals itself. */
  lemma OrderReflexive(v: Option<string>)
    ensures Order(v, v) == 0
  {
    if !IsNullOrEmpty(v) {
      ReleaseOrderReflexive(ParseEpoch(v.value).1);
    }
  }

  /** "Not newer than" is transitive, so the order is a total preorder. */
  lemma OrderTransitive(v1: Option<string>, v2: Option<string>, v3: Option<string>)
    requires Order(v1, v2) <= 0 && Order(v2, v3) <= 0
    ensures Order(v1, v3) <= 0
  {
    if !IsNullOrEmpty(v1) && !IsNullOrEmpty(v2) && !IsNullOrEmpty(v3) {
      var (e1, rest1) := ParseEpoch(v1.value);
      var (e2, rest2) := ParseEpoch(v2.value);
      var (e3, rest3) := ParseEpoch(v3.value);
      if e1 == e2 == e3 {
        ReleaseOrderTransitive(rest1, rest2, rest3);
      }
    }
  }

  /** The order of two non-empty versions, read off their epochs and the rest. */
  lemma OrderOfNonEmpty(v1: string, v2: string)
    requires v1 != [] && v2 != []
    ensures Order(Some(v1), Some(v2)) ==
      if ParseEpoch(v1).0 != ParseEpoch(v2).0 then Sign(ParseEpoch(v1).0 - ParseEpoch(v2).0)
      else ReleaseOrder(ParseEpoch(v1).1, ParseEpoch(v2).1)
  {
  }

  /** A larger epoch wins whatever follows it: `e1:r1` is newer than `e2:r2` when e1 > e2. */
  lemma EpochDominates(e1: int, r1: string, e2: int, r2: string)
    requires Int32Min <= e2 < e1 <= Int32Max
    ensures Order(Some(DecimalString(e1) + ":" + r1), Some(DecimalString(e2) + ":" + r2)) == 1
  {
    var a, b := DecimalString(e1) + ":" + r1, DecimalString(e2) + ":" + r2;
    EpochRoundTrip(e1, r1);
    EpochRoundTrip(e2, r2);
    OrderOfNonEmpty(a, b);
  }

  /** A version written with an explicit epoch parses back to that epoch and the rest. */
  lemma EpochRoundTrip(e: int, rest: string)
    requires Int32Min <= e <= Int32Max
    ensures ParseEpoch(DecimalString(e) + ":" + rest) == (e, rest)
  {
    var d := DecimalString(e);
    var v := d + ":" + rest;
    assert ':' !in d by {
      if e < 0 {
        assert d == "-" + DecimalDigits(-e);
      }
    }
    assert v[..|d|] == d;
    assert v[|d|] == ':';
    assert IndexOf(v, ':') == |d| by {
      assert ':' !in v[..|d|];
    }
    DecimalStringParses(e, Int32Min, Int32Max);
    assert v[|d| + 1..] == rest;
  }

  /** A version without ':' has epoch 0, the same as writing "0:" in front of it. */
  lemma ImplicitEpochIsZero(v: string)
    requires v != [] && ':' !in v
    ensures Order(Some(v), Some("0:" + v)) == 0
  {
    var w := "0:" + v;
    EpochRoundTrip(0, v);
    assert DecimalString(0) + ":" + v == w;
    assert IndexOf(v, ':') == -1;
    ReleaseOrderSameParts(v, v);
    OrderOfNonEmpty(v, w);
  }

  /** Two versions whose releases split alike are equal in the release order. */
  lemma ReleaseOrderSameParts(rest1: string, rest2: string)
    requires ParsePkgrel(rest1) == ParsePkgrel(rest2)
    ensures ReleaseOrder(rest1, rest2) == 0
  {
    var (u, k) := ParsePkgrel(rest1);
    ComparePartIsPreorder();
    ComparePartsFromReflexive(ComparePart, Segments(u), 0);
    ComparePartsFromReflexive(ComparePart, Segments(k), 0);
  }

  /** A version `u-k` (with `u` not empty and `k` free of '-') splits back into `u` and `k`. */
  lemma PkgrelRoundTrip(u: string, k: string)
    requires u != [] && '-' !in k
    ensures ParsePkgrel(u + "-" + k) == (u, k)
  {
    var v := u + "-" + k;
    assert v[|u|] == '-';
    assert v[|u| + 1..] == k;
    assert LastIndexOf(v, '-') == |u|;
    assert v[..|u|] == u;
  }

  /** A missing package release counts as release "0". */
  lemma MissingPkgrelIsZero(v: string)
    requires v != [] && ':' !in v && '-' !in v
    ensures Order(Some(v), Some(v + "-0")) == 0
  {
    var w := v + "-0";
    PkgrelRoundTrip(v, "0");
    assert v + "-" + "0" == w;
    assert ':' !in w by {
      assert forall i :: 0 <= i < |w| ==> w[i] == if i < |v| then v[i] else "-0"[i - |v|];
    }
    assert IndexOf(v, ':') == -1 && IndexOf(w, ':') == -1;
    assert LastIndexOf(v, '-') == -1;
    ReleaseOrderSameParts(v, w);
    OrderOfNonEmpty(v, w);
  }
}
