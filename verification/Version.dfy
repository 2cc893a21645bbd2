/** The chart version authority of the git-bump trigger. */
module ChartVersion {
  import opened Wrappers
  import opened Collections
  import opened Identifiers

  const MAX_INT64: int := 0x7fff_ffff_ffff_ffff
  const TWO_64: int := 0x1_0000_0000_0000_0000

  // x++ on Go's int.
  function Increment(x: int): int {
    if x == MAX_INT64 then x + 1 - TWO_64 else x + 1
  }

  // fmt's %d.
  function DecInt(x: int): string {
    if x < 0 then "-" + Dec(-x) else Dec(x)
  }

  datatype Version = Version(major: int, minor: int, patch: int, pre: string)

  // ------------------------------------------------------------------ parsing

  // strings.IndexByte
  function IndexOf(s: string, c: char): (i: int)
    ensures -1 <= i < |s|
    ensures i == -1 <==> c !in s
    ensures i >= 0 ==> s[i] == c && c !in s[..i]
  {
    if s == "" then -1
    else if s[0] == c then 0
    else
      var i := IndexOf(s[1..], c);
      assert s == [s[0]] + s[1..];
      if i < 0 then -1 else
        assert s[..i + 1] == [s[0]] + s[1..][..i];
        i + 1
  }

  // strings.Split on one byte
  function Split(s: string, c: char): seq<string>
    decreases |s|
  {
    var i := IndexOf(s, c);
    if i < 0 then [s] else [s[..i]] + Split(s[i + 1..], c)
  }

  // strconv.Atoi: an optional sign, then digits, within int64.
  function Atoi(s: string): Option<int> {
    var signed := s != "" && (s[0] == '+' || s[0] == '-');
    var digits := if signed then s[1..] else s;
    if digits == "" || !AllDigits(digits) then None
    else
      var x: int := Value(digits) * if signed && s[0] == '-' then -1 else 1;
      if -MAX_INT64 - 1 <= x <= MAX_INT64 then Some(x) else None
  }

  function Parse(v: string): Option<Version> {
    var i := IndexOf(v, '-');
    if i >= 0 then ParseCore(Split(v[..i], '.'), v[i + 1..])
    else ParseCore(Split(v, '.'), "")
  }

  function ParseCore(parts: seq<string>, pre: string): Option<Version> {
    if |parts| != 3 then None
    else
      var major, minor, patch := Atoi(parts[0]), Atoi(parts[1]), Atoi(parts[2]);
      if major.None? || minor.None? || patch.None? then None
      else Some(Version(major.value, minor.value, patch.value, pre))
  }

  // What parseSemver returns beside an error that the caller ignores.
  function ParseOrZero(v: string): Version {
    if Parse(v).Some? then Parse(v).value else Version(0, 0, 0, "")
  }

  // ----------------------------------------------------------------- ordering

  predicate VersionLess(a: Version, b: Version) {
    if a.major != b.major then a.major < b.major
    else if a.minor != b.minor then a.minor < b.minor
    else if a.patch != b.patch then a.patch < b.patch
    else if a.pre == b.pre then false
    else if a.pre == "" then false
    else if b.pre == "" then true
    else StrLess(a.pre, b.pre)
  }

  predicate SemverLess(a: string, b: string) {
    VersionLess(ParseOrZero(a), ParseOrZero(b))
  }

  /** semverLess is a strict total order on what versions parse to. */
  lemma SemverTotal(a: string, b: string, c: string)
    ensures !(SemverLess(a, b) && SemverLess(b, a))
    ensures !SemverLess(a, b) && !SemverLess(b, a) <==> ParseOrZero(a) == ParseOrZero(b)
    ensures SemverLess(a, b) && SemverLess(b, c) ==> SemverLess(a, c)
  {
    var x, y, z := ParseOrZero(a), ParseOrZero(b), ParseOrZero(c);
    StrTrichotomy(x.pre, y.pre);
    if StrLess(x.pre, y.pre) && StrLess(y.pre, z.pre) {
      StrTrans(x.pre, y.pre, z.pre);
    }
    StrTrichotomy(x.pre, z.pre);
  }

  // -------------------------------------------------------------- the authority

  datatype Refusal = Unparsable | UnknownHop | BreaksBound | NoRunTag | NotGreater

  datatype Next = Published(version: string) | Refused(why: Refusal)

  function Bump(v: Version, hop: string): Version {
    if hop == "patch" then v.(patch := Increment(v.patch))
    else v.(minor := Increment(v.minor), patch := 0)
  }

  function Render(v: Version, runTag: string): string {
    DecInt(v.major) + "." + DecInt(v.minor) + "." + DecInt(v.patch) + "-dev" + runTag
  }

  // The counter that the hop increments.
  function HopCounter(v: Version, hop: string): int {
    if hop == "patch" then v.patch else v.minor
  }

  predicate KnownHop(hop: string) {
    hop == "patch" || hop == "minor"
  }

  // v with the hop's counter one up, counted without wrap-around.
  function Hopped(v: Version, hop: string, pre: string): Version {
    if hop == "patch" then Version(v.major, v.minor, v.patch + 1, pre) else Version(v.major, v.minor + 1, 0, pre)
  }

  /**
   * Publishes a version that reads back as the next one, stays below 2 and is greater, or refuses
   * for the first cause that applies; a result that is not greater only ever means that the
   * counter has reached the largest 64-bit integer.
   */
  method NextChartVersion(current: string, hop: string, runTag: string) returns (next: Next)
    ensures next == NextOf(current, hop, runTag)
    ensures forall a: nat, b: nat, c: nat, pre :: Spells(current, a, b, c, pre) && runTag != "" ==>
      && (hop == "patch" && a < 2 && c < MAX_INT64 ==>
            next == Published(Dec(a) + "." + Dec(b) + "." + Dec(c + 1) + "-dev" + runTag))
      && (hop == "minor" && a < 2 && b < MAX_INT64 ==>
            next == Published(Dec(a) + "." + Dec(b + 1) + ".0-dev" + runTag))
    ensures next.Published? ==>
      && Parse(current).Some? && Parse(current).value.major < 2
      && Parse(next.version) == Some(Hopped(Parse(current).value, hop, "dev" + runTag))
      && SemverLess(current, next.version)
    ensures next == Refused(Unparsable) <==> Parse(current).None?
    ensures next == Refused(UnknownHop) <==> Parse(current).Some? && !KnownHop(hop)
    ensures hop != "patch" && hop != "minor" ==> next.Refused?
    ensures next == Refused(BreaksBound) <==>
      Parse(current).Some? && KnownHop(hop) && Parse(current).value.major >= 2
    ensures next == Refused(NoRunTag) <==>
      Parse(current).Some? && KnownHop(hop) && Parse(current).value.major < 2 && runTag == ""
    ensures next == Refused(NotGreater) <==>
      && Parse(current).Some? && KnownHop(hop) && Parse(current).value.major < 2 && runTag != ""
      && HopCounter(Parse(current).value, hop) == MAX_INT64
  {
    var parsed := Parse(current);
    if parsed.None? {
      SpelledHops(current, hop, runTag);
      return Refused(Unparsable);
    }
    PublishesExactly(current, hop, runTag);
    PublishedVersion(current, hop, runTag);
    SpelledHops(current, hop, runTag);
    var maj, min, pat := parsed.value.major, parsed.value.minor, parsed.value.patch;
    if hop == "patch" {
      pat := Increment(pat);
    } else if hop == "minor" {
      min := Increment(min);
      pat := 0;
    } else {
      return Refused(UnknownHop);
    }
    if maj >= 2 {
      return Refused(BreaksBound);
    }
    if runTag == "" {
      return Refused(NoRunTag);
    }
    var version := DecInt(maj) + "." + DecInt(min) + "." + DecInt(pat) + "-dev" + runTag;
    if !SemverLess(current, version) {
      return Refused(NotGreater);
    }
    return Published(version);
  }

  function NextOf(current: string, hop: string, runTag: string): Next {
    if Parse(current).None? then Refused(Unparsable)
    else if hop != "patch" && hop != "minor" then Refused(UnknownHop)
    else if Parse(current).value.major >= 2 then Refused(BreaksBound)
    else if runTag == "" then Refused(NoRunTag)
    else
      var version := Render(Bump(Parse(current).value, hop), runTag);
      if SemverLess(current, version) then Published(version) else Refused(NotGreater)
  }

  // ------------------------------------------------------------- round trips

  lemma {:induction false} SplitNone(s: string, c: char)
    requires c !in s
    ensures Split(s, c) == [s]
  {
  }

  lemma {:induction false} IndexOfFirst(a: string, rest: string, c: char)
    requires c !in a
    ensures IndexOf(a + [c] + rest, c) == |a|
  {
    if a != "" {
      assert (a + [c] + rest)[1..] == a[1..] + [c] + rest;
      IndexOfFirst(a[1..], rest, c);
    }
  }

  lemma SplitStep(a: string, rest: string, c: char)
    requires c !in a
    ensures Split(a + [c] + rest, c) == [a] + Split(rest, c)
  {
    var s := a + [c] + rest;
    IndexOfFirst(a, rest, c);
    assert s[..|a|] == a && s[|a| + 1..] == rest;
  }

  lemma AtoiDec(n: nat)
    ensures Atoi(Dec(n)) == if n <= MAX_INT64 then Some(n) else None
  {
    DecRoundTrip(n);
    assert IsDigit(Dec(n)[0]);
  }

  lemma SplitThree(a: string, b: string, c: string)
    requires '.' !in a && '.' !in b && '.' !in c
    ensures Split(a + "." + b + "." + c, '.') == [a, b, c]
  {
    assert a + "." + b + "." + c == a + ['.'] + (b + ['.'] + c);
    SplitStep(a, b + ['.'] + c, '.');
    SplitStep(b, c, '.');
    SplitNone(c, '.');
  }

  lemma ParseDashed(core: string, pre: string)
    requires '-' !in core
    ensures Parse(core + "-" + pre) == ParseCore(Split(core, '.'), pre)
  {
    var s := core + ['-'] + pre;
    IndexOfFirst(core, pre, '-');
    assert s[..|core|] == core && s[|core| + 1..] == pre;
    assert core + "-" + pre == s;
  }

  // Digits carry neither separator.
  lemma DecIsPlain(n: nat)
    ensures '.' !in Dec(n) && '-' !in Dec(n)
  {
    DecRoundTrip(n);
  }

  // What a version with non-negative components renders to reads back as that version.
  lemma RenderParses(maj: nat, min: nat, pat: nat, was: string, runTag: string)
    requires maj <= MAX_INT64 && min <= MAX_INT64 && pat <= MAX_INT64
    ensures Parse(Render(Version(maj, min, pat, was), runTag)) == Some(Version(maj, min, pat, "dev" + runTag))
  {
    var core := Dec(maj) + "." + Dec(min) + "." + Dec(pat);
    DecIsPlain(maj);
    DecIsPlain(min);
    DecIsPlain(pat);
    assert Render(Version(maj, min, pat, was), runTag) == core + "-" + ("dev" + runTag);
    ParseDashed(core, "dev" + runTag);
    SplitThree(Dec(maj), Dec(min), Dec(pat));
    AtoiDec(maj);
    AtoiDec(min);
    AtoiDec(pat);
  }

  // No component of a parsed version is negative: its core ends at the first '-'.
  lemma ParsedIsNat(v: string)
    requires Parse(v).Some?
    ensures var p := Parse(v).value;
      && 0 <= p.major <= MAX_INT64 && 0 <= p.minor <= MAX_INT64 && 0 <= p.patch <= MAX_INT64
  {
    var i := IndexOf(v, '-');
    var core := if i >= 0 then v[..i] else v;
    var parts := Split(core, '.');
    PartsInherit(core, '.', '-');
    assert parts[0] in parts && parts[1] in parts && parts[2] in parts;
    AtoiUnsigned(parts[0]);
    AtoiUnsigned(parts[1]);
    AtoiUnsigned(parts[2]);
  }

  lemma AtoiUnsigned(s: string)
    requires '-' !in s && Atoi(s).Some?
    ensures 0 <= Atoi(s).value <= MAX_INT64
  {
    if s != "" { assert s[0] in s; }
  }

  lemma {:induction false} PartsInherit(s: string, c: char, x: char)
    requires x !in s
    ensures forall p :: p in Split(s, c) ==> x !in p
    decreases |s|
  {
    var i := IndexOf(s, c);
    if i >= 0 {
      PartsInherit(s[i + 1..], c, x);
    }
  }

  // A counter that wrapped renders with a '-', so the candidate does not parse.
  lemma WrappedPatch(maj: nat, min: nat, rest: string)
    ensures Parse(Dec(maj) + "." + Dec(min) + "." + ("-" + rest)).None?
  {
    var core := Dec(maj) + "." + Dec(min) + ".";
    DecIsPlain(maj);
    DecIsPlain(min);
    assert Dec(maj) + "." + Dec(min) + "." + ("-" + rest) == core + "-" + rest;
    ParseDashed(core, rest);
    assert core == Dec(maj) + "." + Dec(min) + "." + "";
    SplitThree(Dec(maj), Dec(min), "");
  }

  lemma WrappedMinor(maj: nat, rest: string)
    ensures Parse(Dec(maj) + "." + ("-" + rest)).None?
  {
    var core := Dec(maj) + ['.'] + "";
    DecIsPlain(maj);
    assert Dec(maj) + "." + ("-" + rest) == core + "-" + rest;
    ParseDashed(core, rest);
    SplitStep(Dec(maj), "", '.');
    SplitNone("", '.');
  }

  lemma WrappedDoesNotParse(v: Version, hop: string, runTag: string)
    requires 0 <= v.major <= MAX_INT64 && 0 <= v.minor <= MAX_INT64 && 0 <= v.patch <= MAX_INT64
    requires HopCounter(v, hop) == MAX_INT64
    ensures Parse(Render(Bump(v, hop), runTag)).None?
  {
    var b := Bump(v, hop);
    if hop == "patch" {
      var rest := Dec(-b.patch) + "-dev" + runTag;
      assert Render(b, runTag) == Dec(v.major) + "." + Dec(v.minor) + "." + ("-" + rest);
      WrappedPatch(v.major, v.minor, rest);
    } else {
      var rest := Dec(-b.minor) + "." + DecInt(b.patch) + "-dev" + runTag;
      assert Render(b, runTag) == Dec(v.major) + "." + ("-" + rest);
      WrappedMinor(v.major, rest);
    }
  }

  // The candidate, against the version it was made from.
  lemma Candidate(current: string, hop: string, runTag: string)
    requires Parse(current).Some? && KnownHop(hop)
    ensures var v := Parse(current).value;
      var next := Render(Bump(v, hop), runTag);
      if HopCounter(v, hop) == MAX_INT64 then !SemverLess(current, next)
      else SemverLess(current, next) && Parse(next) == Some(Bump(v, hop).(pre := "dev" + runTag))
  {
    ParsedIsNat(current);
    var v := Parse(current).value;
    if HopCounter(v, hop) == MAX_INT64 {
      WrappedDoesNotParse(v, hop, runTag);
    } else {
      var b := Bump(v, hop);
      RenderParses(b.major, b.minor, b.patch, b.pre, runTag);
    }
  }

  /**
   * When the authority publishes: exactly for a parsable version below 2 and a known hop with a
   * run tag, unless the counter it would increment is the largest 64-bit integer.
   */
  lemma PublishesExactly(current: string, hop: string, runTag: string)
    ensures NextOf(current, hop, runTag).Published? <==>
      && Parse(current).Some? && Parse(current).value.major < 2
      && KnownHop(hop) && runTag != ""
      && HopCounter(Parse(current).value, hop) != MAX_INT64
  {
    if Parse(current).Some? && KnownHop(hop) {
      Candidate(current, hop, runTag);
    }
  }

  /** What it publishes reads back as the incremented version, stays below 2 and is greater. */
  lemma PublishedVersion(current: string, hop: string, runTag: string)
    ensures NextOf(current, hop, runTag).Published? ==>
      var next := NextOf(current, hop, runTag).version;
      var v := Parse(current).value;
      && Parse(next) == Some(Hopped(v, hop, "dev" + runTag))
      && v.major < 2
      && SemverLess(current, next)
  {
    if NextOf(current, hop, runTag).Published? {
      Candidate(current, hop, runTag);
    }
  }

  // b is what some scenario publishes when a is current.
  ghost predicate Hop(a: string, b: string) {
    exists hop, tag :: NextOf(a, hop, tag) == Published(b)
  }

  lemma HopIncreases(a: string, b: string)
    ensures Hop(a, b) ==> SemverLess(a, b)
  {
    if hop, tag :| NextOf(a, hop, tag) == Published(b) {
      PublishedVersion(a, hop, tag);
    }
  }

  ghost predicate Chain(vs: seq<string>) {
    forall k :: 0 <= k < |vs| - 1 ==> Hop(vs[k], vs[k + 1])
  }

  lemma {:induction false} ChainLess(vs: seq<string>, less: (string, string) -> bool, i: nat, j: nat)
    requires forall a, b, c :: less(a, b) && less(b, c) ==> less(a, c)
    requires forall k :: 0 <= k < |vs| - 1 ==> less(vs[k], vs[k + 1])
    requires i < j < |vs|
    ensures less(vs[i], vs[j])
    decreases j
  {
    var k := j - 1;
    assert less(vs[k], vs[k + 1]);
    if i < k {
      ChainLess(vs, less, i, k);
    }
  }

  /** Along any chain of hops versions only grow, so none is ever published twice. */
  lemma ChainIncreases(vs: seq<string>, i: nat, j: nat)
    requires Chain(vs) && i < j < |vs|
    ensures SemverLess(vs[i], vs[j]) && vs[i] != vs[j]
  {
    var less := (a: string, b: string) => SemverLess(a, b);
    forall a, b, c | less(a, b) && less(b, c) ensures less(a, c) { SemverTotal(a, b, c); }
    forall k | 0 <= k < |vs| - 1 ensures less(vs[k], vs[k + 1]) { HopIncreases(vs[k], vs[k + 1]); }
    ChainLess(vs, less, i, j);
    SemverTotal(vs[i], vs[i], vs[i]);
  }

  // ---------------------------------------------------------- versions, spelled

  // v is a.b.c, with or without a dash and a prerelease.
  ghost predicate Spells(v: string, a: nat, b: nat, c: nat, pre: string) {
    && a <= MAX_INT64 && b <= MAX_INT64 && c <= MAX_INT64
    && ((pre == "" && v == Dec(a) + "." + Dec(b) + "." + Dec(c)) || v == Dec(a) + "." + Dec(b) + "." + Dec(c) + "-" + pre)
  }

  lemma ParseUndashed(core: string)
    requires '-' !in core
    ensures Parse(core) == ParseCore(Split(core, '.'), "")
  {
  }

  lemma CoreParts(a: nat, b: nat, c: nat, pre: string)
    requires a <= MAX_INT64 && b <= MAX_INT64 && c <= MAX_INT64
    ensures ParseCore(Split(Dec(a) + "." + Dec(b) + "." + Dec(c), '.'), pre) == Some(Version(a, b, c, pre))
    ensures '-' !in Dec(a) + "." + Dec(b) + "." + Dec(c)
  {
    DecIsPlain(a);
    DecIsPlain(b);
    DecIsPlain(c);
    SplitThree(Dec(a), Dec(b), Dec(c));
    AtoiDec(a);
    AtoiDec(b);
    AtoiDec(c);
  }

  /** Every such string parses, to its components and its prerelease. */
  lemma SpelledParses(v: string, a: nat, b: nat, c: nat, pre: string)
    requires Spells(v, a, b, c, pre)
    ensures Parse(v) == Some(Version(a, b, c, pre))
  {
    var core := Dec(a) + "." + Dec(b) + "." + Dec(c);
    CoreParts(a, b, c, pre);
    if v == core + "-" + pre {
      ParseDashed(core, pre);
    } else {
      ParseUndashed(core);
    }
  }

  /** The order of versions: by their numbers, a prerelease before its release, prereleases as strings. */
  lemma SpelledLess(u: string, a: nat, b: nat, c: nat, pre: string, v: string, d: nat, e: nat, f: nat, qre: string)
    requires Spells(u, a, b, c, pre) && Spells(v, d, e, f, qre)
    ensures SemverLess(u, v) <==>
      || a < d || (a == d && b < e) || (a == d && b == e && c < f)
      || (a == d && b == e && c == f && pre != "" && (qre == "" || exists k :: LessAt(pre, qre, k)))
  {
    SpelledParses(u, a, b, c, pre);
    SpelledParses(v, d, e, f, qre);
    StrLessMeans(pre, qre);
    StrTrichotomy(pre, pre);
  }

  // What is published, when something is.
  lemma PublishedIs(current: string, hop: string, runTag: string, v: Version)
    requires Parse(current) == Some(v) && v.major < 2 && KnownHop(hop) && runTag != "" && HopCounter(v, hop) != MAX_INT64
    ensures NextOf(current, hop, runTag) == Published(Render(Bump(v, hop), runTag))
  {
    PublishesExactly(current, hop, runTag);
  }

  /** A patch hop from a.b.c publishes a.b.(c + 1)-dev<tag> ... */
  lemma SpelledPatch(current: string, runTag: string, a: nat, b: nat, c: nat, pre: string)
    requires Spells(current, a, b, c, pre) && a < 2 && runTag != "" && c < MAX_INT64
    ensures NextOf(current, "patch", runTag) == Published(Dec(a) + "." + Dec(b) + "." + Dec(c + 1) + "-dev" + runTag)
  {
    SpelledParses(current, a, b, c, pre);
    PublishedIs(current, "patch", runTag, Version(a, b, c, pre));
  }

  /** ... and a minor hop a.(b + 1).0-dev<tag>. */
  lemma SpelledMinor(current: string, runTag: string, a: nat, b: nat, c: nat, pre: string)
    requires Spells(current, a, b, c, pre) && a < 2 && runTag != "" && b < MAX_INT64
    ensures NextOf(current, "minor", runTag) == Published(Dec(a) + "." + Dec(b + 1) + ".0-dev" + runTag)
  {
    SpelledParses(current, a, b, c, pre);
    PublishedIs(current, "minor", runTag, Version(a, b, c, pre));
    assert Dec(0) == "0";
    ZeroPatch(Dec(a) + "." + Dec(b + 1), runTag);
  }

  lemma SpelledHops(current: string, hop: string, runTag: string)
    ensures forall a: nat, b: nat, c: nat, pre :: Spells(current, a, b, c, pre) && runTag != "" ==>
      && (hop == "patch" && a < 2 && c < MAX_INT64 ==>
            NextOf(current, hop, runTag) == Published(Dec(a) + "." + Dec(b) + "." + Dec(c + 1) + "-dev" + runTag))
      && (hop == "minor" && a < 2 && b < MAX_INT64 ==>
            NextOf(current, hop, runTag) == Published(Dec(a) + "." + Dec(b + 1) + ".0-dev" + runTag))
  {
    forall a: nat, b: nat, c: nat, pre | Spells(current, a, b, c, pre) && runTag != ""
      ensures hop == "patch" && a < 2 && c < MAX_INT64 ==>
        NextOf(current, hop, runTag) == Published(Dec(a) + "." + Dec(b) + "." + Dec(c + 1) + "-dev" + runTag)
      ensures hop == "minor" && a < 2 && b < MAX_INT64 ==>
        NextOf(current, hop, runTag) == Published(Dec(a) + "." + Dec(b + 1) + ".0-dev" + runTag)
    {
      if hop == "patch" && a < 2 && c < MAX_INT64 {
        SpelledPatch(current, runTag, a, b, c, pre);
      }
      if hop == "minor" && a < 2 && b < MAX_INT64 {
        SpelledMinor(current, runTag, a, b, c, pre);
      }
    }
  }

  lemma ZeroPatch(head: string, runTag: string)
    ensures head + "." + "0" + "-dev" + runTag == head + ".0-dev" + runTag
  {
  }

  // ds is the numeral that s shows, behind an optional sign, of x.
  ghost predicate Numeral(s: string, ds: string, x: int) {
    && ds != "" && AllDigits(ds)
    && (((s == ds || s == "+" + ds) && x == Value(ds)) || (s == "-" + ds && x == 0 - Value(ds)))
  }

  /** What reads as an integer: digits behind an optional sign, within 64 bits. */
  lemma AtoiMeans(s: string, x: int)
    ensures Atoi(s) == Some(x) <==> -0x8000_0000_0000_0000 <= x <= 0x7fff_ffff_ffff_ffff && exists ds :: Numeral(s, ds, x)
  {
    var signed := s != "" && (s[0] == '+' || s[0] == '-');
    var digits := if signed then s[1..] else s;
    if signed {
      assert s == [s[0]] + digits;
    }
    if Atoi(s) == Some(x) {
      assert Numeral(s, digits, x);
    }
    if ds :| Numeral(s, ds, x) {
      assert IsDigit(ds[0]);
      assert digits == ds;
    }
  }

  // v is x.y.z, with or without a dash and a prerelease.
  ghost predicate Shaped(v: string, x: string, y: string, z: string, pre: string) {
    && '.' !in x && '.' !in y && '.' !in z && '-' !in x && '-' !in y && '-' !in z
    && ((pre == "" && v == x + "." + y + "." + z) || v == x + "." + y + "." + z + "-" + pre)
  }

  lemma SplitFirst(s: string, parts: seq<string>) returns (rest: string)
    requires Split(s, '.') == parts && |parts| >= 2
    ensures s == parts[0] + "." + rest && '.' !in parts[0] && Split(rest, '.') == parts[1..]
  {
    var i := IndexOf(s, '.');
    rest := s[i + 1..];
    assert parts == [s[..i]] + Split(rest, '.');
  }

  lemma SplitTwice(s: string, x: string, y: string, z: string)
    requires Split(s, '.') == [x, y, z]
    ensures s == x + "." + y + "." + z && '.' !in x && '.' !in y && '.' !in z
  {
    var rest := SplitFirst(s, [x, y, z]);
    assert [x, y, z][1..] == [y, z];
    var last := SplitFirst(rest, [y, z]);
    assert [y, z][1..] == [z];
    SplitLast(last, z);
    JoinThree(x, y, z);
  }

  lemma SplitLast(s: string, z: string)
    requires Split(s, '.') == [z]
    ensures s == z && '.' !in s
  {
  }

  lemma JoinThree(x: string, y: string, z: string)
    ensures x + "." + (y + "." + z) == x + "." + y + "." + z
  {
  }

  lemma CutAt(v: string, i: nat, c: char)
    requires i < |v| && v[i] == c
    ensures v[..i] + [c] + v[i + 1..] == v
  {
  }

  lemma ShapedParses(v: string, x: string, y: string, z: string, pre: string)
    requires Shaped(v, x, y, z, pre)
    ensures Parse(v) == ParseCore([x, y, z], pre)
  {
    var core := x + "." + y + "." + z;
    SplitThree(x, y, z);
    if v == core + "-" + pre {
      ParseDashed(core, pre);
    } else {
      ParseUndashed(core);
    }
  }

  ghost predicate Reads(v: string, x: string, y: string, z: string, p: Version) {
    Shaped(v, x, y, z, p.pre) && Atoi(x) == Some(p.major) && Atoi(y) == Some(p.minor) && Atoi(z) == Some(p.patch)
  }

  lemma CoreReads(core: string, pre: string, p: Version)
    requires '-' !in core && ParseCore(Split(core, '.'), pre) == Some(p)
    ensures exists x, y, z :: Reads(core + "-" + pre, x, y, z, p)
    ensures pre == "" ==> exists x, y, z :: Reads(core, x, y, z, p)
  {
    var parts := Split(core, '.');
    PartsInherit(core, '.', '-');
    var x, y, z := parts[0], parts[1], parts[2];
    assert x in parts && y in parts && z in parts;
    assert parts == [x, y, z];
    SplitTwice(core, x, y, z);
    assert Reads(core + "-" + pre, x, y, z, p);
    assert pre == "" ==> Reads(core, x, y, z, p);
  }

  lemma ParsesAsReads(v: string, p: Version)
    requires Parse(v) == Some(p)
    ensures exists x, y, z :: Reads(v, x, y, z, p)
  {
    var i := IndexOf(v, '-');
    if i >= 0 {
      CutAt(v, i, '-');
      CoreReads(v[..i], v[i + 1..], p);
    } else {
      CoreReads(v, "", p);
    }
  }

  /** What parses as a version: three integers between dots, and what follows the first dash. */
  lemma ParseMeans(v: string, p: Version)
    ensures Parse(v) == Some(p) <==> exists x, y, z :: Reads(v, x, y, z, p)
  {
    if x, y, z :| Reads(v, x, y, z, p) {
      ShapedParses(v, x, y, z, p.pre);
    }
    if Parse(v) == Some(p) {
      ParsesAsReads(v, p);
    }
  }
}
