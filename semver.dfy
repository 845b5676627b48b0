/** Semantic versions as the tag sorter uses them: the grammar of Semantic
    Versioning 2.0.0 (section 2, 9 and 10: `MAJOR.MINOR.PATCH`, an optional
    `-` pre-release and an optional `+` build part) and the precedence of its
    section 11. Numeric parts are 64-bit unsigned in the parser, so a larger
    number makes the parse fail. */
module SemVer {
  import opened Wrappers
  import opened Strings

  datatype Ordering = Less | Equal | Greater

  function Flip(o: Ordering): Ordering
  {
    match o
    case Less => Greater
    case Equal => Equal
    case Greater => Less
  }

  /** Numeric identifiers are held in a `u64`. */
  const U64Bound: nat := 0x1_0000_0000_0000_0000

  datatype Identifier = Numeric(n: nat) | AlphaNumeric(s: string)

  datatype Version = Version(major: nat, minor: nat, patch: nat, pre: seq<Identifier>, build: seq<string>)

  // ---------------------------------------------------------------------------
  // Lexical classes

  predicate IsDigit(c: char) { '0' <= c <= '9' }

  predicate IsIdentChar(c: char) { IsDigit(c) || 'a' <= c <= 'z' || 'A' <= c <= 'Z' || c == '-' }

  predicate AllDigits(s: string) { forall k | 0 <= k < |s| :: IsDigit(s[k]) }

  /** A numeric identifier: digits without a leading zero. */
  predicate IsNumericIdent(s: string) { |s| > 0 && AllDigits(s) && (s[0] != '0' || |s| == 1) }

  /** An alphanumeric identifier: identifier characters, at least one of them not a digit. */
  predicate IsAlphaNumericIdent(s: string)
  {
    |s| > 0 && (forall k | 0 <= k < |s| :: IsIdentChar(s[k])) && !AllDigits(s)
  }

  /** A build identifier: identifier characters, leading zeros allowed. */
  predicate IsBuildIdent(s: string) { |s| > 0 && forall k | 0 <= k < |s| :: IsIdentChar(s[k]) }

  /** What a well-formed version may hold: the range of the parser's numbers and
      valid identifiers. */
  predicate IdentOk(id: Identifier)
  {
    match id
    case Numeric(n) => n < U64Bound
    case AlphaNumeric(s) => IsAlphaNumericIdent(s)
  }

  predicate WellFormed(v: Version)
  {
    v.major < U64Bound && v.minor < U64Bound && v.patch < U64Bound &&
    (forall k | 0 <= k < |v.pre| :: IdentOk(v.pre[k])) &&
    (forall k | 0 <= k < |v.build| :: IsBuildIdent(v.build[k]))
  }

  // ---------------------------------------------------------------------------
  // Decimal numbers

  function DigitsValue(s: string): nat
    requires AllDigits(s)
    decreases |s|
  {
    if |s| == 0 then 0 else 10 * DigitsValue(s[..|s| - 1]) + (s[|s| - 1] as int - '0' as int)
  }

  function DigitChar(d: nat): char
    requires d < 10
  {
    ('0' as int + d) as char
  }

  /** The decimal spelling of `n`. */
  function NatStr(n: nat): (r: string)
    ensures IsNumericIdent(r)
    decreases n
  {
    if n < 10 then [DigitChar(n)] else NatStr(n / 10) + [DigitChar(n % 10)]
  }

  lemma {:induction false} NatStrValue(n: nat)
    ensures DigitsValue(NatStr(n)) == n
    decreases n
  {
    if n >= 10 {
      var p := NatStr(n / 10);
      assert (p + [DigitChar(n % 10)])[..|p|] == p;
      NatStrValue(n / 10);
    }
  }

  lemma {:induction false} ValueNatStr(s: string)
    requires IsNumericIdent(s)
    ensures NatStr(DigitsValue(s)) == s
    decreases |s|
  {
    if |s| >= 2 {
      var p := s[..|s| - 1];
      var d := s[|s| - 1] as int - '0' as int;
      assert p[0] == s[0];
      ValueNatStr(p);
      assert NatStr(0) == ['0'];
      var q := DigitsValue(p);
      assert DigitsValue(s) == 10 * q + d;
      assert q >= 1;
      DivMod10(q, d);
      assert NatStr(10 * q + d) == NatStr(q) + [DigitChar(d)];
      assert s == p + [s[|s| - 1]];
    }
  }

  lemma DivMod10(q: nat, d: nat)
    requires d < 10
    ensures (10 * q + d) / 10 == q && (10 * q + d) % 10 == d
  {
  }

  // ---------------------------------------------------------------------------
  // Parsing

  /** `s` cut at the first `d`: the part before it, and the part after it when
      there is one. */
  function CutAt(s: string, d: char): (string, Option<string>)
  {
    var i := IndexOf(s, d);
    if i == |s| then (s, None) else (s[..i], Some(s[i + 1..]))
  }

  function ParseNumber(s: string): Option<nat>
  {
    if IsNumericIdent(s) && DigitsValue(s) < U64Bound then Some(DigitsValue(s)) else None
  }

  function ParseIdentifier(s: string): Option<Identifier>
  {
    if IsNumericIdent(s) then
      if DigitsValue(s) < U64Bound then Some(Numeric(DigitsValue(s))) else None
    else if IsAlphaNumericIdent(s) then Some(AlphaNumeric(s))
    else None
  }

  function ParseIdentifiers(parts: seq<string>): Option<seq<Identifier>>
  {
    if parts == [] then Some([])
    else
      match (ParseIdentifier(parts[0]), ParseIdentifiers(parts[1..]))
      case (Some(id), Some(ids)) => Some([id] + ids)
      case _ => None
  }

  predicate AllBuildIdents(parts: seq<string>)
  {
    forall k | 0 <= k < |parts| :: IsBuildIdent(parts[k])
  }

  /** `Version::parse`: `None` for anything that is not a valid semantic version. */
  function Parse(s: string): Option<Version>
  {
    var (main, build) := CutAt(s, '+');
    var (core, pre) := CutAt(main, '-');
    ParsePieces(core, pre, build)
  }

  /** The version made of a `MAJOR.MINOR.PATCH` core, the text after `-` and the
      text after `+`, when each of them is valid. */
  function ParsePieces(core: string, pre: Option<string>, build: Option<string>): Option<Version>
  {
    var nums := Split(core, '.');
    if |nums| != 3 then None
    else
      var major, minor, patch := ParseNumber(nums[0]), ParseNumber(nums[1]), ParseNumber(nums[2]);
      var ids := if pre.None? then Some([]) else ParseIdentifiers(Split(pre.value, '.'));
      var meta := if build.None? then [] else Split(build.value, '.');
      if major.Some? && minor.Some? && patch.Some? && ids.Some? && AllBuildIdents(meta) then
        Some(Version(major.value, minor.value, patch.value, ids.value, meta))
      else None
  }

  // ---------------------------------------------------------------------------
  // Formatting: the canonical spelling, the partner of Parse

  function IdentStr(id: Identifier): string
  {
    match id
    case Numeric(n) => NatStr(n)
    case AlphaNumeric(s) => s
  }

  function IdentStrs(ids: seq<Identifier>): (r: seq<string>)
    ensures |r| == |ids|
  {
    if ids == [] then [] else [IdentStr(ids[0])] + IdentStrs(ids[1..])
  }

  lemma {:induction false} IdentStrsAt(ids: seq<Identifier>)
    ensures forall k | 0 <= k < |ids| :: IdentStrs(ids)[k] == IdentStr(ids[k])
    decreases |ids|
  {
    if ids != [] {
      IdentStrsAt(ids[1..]);
    }
  }

  function Format(v: Version): string
  {
    NatStr(v.major) + "." + NatStr(v.minor) + "." + NatStr(v.patch) +
    (if v.pre == [] then "" else "-" + Join(IdentStrs(v.pre), ".")) +
    (if v.build == [] then "" else "+" + Join(v.build, "."))
  }

  // ---------------------------------------------------------------------------
  // Parse and Format are inverse to each other

  lemma CutAtParts(s: string, d: char)
    ensures var (a, b) := CutAt(s, d);
      d !in a && s == a + (if b.Some? then [d] + b.value else [])
  {
    var i := IndexOf(s, d);
    if i < |s| {
      assert s == s[..i] + [d] + s[i + 1..];
    } else {
      assert s[..i] == s;
    }
  }

  lemma CutAtOf(a: string, d: char, tail: Option<string>)
    requires d !in a
    ensures CutAt(a + (if tail.Some? then [d] + tail.value else []), d) == (a, tail)
  {
    var s := a + (if tail.Some? then [d] + tail.value else []);
    if tail.Some? {
      assert s == a + [d] + tail.value;
      IndexOfFirst(a, d, tail.value);
      assert s[|a| + 1..] == tail.value;
      assert s[..|a|] == a;
    } else {
      assert s == a;
    }
  }

  lemma ParseIdentStr(id: Identifier)
    requires IdentOk(id)
    ensures ParseIdentifier(IdentStr(id)) == Some(id)
  {
    if id.Numeric? {
      NatStrValue(id.n);
    }
  }

  lemma {:induction false} ParseIdentStrs(ids: seq<Identifier>)
    requires forall k | 0 <= k < |ids| :: IdentOk(ids[k])
    ensures ParseIdentifiers(IdentStrs(ids)) == Some(ids)
    decreases |ids|
  {
    if ids != [] {
      var strs, rest := IdentStrs(ids), IdentStrs(ids[1..]);
      assert strs == [IdentStr(ids[0])] + rest;
      assert strs[1..] == rest;
      ParseIdentStr(ids[0]);
      ParseIdentStrs(ids[1..]);
      assert ParseIdentifiers(strs) == Some([ids[0]] + ids[1..]);
      assert [ids[0]] + ids[1..] == ids;
    }
  }

  lemma ParsedIdentStr(s: string)
    requires ParseIdentifier(s).Some?
    ensures IdentStr(ParseIdentifier(s).value) == s
    ensures IdentOk(ParseIdentifier(s).value)
  {
    if IsNumericIdent(s) {
      ValueNatStr(s);
    }
  }

  lemma {:induction false} ParsedIdentStrs(parts: seq<string>)
    requires ParseIdentifiers(parts).Some?
    ensures IdentStrs(ParseIdentifiers(parts).value) == parts
    ensures forall k | 0 <= k < |parts| :: IdentOk(ParseIdentifiers(parts).value[k])
    decreases |parts|
  {
    if parts != [] {
      ParsedIdentStr(parts[0]);
      ParsedIdentStrs(parts[1..]);
      var ids := ParseIdentifiers(parts).value;
      assert ids == [ParseIdentifier(parts[0]).value] + ParseIdentifiers(parts[1..]).value;
      assert IdentStrs(ids) == [IdentStr(ids[0])] + IdentStrs(ids[1..]);
      assert parts == [parts[0]] + parts[1..];
    }
  }

  /** The pieces of a formatted version: its three numbers, and the `-`/`+` parts. */
  function CoreStr(v: Version): string
  {
    NatStr(v.major) + "." + NatStr(v.minor) + "." + NatStr(v.patch)
  }

  function PreStr(v: Version): Option<string>
  {
    if v.pre == [] then None else Some(Join(IdentStrs(v.pre), "."))
  }

  function BuildStr(v: Version): Option<string>
  {
    if v.build == [] then None else Some(Join(v.build, "."))
  }

  lemma FormatPieces(v: Version)
    ensures Format(v) ==
      (CoreStr(v) + (if PreStr(v).Some? then ['-'] + PreStr(v).value else [])) +
      (if BuildStr(v).Some? then ['+'] + BuildStr(v).value else [])
  {
  }

  lemma CoreSplit(v: Version)
    ensures Split(CoreStr(v), '.') == [NatStr(v.major), NatStr(v.minor), NatStr(v.patch)]
    ensures '+' !in CoreStr(v) && '-' !in CoreStr(v)
  {
    var parts := [NatStr(v.major), NatStr(v.minor), NatStr(v.patch)];
    assert Join(parts[2..], ".") == parts[2];
    assert Join(parts[1..], ".") == parts[1] + "." + parts[2];
    assert Join(parts, ".") == CoreStr(v);
    assert forall k | 0 <= k < 3 :: '.' !in parts[k] && '+' !in parts[k] && '-' !in parts[k];
    SplitJoin(parts, '.');
  }

  lemma IdentStrsFree(v: Version)
    requires WellFormed(v)
    ensures forall k | 0 <= k < |v.pre| :: '.' !in IdentStrs(v.pre)[k] && '+' !in IdentStrs(v.pre)[k]
    ensures forall k | 0 <= k < |v.build| :: '.' !in v.build[k] && '+' !in v.build[k]
  {
    IdentStrsAt(v.pre);
    forall k | 0 <= k < |v.pre|
      ensures '.' !in IdentStrs(v.pre)[k] && '+' !in IdentStrs(v.pre)[k]
    {
      var t := IdentStr(v.pre[k]);
      assert forall j | 0 <= j < |t| :: IsIdentChar(t[j]);
    }
    forall k | 0 <= k < |v.build|
      ensures '.' !in v.build[k] && '+' !in v.build[k]
    {
      assert IsBuildIdent(v.build[k]);
    }
  }

  lemma PreOfFormat(v: Version)
    requires WellFormed(v)
    ensures PreStr(v).Some? ==> ParseIdentifiers(Split(PreStr(v).value, '.')) == Some(v.pre)
  {
    if v.pre != [] {
      assert "." == ['.'];
      IdentStrsFree(v);
      SplitJoin(IdentStrs(v.pre), '.');
      ParseIdentStrs(v.pre);
    }
  }

  lemma BuildOfFormat(v: Version)
    requires WellFormed(v)
    ensures BuildStr(v).Some? ==> Split(BuildStr(v).value, '.') == v.build
  {
    if v.build != [] {
      assert "." == ['.'];
      IdentStrsFree(v);
      SplitJoin(v.build, '.');
    }
  }

  lemma ParseNumberOf(n: nat)
    requires n < U64Bound
    ensures ParseNumber(NatStr(n)) == Some(n)
  {
    NatStrValue(n);
  }

  lemma ParsePiecesOfFormat(v: Version)
    requires WellFormed(v)
    ensures ParsePieces(CoreStr(v), PreStr(v), BuildStr(v)) == Some(v)
  {
    CoreSplit(v);
    PreOfFormat(v);
    BuildOfFormat(v);
    ParseNumberOf(v.major);
    ParseNumberOf(v.minor);
    ParseNumberOf(v.patch);
  }

  /** Every well-formed version parses back from its canonical spelling. */
  lemma FormatThenParse(v: Version)
    requires WellFormed(v)
    ensures Parse(Format(v)) == Some(v)
  {
    var core, pre, build := CoreStr(v), PreStr(v), BuildStr(v);
    var main := core + (if pre.Some? then ['-'] + pre.value else []);
    FormatPieces(v);
    CoreSplit(v);
    assert '+' !in main by {
      if pre.Some? {
        IdentStrsFree(v);
        JoinFree(IdentStrs(v.pre), ".", '+');
      }
    }
    CutAtOf(main, '+', build);
    CutAtOf(core, '-', pre);
    ParsePiecesOfFormat(v);
  }

  lemma CoreOfPieces(core: string, pre: Option<string>, build: Option<string>)
    requires ParsePieces(core, pre, build).Some?
    ensures var v := ParsePieces(core, pre, build).value;
      CoreStr(v) == core && v.major < U64Bound && v.minor < U64Bound && v.patch < U64Bound
  {
    var v := ParsePieces(core, pre, build).value;
    var nums := Split(core, '.');
    assert |nums| == 3;
    assert v.major == DigitsValue(nums[0]) && v.minor == DigitsValue(nums[1]) && v.patch == DigitsValue(nums[2]);
    ValueNatStr(nums[0]);
    ValueNatStr(nums[1]);
    ValueNatStr(nums[2]);
    JoinSplit(core, '.');
    JoinThree(nums, ".");
  }

  lemma JoinThree(parts: seq<string>, sep: string)
    requires |parts| == 3
    ensures Join(parts, sep) == parts[0] + sep + parts[1] + sep + parts[2]
  {
    var tail := parts[1..];
    assert tail[1..] == [parts[2]];
    assert Join(tail, sep) == parts[1] + sep + parts[2];
  }

  lemma PreOfPieces(core: string, pre: Option<string>, build: Option<string>)
    requires ParsePieces(core, pre, build).Some?
    ensures var v := ParsePieces(core, pre, build).value;
      PreStr(v) == pre && forall k | 0 <= k < |v.pre| :: IdentOk(v.pre[k])
  {
    if pre.Some? {
      assert "." == ['.'];
      ParsedIdentStrs(Split(pre.value, '.'));
      JoinSplit(pre.value, '.');
    }
  }

  lemma BuildOfPieces(core: string, pre: Option<string>, build: Option<string>)
    requires ParsePieces(core, pre, build).Some?
    ensures var v := ParsePieces(core, pre, build).value;
      BuildStr(v) == build && AllBuildIdents(v.build)
  {
    if build.Some? {
      assert "." == ['.'];
      JoinSplit(build.value, '.');
    }
  }

  /** Whatever parses is well formed and is spelled canonically: `Parse` accepts
      exactly the strings `Format` produces. */
  lemma ParseThenFormat(s: string)
    requires Parse(s).Some?
    ensures WellFormed(Parse(s).value)
    ensures Format(Parse(s).value) == s
  {
    var (main, build) := CutAt(s, '+');
    var (core, pre) := CutAt(main, '-');
    var v := ParsePieces(core, pre, build).value;
    CutAtParts(s, '+');
    CutAtParts(main, '-');
    CoreOfPieces(core, pre, build);
    PreOfPieces(core, pre, build);
    BuildOfPieces(core, pre, build);
    FormatPieces(v);
  }

  // ---------------------------------------------------------------------------
  // Precedence (section 11)

  /** `cmp` is a total order: antisymmetric with equality as its `Equal`, and
      transitive. */
  ghost predicate IsTotalOrder<T(!new)>(cmp: (T, T) -> Ordering)
  {
    (forall x, y :: cmp(x, y) == Flip(cmp(y, x))) &&
    (forall x, y :: cmp(x, y) == Equal ==> x == y) &&
    (forall x, y, z :: cmp(x, y) == Less && cmp(y, z) == Less ==> cmp(x, z) == Less)
  }

  /** Lexicographic order of two sequences; a proper prefix comes first. */
  function Lex<T>(a: seq<T>, b: seq<T>, cmp: (T, T) -> Ordering): Ordering
    decreases |a|
  {
    if |a| == 0 then (if |b| == 0 then Equal else Less)
    else if |b| == 0 then Greater
    else if cmp(a[0], b[0]) != Equal then cmp(a[0], b[0])
    else Lex(a[1..], b[1..], cmp)
  }

  function CompareNat(a: nat, b: nat): Ordering
  {
    if a < b then Less else if a == b then Equal else Greater
  }

  /** ASCII order of characters. */
  function CompareChar(a: char, b: char): Ordering
  {
    if a < b then Less else if a == b then Equal else Greater
  }

  /** Identifiers: numeric ones by value, alphanumeric ones in ASCII order, and
      numeric below alphanumeric. */
  function CompareIdent(a: Identifier, b: Identifier): Ordering
  {
    match (a, b)
    case (Numeric(x), Numeric(y)) => CompareNat(x, y)
    case (Numeric(_), AlphaNumeric(_)) => Less
    case (AlphaNumeric(_), Numeric(_)) => Greater
    case (AlphaNumeric(x), AlphaNumeric(y)) => Lex(x, y, CompareChar)
  }

  /** Pre-release parts: no pre-release ranks above any pre-release; otherwise
      identifier by identifier, a shorter list first when it is a prefix. */
  function ComparePre(a: seq<Identifier>, b: seq<Identifier>): Ordering
  {
    if a == [] && b == [] then Equal
    else if a == [] then Greater
    else if b == [] then Less
    else Lex(a, b, CompareIdent)
  }

  /** Version precedence: major, minor, patch numerically, then the pre-release;
      build metadata does not take part. */
  function Compare(v: Version, w: Version): Ordering
  {
    if v.major != w.major then CompareNat(v.major, w.major)
    else if v.minor != w.minor then CompareNat(v.minor, w.minor)
    else if v.patch != w.patch then CompareNat(v.patch, w.patch)
    else ComparePre(v.pre, w.pre)
  }

  /** `v` does not rank above `w`. */
  predicate Le(v: Version, w: Version) { Compare(v, w) != Greater }

  /** Equal precedence: everything but the build metadata agrees. */
  predicate SamePrecedence(v: Version, w: Version)
  {
    v.major == w.major && v.minor == w.minor && v.patch == w.patch && v.pre == w.pre
  }

  lemma {:induction false} LexFlip<T(!new)>(a: seq<T>, b: seq<T>, cmp: (T, T) -> Ordering)
    requires IsTotalOrder(cmp)
    ensures Lex(a, b, cmp) == Flip(Lex(b, a, cmp))
    decreases |a|
  {
    if |a| > 0 && |b| > 0 {
      assert cmp(a[0], b[0]) == Flip(cmp(b[0], a[0]));
      if cmp(a[0], b[0]) == Equal {
        LexFlip(a[1..], b[1..], cmp);
      }
    }
  }

  lemma {:induction false} LexEqual<T(!new)>(a: seq<T>, b: seq<T>, cmp: (T, T) -> Ordering)
    requires IsTotalOrder(cmp)
    ensures Lex(a, b, cmp) == Equal <==> a == b
    decreases |a|
  {
    if |a| > 0 && |b| > 0 {
      assert cmp(a[0], a[0]) == Flip(cmp(a[0], a[0]));
      LexEqual(a[1..], b[1..], cmp);
      if cmp(a[0], b[0]) == Equal {
        assert a[0] == b[0];
        assert a == [a[0]] + a[1..] && b == [b[0]] + b[1..];
      } else {
        assert a[0] != b[0];
      }
    }
  }

  lemma {:induction false} LexTrans<T(!new)>(a: seq<T>, b: seq<T>, c: seq<T>, cmp: (T, T) -> Ordering)
    requires IsTotalOrder(cmp)
    requires Lex(a, b, cmp) == Less && Lex(b, c, cmp) == Less
    ensures Lex(a, c, cmp) == Less
    decreases |a|
  {
    if |a| > 0 {
      var x, y := cmp(a[0], b[0]), cmp(b[0], c[0]);
      if x == Equal && y == Equal {
        assert a[0] == b[0] == c[0];
        LexTrans(a[1..], b[1..], c[1..], cmp);
      } else if x == Equal {
        assert a[0] == b[0];
      } else if y == Equal {
        assert b[0] == c[0];
      }
    }
  }

  lemma CharOrder()
    ensures IsTotalOrder(CompareChar)
  {
  }

  lemma IdentOrder()
    ensures IsTotalOrder(CompareIdent)
  {
    CharOrder();
    forall x: Identifier, y: Identifier
      ensures CompareIdent(x, y) == Flip(CompareIdent(y, x))
    {
      if x.AlphaNumeric? && y.AlphaNumeric? {
        LexFlip(x.s, y.s, CompareChar);
      }
    }
    forall x: Identifier, y: Identifier | CompareIdent(x, y) == Equal
      ensures x == y
    {
      if x.AlphaNumeric? && y.AlphaNumeric? {
        LexEqual(x.s, y.s, CompareChar);
      }
    }
    forall x: Identifier, y: Identifier, z: Identifier | CompareIdent(x, y) == Less && CompareIdent(y, z) == Less
      ensures CompareIdent(x, z) == Less
    {
      if x.AlphaNumeric? && y.AlphaNumeric? && z.AlphaNumeric? {
        LexTrans(x.s, y.s, z.s, CompareChar);
      }
    }
  }

  lemma PreOrder()
    ensures IsTotalOrder(ComparePre)
  {
    IdentOrder();
    forall x: seq<Identifier>, y: seq<Identifier>
      ensures ComparePre(x, y) == Flip(ComparePre(y, x))
    {
      LexFlip(x, y, CompareIdent);
    }
    forall x: seq<Identifier>, y: seq<Identifier> | ComparePre(x, y) == Equal
      ensures x == y
    {
      LexEqual(x, y, CompareIdent);
    }
    forall x: seq<Identifier>, y: seq<Identifier>, z: seq<Identifier> | ComparePre(x, y) == Less && ComparePre(y, z) == Less
      ensures ComparePre(x, z) == Less
    {
      if x != [] && y != [] && z != [] {
        LexTrans(x, y, z, CompareIdent);
      }
    }
  }

  /** Comparing the other way round gives the opposite answer. */
  lemma CompareFlip(v: Version, w: Version)
    ensures Compare(v, w) == Flip(Compare(w, v))
  {
    PreOrder();
  }

  /** Precedence ties exactly the versions that differ at most in build metadata. */
  lemma CompareEqual(v: Version, w: Version)
    ensures Compare(v, w) == Equal <==> SamePrecedence(v, w)
  {
    PreOrder();
  }

  lemma CompareTrans(u: Version, v: Version, w: Version)
    requires Compare(u, v) == Less && Compare(v, w) == Less
    ensures Compare(u, w) == Less
  {
    PreOrder();
  }

  /** `Le` is a total preorder: any two versions are comparable, and it is transitive. */
  lemma LeTotal(v: Version, w: Version)
    ensures Le(v, w) || Le(w, v)
  {
    CompareFlip(v, w);
  }

  /** Every version is at or below itself. */
  lemma LeRefl(v: Version)
    ensures Le(v, v)
  {
    CompareEqual(v, v);
  }

  lemma LeTrans(u: Version, v: Version, w: Version)
    requires Le(u, v) && Le(v, w)
    ensures Le(u, w)
  {
    CompareEqual(u, v);
    CompareEqual(v, w);
    if Compare(u, v) == Less && Compare(v, w) == Less {
      CompareTrans(u, v, w);
    }
  }
}
