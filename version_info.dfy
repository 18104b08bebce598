/** The version record of one product (a library, an application, a plugin):
    its fields, its validated construction, the views derived from it (the
    dotted number string, the packed 32-bit version number, the display and
    the package strings) and its equality and order. */
module Version {
  import opened Text

  /** An unsigned 8-bit version component. */
  type Byte = b: int | 0 <= b < 256

  /** An unsigned 32-bit integer. */
  type Uint32 = n: int | 0 <= n < 0x1_0000_0000

  /** `~0` converted to an 8-bit component: "patch/build not set". */
  const UNSET: Byte := 255

  /** The message construction fails with when the product name is empty. */
  const EMPTY_PRODUCT_NAME := "VersionInfo product name is empty"

  /** One product's release metadata. `patch` and `build` equal to `UNSET`
      mean that the component is absent. */
  datatype VersionInfo = VersionInfo(
    productName: string,
    productType: string,
    productFile: string,
    major: Byte,
    minor: Byte,
    patch: Byte,
    build: Byte,
    name: string,
    releaseType: string,
    commitId: string)

  /** The outcome of the validating constructor: the record, or the exception
      it throws. */
  datatype Construction = Constructed(info: VersionInfo) | Invalid(message: string)

  /** A record "holds no data" exactly when its product name is empty; an
      empty record is `==` only to empty records and sorts before every
      record that is not empty. */
  predicate IsEmpty(v: VersionInfo)
    ensures IsEmpty(v) <==> |v.productName| == 0
    ensures IsEmpty(v) ==> forall w: VersionInfo :: Equal(v, w) ==> w.productName == []
    ensures IsEmpty(v) ==> forall w: VersionInfo :: w.productName != [] ==> Less(v, w)
  {
    v.productName == []
  }

  /** The default constructor: the empty record with version 0.0 and neither
      patch nor build set. */
  function Default(): (v: VersionInfo)
    ensures IsEmpty(v)
    ensures v.major == 0 && v.minor == 0 && v.patch == UNSET && v.build == UNSET
    ensures v.productType == [] && v.productFile == [] && v.name == []
    ensures v.releaseType == [] && v.commitId == []
  {
    VersionInfo("", "", "", 0, 0, UNSET, UNSET, "", "", "")
  }

  /** The initialising constructor, with the header's default arguments.
      It keeps every argument as given and rejects an empty product name. */
  function Make(productName: string,
                productType: string,
                productFile: string := "",
                major: Byte := 0,
                minor: Byte := 0,
                patch: Byte := UNSET,
                build: Byte := UNSET,
                name: string := "",
                releaseType: string := "",
                commitId: string := ""): (r: Construction)
    ensures r.Invalid? <==> productName == []
    ensures r.Invalid? ==> r.message == EMPTY_PRODUCT_NAME
    ensures r.Constructed? ==> !IsEmpty(r.info)
    ensures r.Constructed? ==>
      r.info == VersionInfo(productName, productType, productFile, major, minor,
                            patch, build, name, releaseType, commitId)
  {
    if productName == [] then Invalid(EMPTY_PRODUCT_NAME)
    else Constructed(VersionInfo(productName, productType, productFile, major, minor,
                                 patch, build, name, releaseType, commitId))
  }

  /** Constructing with only a product name and type gives version "0.0",
      packed as 0, with every optional field empty. */
  lemma MakeDefaults(productName: string, productType: string)
    requires productName != []
    ensures Make(productName, productType).Constructed?
    ensures var v := Make(productName, productType).info;
      v.productFile == [] && v.major == 0 && v.minor == 0 &&
      v.patch == UNSET && v.build == UNSET &&
      v.name == [] && v.releaseType == [] && v.commitId == [] &&
      NumberString(v) == "0.0" && VersionNumber(v) == 0
  {
  }

  // ---------------------------------------------------------------------
  // Number string

  /** The version components the number string shows: major and minor, then
      patch if set, then build if set and patch was shown. */
  function Shown(v: VersionInfo): (c: seq<Byte>)
    ensures 2 <= |c| <= 4 && c[0] == v.major && c[1] == v.minor
    ensures |c| >= 3 <==> v.patch != UNSET
    ensures |c| == 4 <==> v.patch != UNSET && v.build != UNSET
    ensures |c| >= 3 ==> c[2] == v.patch
    ensures |c| == 4 ==> c[3] == v.build
  {
    [v.major, v.minor] +
    (if v.patch != UNSET then [v.patch] + (if v.build != UNSET then [v.build] else []) else [])
  }

  /** The version in dotted form: "maj.min", then ".patch" if patch is set,
      then ".build" if build is set as well; that is, the shown components
      rendered in decimal and joined with dots. */
  function NumberString(v: VersionInfo): (s: string)
    ensures s == Dotted(Shown(v))
  {
    var tail := if v.patch != UNSET then
       "." + Decimal(v.patch) + (if v.build != UNSET then "." + Decimal(v.build) else "")
     else "";
    var c := Shown(v);
    assert c[1..][1..] == c[2..];
    assert v.patch != UNSET && v.build != UNSET ==>
      c[2..][1..] == c[3..] == [v.build] &&
      Dotted(c[2..]) == Decimal(v.patch) + "." + Decimal(v.build);
    assert v.patch != UNSET && v.build == UNSET ==> c[2..] == [v.patch];
    assert v.patch == UNSET ==> c[1..] == [v.minor];
    assert Dotted(c[1..]) == Decimal(v.minor) + tail;
    Decimal(v.major) + "." + Decimal(v.minor) + tail
  }

  /** The number string is made of digits and dots only, 3 to 15 characters. */
  lemma NumberStringCharacters(v: VersionInfo)
    ensures 3 <= |NumberString(v)| <= 15
    ensures forall i :: 0 <= i < |NumberString(v)| ==>
              IsDigit(NumberString(v)[i]) || NumberString(v)[i] == '.'
    ensures NoUpper(NumberString(v))
  {
  }

  /** Splitting the number string at its dots and reading each field as a
      decimal number gives back exactly the shown components. */
  lemma NumberStringRoundTrip(v: VersionInfo)
    ensures var f := Split(NumberString(v), '.');
      |f| == |Shown(v)| &&
      forall i :: 0 <= i < |f| ==> AllDigits(f[i]) && DigitsValue(f[i]) == Shown(v)[i]
  {
    var c := Shown(v);
    SplitDotted(c);
    forall i | 0 <= i < |c|
      ensures DigitsValue(Decimal(c[i])) == c[i]
    {
      DecimalRoundTrip(c[i]);
    }
  }

  /** Two records show the same number string exactly when they show the same
      components; in particular an unset patch hides the build number. */
  lemma NumberStringInjective(v: VersionInfo, w: VersionInfo)
    ensures NumberString(v) == NumberString(w) <==> Shown(v) == Shown(w)
  {
    if NumberString(v) == NumberString(w) {
      NumberStringRoundTrip(v);
      NumberStringRoundTrip(w);
      var f := Split(NumberString(v), '.');
      assert forall i :: 0 <= i < |f| ==> Shown(v)[i] == Shown(w)[i];
    }
  }

  /** The number strings of the documented examples. */
  lemma NumberStringExamples()
    ensures NumberString(VersionInfo("P", "", "", 1, 2, UNSET, UNSET, "", "", "")) == "1.2"
    ensures NumberString(VersionInfo("P", "", "", 1, 2, 3, UNSET, "", "", "")) == "1.2.3"
    ensures NumberString(VersionInfo("P", "", "", 1, 2, 3, 4, "", "", "")) == "1.2.3.4"
    ensures NumberString(VersionInfo("P", "", "", 1, 2, UNSET, 4, "", "", "")) == "1.2"
  {
  }

  // ---------------------------------------------------------------------
  // Packed version number

  /** The patch component as packed: 0 when unset. */
  function EffectivePatch(v: VersionInfo): Byte {
    if v.patch != UNSET then v.patch else 0
  }

  /** The build component as packed: 0 when unset. */
  function EffectiveBuild(v: VersionInfo): Byte {
    if v.build != UNSET then v.build else 0
  }

  /** The four packed components, most significant first. */
  function Packed(v: VersionInfo): seq<int> {
    [v.major, v.minor, EffectivePatch(v), EffectiveBuild(v)]
  }

  lemma PackStep(q: int, d: int)
    requires 0 <= q && 0 <= d < 256
    ensures (q * 256 + d) / 256 == q && (q * 256 + d) % 256 == d
  {
  }

  /** The four components, one byte each: major in bits 24-31, minor in bits
      16-23, patch in bits 8-15 and build in bits 0-7, an unset patch or build
      contributing 0. */
  function VersionNumber(v: VersionInfo): (n: Uint32)
    ensures n % 256 == EffectiveBuild(v)
    ensures n / 256 % 256 == EffectivePatch(v)
    ensures n / 256 / 256 % 256 == v.minor
    ensures n / 256 / 256 / 256 == v.major
  {
    var n := v.major * 0x100_0000 + v.minor * 0x1_0000 +
             (if v.patch != UNSET then v.patch * 0x100 else 0) +
             (if v.build != UNSET then v.build else 0);
    PackStep(v.major, v.minor);
    PackStep(v.major * 256 + v.minor, EffectivePatch(v));
    PackStep((v.major * 256 + v.minor) * 256 + EffectivePatch(v), EffectiveBuild(v));
    n
  }

  /** Two records pack to the same number exactly when their packed components
      agree. */
  lemma VersionNumberInjective(v: VersionInfo, w: VersionInfo)
    ensures VersionNumber(v) == VersionNumber(w) <==> Packed(v) == Packed(w)
  {
    if Packed(v) == Packed(w) {
      assert VersionNumber(v) == VersionNumber(w);
    }
  }

  /** The packing is lossy: an unset patch (or build) packs like a zero one. */
  lemma VersionNumberLossy(v: VersionInfo)
    ensures VersionNumber(v.(patch := 0)) == VersionNumber(v.(patch := UNSET))
    ensures VersionNumber(v.(build := 0)) == VersionNumber(v.(build := UNSET))
    ensures v.(patch := 0) != v.(patch := UNSET)
  {
  }

  /** The packed numbers of the documented examples. */
  lemma VersionNumberExamples()
    ensures VersionNumber(VersionInfo("P", "", "", 1, 2, 3, 4, "", "", "")) == 0x0102_0304
    ensures VersionNumber(VersionInfo("P", "", "", 1, 2, UNSET, UNSET, "", "", "")) == 0x0102_0000
  {
  }

  /** Lexicographic order on equally long sequences of numbers. */
  predicate LexLess(x: seq<int>, y: seq<int>)
    requires |x| == |y|
  {
    exists k :: 0 <= k < |x| && x[..k] == y[..k] && x[k] < y[k]
  }

  lemma DigitOrder(q1: int, d1: int, q2: int, d2: int)
    requires 0 <= q1 && 0 <= q2 && 0 <= d1 < 256 && 0 <= d2 < 256
    ensures q1 * 256 + d1 < q2 * 256 + d2 <==> q1 < q2 || (q1 == q2 && d1 < d2)
  {
  }

  /** Comparing packed numbers compares the packed components
      lexicographically, major first. */
  lemma VersionNumberOrder(v: VersionInfo, w: VersionInfo)
    ensures VersionNumber(v) < VersionNumber(w) <==> LexLess(Packed(v), Packed(w))
  {
    var a, b := Packed(v), Packed(w);
    DigitOrder(a[0], a[1], b[0], b[1]);
    DigitOrder(a[0] * 256 + a[1], a[2], b[0] * 256 + b[1], b[2]);
    DigitOrder((a[0] * 256 + a[1]) * 256 + a[2], a[3], (b[0] * 256 + b[1]) * 256 + b[2], b[3]);
    if VersionNumber(v) < VersionNumber(w) {
      var k := if a[0] != b[0] then 0 else if a[1] != b[1] then 1 else if a[2] != b[2] then 2 else 3;
      assert a[..k] == b[..k] && a[k] < b[k];
    }
    if LexLess(a, b) {
      var k :| 0 <= k < 4 && a[..k] == b[..k] && a[k] < b[k];
      assert k > 0 ==> a[0] == a[..k][0] == b[..k][0] == b[0];
      assert k > 1 ==> a[1] == a[..k][1] == b[..k][1] == b[1];
      assert k > 2 ==> a[2] == a[..k][2] == b[..k][2] == b[2];
    }
  }

  // The packing as the C++ expression computes it: each uint8_t operand is
  // promoted to a 32-bit signed int, `major << 24` wraps into the sign bit
  // for a major of 128 or more, the sum is formed in int and the result is
  // converted to uint32_t modulo 2^32.

  /** Two's-complement reinterpretation of the low 32 bits of `x`. */
  function Int32(x: int): int {
    var m := x % 0x1_0000_0000;
    if m >= 0x8000_0000 then m - 0x1_0000_0000 else m
  }

  /** The int-typed sum the expression builds before the conversion. */
  function SignedSum(v: VersionInfo): int {
    Int32(v.major * 0x100_0000) + v.minor * 0x1_0000 +
    (if v.patch != UNSET then v.patch * 0x100 else 0) +
    (if v.build != UNSET then v.build else 0)
  }

  /** The int sum never leaves the 32-bit signed range, and converting it to
      an unsigned 32-bit value gives exactly the packed number. */
  lemma SignedArithmeticAgrees(v: VersionInfo)
    ensures -0x8000_0000 <= SignedSum(v) < 0x8000_0000
    ensures SignedSum(v) % 0x1_0000_0000 == VersionNumber(v)
  {
    var hi := v.major * 0x100_0000;
    var rest := SignedSum(v) - Int32(hi);
    assert 0 <= rest < 0x100_0000;
    if v.major >= 128 {
      assert Int32(hi) == hi - 0x1_0000_0000;
    } else {
      assert Int32(hi) == hi;
    }
  }

  // ---------------------------------------------------------------------
  // Build configuration and the composite strings

  /** The label of the configuration the library was compiled in:
      `debugDefined` says whether DEBUG or _DEBUG was defined. */
  function BuildConfiguration(debugDefined: bool): (s: string)
    ensures s == "Debug" <==> debugDefined
    ensures s == "Debug" || s == "Optimized"
  {
    if debugDefined then "Debug" else "Optimized"
  }

  /** The segment naming the release, present only for a non-empty name. */
  function NameSegment(name: string): string {
    if name == [] then "" else "(" + name + ") "
  }

  /** "<product> <number> [(<name>) ]<release type> <configuration>", the
      configuration label lower-cased and everything else verbatim. */
  function DisplayString(v: VersionInfo, debugDefined: bool): (s: string)
    ensures |s| == |v.productName| + |NumberString(v)| + |v.releaseType| +
                   |BuildConfiguration(debugDefined)| + 3 +
                   (if v.name == [] then 0 else |v.name| + 3)
    ensures s[..|v.productName|] == v.productName
  {
    v.productName + " " + NumberString(v) + " " + NameSegment(v.name) +
    v.releaseType + " " + ToLower(BuildConfiguration(debugDefined))
  }

  /** The display string is unchanged by dropping the name exactly when the
      name is empty. */
  lemma DisplayStringNameOmitted(v: VersionInfo, debugDefined: bool)
    ensures DisplayString(v, debugDefined) == DisplayString(v.(name := []), debugDefined)
            <==> v.name == []
  {
    assert NumberString(v.(name := [])) == NumberString(v);
  }

  /** A non-empty name appears verbatim, in parentheses, right after the number
      string and its separating space. */
  lemma DisplayStringNameVerbatim(v: VersionInfo, debugDefined: bool)
    requires v.name != []
    ensures var k := |v.productName| + |NumberString(v)| + 2;
      DisplayString(v, debugDefined)[k..k + |v.name| + 3] == "(" + v.name + ") "
  {
    var head := v.productName + " " + NumberString(v) + " ";
    var segment := "(" + v.name + ") ";
    var rest := v.releaseType + " " + ToLower(BuildConfiguration(debugDefined));
    assert DisplayString(v, debugDefined) == head + segment + rest;
    assert (head + segment + rest)[|head|..|head| + |segment|] == segment;
  }

  /** Type, file, commit and a build number hidden by an unset patch do not
      show in the display string. */
  lemma DisplayStringIgnores(v: VersionInfo, debugDefined: bool,
                             productType: string, productFile: string,
                             commitId: string, build: Byte)
    ensures DisplayString(v.(productType := productType, productFile := productFile,
                             commitId := commitId), debugDefined)
            == DisplayString(v, debugDefined)
    ensures v.patch == UNSET ==>
      DisplayString(v.(build := build), debugDefined) == DisplayString(v, debugDefined)
  {
  }

  /** "<product>-<number><release type>-<configuration>" with the product,
      the release type and the configuration lower-cased; nothing separates
      the number string from the release type. */
  function PackageString(v: VersionInfo, debugDefined: bool): (s: string)
    ensures |s| == |v.productName| + |NumberString(v)| + |v.releaseType| +
                   |BuildConfiguration(debugDefined)| + 2
    ensures NoUpper(s)
    ensures s[..|v.productName| + 1] == ToLower(v.productName) + "-"
  {
    var lowerName := ToLower(v.productName);
    var lowerRelease := ToLower(v.releaseType);
    var lowerConfig := ToLower(BuildConfiguration(debugDefined));
    NumberStringCharacters(v);
    NoUpperAppend(lowerName, "-");
    NoUpperAppend(lowerName + "-", NumberString(v));
    NoUpperAppend(lowerName + "-" + NumberString(v), lowerRelease);
    NoUpperAppend(lowerName + "-" + NumberString(v) + lowerRelease, "-");
    NoUpperAppend(lowerName + "-" + NumberString(v) + lowerRelease + "-", lowerConfig);
    lowerName + "-" + NumberString(v) + lowerRelease + "-" + lowerConfig
  }

  /** The package string does not depend on the letter case of the product
      name or of the release type. */
  lemma PackageStringIgnoresCase(v: VersionInfo, debugDefined: bool)
    ensures PackageString(v, debugDefined) ==
            PackageString(v.(productName := ToLower(v.productName),
                             releaseType := ToLower(v.releaseType)), debugDefined)
  {
    ToLowerIdempotent(v.productName);
    ToLowerIdempotent(v.releaseType);
  }

  /** The lower-cased configuration labels. */
  lemma LowerBuildConfiguration(debugDefined: bool)
    ensures ToLower(BuildConfiguration(debugDefined)) ==
            if debugDefined then "debug" else "optimized"
  {
    ToLowerAt(BuildConfiguration(debugDefined));
  }

  /** Without a name the display string is "<product> <number> <release type>
      debug" or "... optimized" (so "Foo 1.0 Beta optimized" for product Foo,
      version 1.0, release type Beta in an optimized build). */
  lemma DisplayStringWithoutName(v: VersionInfo, debugDefined: bool)
    requires v.name == []
    ensures DisplayString(v, debugDefined) ==
            v.productName + " " + NumberString(v) + " " + v.releaseType + " " +
            (if debugDefined then "debug" else "optimized")
  {
    LowerBuildConfiguration(debugDefined);
  }

  /** With a name the display string is "<product> <number> (<name>)
      <release type> debug" or "... optimized". */
  lemma DisplayStringWithName(v: VersionInfo, debugDefined: bool)
    requires v.name != []
    ensures DisplayString(v, debugDefined) ==
            v.productName + " " + NumberString(v) + " (" + v.name + ") " + v.releaseType + " " +
            (if debugDefined then "debug" else "optimized")
  {
    var number, config := NumberString(v), ToLower(BuildConfiguration(debugDefined));
    LowerBuildConfiguration(debugDefined);
    assert DisplayString(v, debugDefined) ==
           v.productName + " " + number + " " + ("(" + v.name + ") ") + v.releaseType + " " + config;
    assert " " + ("(" + v.name + ") ") == " (" + v.name + ") ";
  }

  /** In the package string the lower-cased release type follows the number
      string with no separator, and the string ends in "-debug" or
      "-optimized". */
  lemma PackageStringLayout(v: VersionInfo, debugDefined: bool)
    ensures var s := PackageString(v, debugDefined);
      var k := |v.productName| + 1;
      var m := k + |NumberString(v)| + |v.releaseType|;
      s[k..m] == NumberString(v) + ToLower(v.releaseType) &&
      s[m..] == "-" + (if debugDefined then "debug" else "optimized")
  {
    var head := ToLower(v.productName) + "-";
    var middle := NumberString(v) + ToLower(v.releaseType);
    var tail := "-" + ToLower(BuildConfiguration(debugDefined));
    LowerBuildConfiguration(debugDefined);
    assert PackageString(v, debugDefined) == head + middle + tail;
    assert (head + middle + tail)[|head|..|head| + |middle|] == middle;
    assert (head + middle + tail)[|head| + |middle|..] == tail;
  }

  // ---------------------------------------------------------------------
  // Equality and order

  /** `==`: product name, type and file, packed version number, name and
      release type agree. The commit id is not compared. (The source also
      compares the two build-configuration labels, but both come from the
      same compiled code, so that comparison always holds.) Two records are
      equal exactly when their normalized forms are identical. */
  predicate Equal(a: VersionInfo, b: VersionInfo)
    ensures Equal(a, b) <==> Normalized(a) == Normalized(b)
  {
    VersionNumberInjective(a, b);
    a.productName == b.productName &&
    a.productType == b.productType &&
    a.productFile == b.productFile &&
    VersionNumber(a) == VersionNumber(b) &&
    a.name == b.name &&
    a.releaseType == b.releaseType
  }

  /** `!=` is the negation of `==`: the normalized forms differ. */
  predicate NotEqual(a: VersionInfo, b: VersionInfo)
    ensures NotEqual(a, b) <==> Normalized(a) != Normalized(b)
  {
    !Equal(a, b)
  }

  /** What equality sees of a record: the commit id dropped, unset patch and
      build replaced by the 0 they pack to. */
  function Normalized(v: VersionInfo): VersionInfo {
    v.(patch := EffectivePatch(v), build := EffectiveBuild(v), commitId := [])
  }

  /** `==` is an equivalence relation and `!=` its complement. */
  lemma EqualIsEquivalence(a: VersionInfo, b: VersionInfo, c: VersionInfo)
    ensures Equal(a, a) && !NotEqual(a, a)
    ensures Equal(a, b) ==> Equal(b, a)
    ensures Equal(a, b) && Equal(b, c) ==> Equal(a, c)
    ensures NotEqual(a, b) <==> !Equal(a, b)
  {
  }

  /** Records differing only in their commit id are equal. */
  lemma EqualIgnoresCommitId(v: VersionInfo, commitId: string)
    ensures Equal(v, v.(commitId := commitId))
  {
  }

  /** Equal records need not look the same: an unset patch and a zero patch
      are equal but print different number strings. */
  lemma EqualDoesNotFixNumberString()
    ensures var a := VersionInfo("Foo", "App", "", 1, 2, 0, UNSET, "", "", "");
            var b := VersionInfo("Foo", "App", "", 1, 2, UNSET, UNSET, "", "", "");
            Equal(a, b) && NumberString(a) != NumberString(b)
  {
    var a := VersionInfo("Foo", "App", "", 1, 2, 0, UNSET, "", "", "");
    var b := VersionInfo("Foo", "App", "", 1, 2, UNSET, UNSET, "", "", "");
    assert NumberString(a) == "1.2.0";
    assert NumberString(b) == "1.2";
  }

  /** `<`: by product name when the names differ, otherwise by the packed
      components, major first; a record never sorts before one it is `==`
      to. */
  predicate Less(a: VersionInfo, b: VersionInfo)
    ensures Less(a, b) <==>
            if a.productName == b.productName then LexLess(Packed(a), Packed(b))
            else StrLess(a.productName, b.productName)
    ensures Less(a, b) ==> !Equal(a, b)
  {
    VersionNumberOrder(a, b);
    if a.productName == b.productName then VersionNumber(a) < VersionNumber(b)
    else StrLess(a.productName, b.productName)
  }

  /** `<` is a strict order: irreflexive, asymmetric and transitive. */
  lemma LessIsStrictOrder(a: VersionInfo, b: VersionInfo, c: VersionInfo)
    ensures !Less(a, a)
    ensures Less(a, b) ==> !Less(b, a)
    ensures Less(a, b) && Less(b, c) ==> Less(a, c)
  {
    StrLessIrreflexive(a.productName);
    if Less(a, b) && a.productName != b.productName {
      StrLessAsymmetric(a.productName, b.productName);
    }
    if Less(a, b) && Less(b, c) {
      if a.productName != b.productName && b.productName != c.productName {
        StrLessTransitive(a.productName, b.productName, c.productName);
        if a.productName == c.productName {
          StrLessAsymmetric(a.productName, b.productName);
        }
      }
    }
  }

  /** Neither record sorts before the other exactly when they have the same
      product name and the same packed number; so equal records are
      unordered, and so are some unequal ones. */
  lemma LessIncomparable(a: VersionInfo, b: VersionInfo)
    ensures !Less(a, b) && !Less(b, a) <==>
            a.productName == b.productName && VersionNumber(a) == VersionNumber(b)
    ensures Equal(a, b) ==> !Less(a, b) && !Less(b, a)
  {
    if a.productName != b.productName {
      StrLessTotal(a.productName, b.productName);
    }
  }

  /** Different product names decide the order whatever the versions; within
      one product name the higher packed number sorts later. */
  lemma LessExamples(a: VersionInfo, b: VersionInfo)
    ensures a.productName == "A" && b.productName == "B" ==> Less(a, b) && !Less(b, a)
    ensures a.productName == b.productName && VersionNumber(a) < VersionNumber(b) ==>
            Less(a, b) && !Less(b, a)
  {
  }
}
