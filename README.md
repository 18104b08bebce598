# CFrame version catalogue, modelled in Dafny

This project models the version-metadata component of the CFrame libraries
(`libs/cframe/version`). It has two parts.

**`cframe::VersionInfo`, a value type.** Each record describes one product's release:
- the product name, type and file;
- four 8-bit version components (major, minor, patch, build), where 255 in
  patch or build means "not set";
- a release name, a release type and a commit id.

The validating constructor rejects an empty product name. The record has four
derived views:
- the dotted number string;
- the packed 32-bit version number;
- the display string;
- the package string.

It also defines `==`, `!=` and `<`.

**The catalogue.** This is a process-wide, insertion-ordered vector of records
with these operations:
- registration, which refuses a record `==`-equal to one already present;
- enumeration of all records;
- the list of product names;
- first-match lookup by product name, which returns an empty record when
  nothing matches.

The `CFRAME_DEFINE_GET_VERSION_INFO` macro lets a product register its own
record during static initialisation.

Files:
- `text.dfy` (module `Text`) holds the string helpers the views rely on. These
  are ASCII lower-casing and decimal rendering of small integers, with a parser
  for decimal strings. There is also splitting at a separator, used to state
  the round trip of the number string, and the lexicographic order of
  `std::string`.
- `version_info.dfy` (module `Version`) holds the record, its constructors,
  its views, and `==`, `!=` and `<`, with the lemmas about them.
- `registry.dfy` (module `Registry`) holds the catalogue. It is a value-level
  specification over `seq<VersionInfo>`, and class `VersionRegistry` keeps the
  vector as a field that its methods update. It also holds `Find`, the linear
  search `std::find` performs. Class `StaticVersionInfo` models what the
  registration macro defines for one product.

Modelling choices:
- `uint8_t` becomes the subset type `Byte` (0..255). The sentinel `~0` becomes
  `UNSET == 255`.
- The packed number is an unbounded integer, proved to be below 2^32.
  `SignedArithmeticAgrees` models the C++ expression as written: the operands
  are promoted to 32-bit `int`, and `major << 24` enters the sign bit when
  major is 128 or more. The lemma proves that the `int` sum never overflows
  and that converting it to `uint32_t` gives the packed number.
- The build configuration is fixed at compile time (`DEBUG`/`_DEBUG`), so it
  becomes the parameter `debugDefined` of the views that print it.
- The constructor's exception becomes the `Invalid` case of the `Construction`
  result, carrying the source's message.
- The singleton vector becomes an explicit `VersionRegistry` object. Its
  constructor creates the empty catalogue that the singleton creates lazily.
- `getRegisteredVersionInfo` and `products` keep their index loops.
  `registerVersionInfo` keeps its search followed by an append.

Registration does not check for emptiness: a default-constructed (empty)
record can be registered. Lookup for the empty name can then find it, so
`Registry.LookupEmpty` says the result is empty exactly when the name asked
for is empty or is not registered.

## Model

| member | source | states |
|---|---|---|
| `Text.LowerChar` | libs/cframe/version/VersionInfo.cpp:106 | only 'A'..'Z' change, each to the letter 32 code points above; the result is never upper case |
| `Text.ToLower` | libs/cframe/version/VersionInfo.cpp:115-117 | the lower-cased copy has the same length as the input and contains no upper-case ASCII letter |
| `Text.ToLowerAt` | libs/cframe/version/VersionInfo.cpp:115-117 | character i of the copy is character i of the input, lower-cased |
| `Text.ToLowerIdempotent` | libs/cframe/version/VersionInfo.cpp:115-117 | lower-casing twice equals lower-casing once |
| `Text.ToLowerOfLower` | libs/cframe/version/VersionInfo.cpp:115-117 | a string without upper-case letters is left unchanged |
| `Text.ToLowerAppend` | libs/cframe/version/VersionInfo.cpp:115-117 | lower-casing a concatenation gives the concatenation of the lower-cased parts |
| `Text.NoUpperAppend` | libs/cframe/version/VersionInfo.cpp:115-117 | concatenating two strings without upper-case letters gives a string without upper-case letters |
| `Text.DigitChar` | libs/cframe/version/VersionInfo.cpp:125 | each digit value maps to the digit character of that value |
| `Text.Decimal` | libs/cframe/version/VersionInfo.cpp:125-130 | an `int` prints as one or more digits with no leading zero except for 0 itself, and as at most 3 digits below 256 |
| `Text.DecimalRoundTrip` | libs/cframe/version/VersionInfo.cpp:125-130 | reading the printed digits back gives the printed number |
| `Text.DecimalInjective` | libs/cframe/version/VersionInfo.cpp:125-130 | different numbers print differently |
| `Text.Split` | libs/cframe/version/VersionInfo.cpp:125-130 | splitting at '.' always yields at least one field; used to read the dotted form back |
| `Text.SplitFree` | libs/cframe/version/VersionInfo.cpp:125-130 | a string containing no '.' is a single field |
| `Text.SplitCons` | libs/cframe/version/VersionInfo.cpp:125-130 | a dot-free field, then '.', then a rest splits into that field followed by the fields of the rest |
| `Text.SplitDotted` | libs/cframe/version/VersionInfo.cpp:125-130 | splitting dot-joined decimal renderings gives back each rendering, in order |
| `Text.StrLess` | libs/cframe/version/VersionInfo.cpp:223 | the string order holds exactly when the first name is a proper prefix of the second, or has the smaller character at the first position where they differ |
| `Text.StrLessIrreflexive` | libs/cframe/version/VersionInfo.cpp:223 | no product name sorts before itself |
| `Text.StrLessAsymmetric` | libs/cframe/version/VersionInfo.cpp:223 | if a name sorts before another, the other does not sort before it |
| `Text.StrLessTransitive` | libs/cframe/version/VersionInfo.cpp:223 | the string order on product names is transitive |
| `Text.StrLessTotal` | libs/cframe/version/VersionInfo.cpp:223 | of two different names, one sorts before the other |
| `Version.IsEmpty` | libs/cframe/version/VersionInfo.cpp:88-92 | a record is empty exactly when its product name has length 0; an empty record is `==` only to records with an empty product name, and sorts before every record whose product name is not empty |
| `Version.Default` | libs/cframe/version/VersionInfo.cpp:44-56 | the default record is empty (`IsEmpty`), has version 0.0 with patch and build unset, and has every text field empty |
| `Version.Make` | libs/cframe/version/VersionInfo.cpp:58-82 | construction fails, with the source's message, exactly when the product name is empty; otherwise the record holds the arguments unchanged and is not empty |
| `Version.MakeDefaults` | libs/cframe/version/VersionInfo.hpp:42-51 | with only name and type given, the defaults are an empty file, 0.0, unset patch and build, and empty name, release type and commit id; this prints as "0.0" and packs to 0 |
| `Version.Shown` | libs/cframe/version/VersionInfo.cpp:125-132 | the shown components are major and minor, then patch iff it is set, then build iff both patch and build are set |
| `Version.NumberString` | libs/cframe/version/VersionInfo.cpp:121-135 | the number string is the shown components in decimal, joined by dots |
| `Version.NumberStringCharacters` | libs/cframe/version/VersionInfo.cpp:121-135 | the number string is 3 to 15 characters long, all digits or dots |
| `Version.NumberStringRoundTrip` | libs/cframe/version/VersionInfo.cpp:121-135 | splitting the number string at its dots and reading each field back gives exactly the shown components |
| `Version.NumberStringInjective` | libs/cframe/version/VersionInfo.cpp:127-132 | two records print the same number string iff they show the same components, so a build behind an unset patch is never printed |
| `Version.NumberStringExamples` | libs/cframe/version/VersionInfo.cpp:121-135 | (1,2,unset,unset) gives "1.2"; (1,2,3,unset) gives "1.2.3"; (1,2,3,4) gives "1.2.3.4"; (1,2,unset,4) gives "1.2" |
| `Version.VersionNumber` | libs/cframe/version/VersionInfo.cpp:137-145 | the packed number is below 2^32; its bytes from the top are major, minor, patch and build, with an unset patch or build packed as 0 |
| `Version.VersionNumberInjective` | libs/cframe/version/VersionInfo.cpp:137-145 | two records pack to the same number iff their packed components agree |
| `Version.VersionNumberLossy` | libs/cframe/version/VersionInfo.cpp:142-143 | an unset patch (or build) packs like a zero one, although the records differ |
| `Version.VersionNumberExamples` | libs/cframe/version/VersionInfo.cpp:137-145 | (1,2,3,4) packs to 0x01020304; (1,2,unset,unset) packs to 0x01020000 |
| `Version.VersionNumberOrder` | libs/cframe/version/VersionInfo.cpp:137-145 | comparing packed numbers compares (major, minor, patch, build) lexicographically |
| `Version.SignedArithmeticAgrees` | libs/cframe/version/VersionInfo.cpp:140-144 | the C++ sum built in 32-bit `int` never overflows, and converting it to `uint32_t` gives the packed number |
| `Version.BuildConfiguration` | libs/cframe/version/VersionInfo.cpp:147-155 | the label is "Debug" exactly when DEBUG or _DEBUG is defined, and "Optimized" otherwise |
| `Version.LowerBuildConfiguration` | libs/cframe/version/VersionInfo.cpp:105-106 | the lower-cased label is "debug" or "optimized" |
| `Version.DisplayString` | libs/cframe/version/VersionInfo.cpp:94-109 | the display string starts with the product name, and its length counts the name segment only when the name is non-empty |
| `Version.DisplayStringNameOmitted` | libs/cframe/version/VersionInfo.cpp:101-103 | dropping the name leaves the display string unchanged iff the name is empty |
| `Version.DisplayStringNameVerbatim` | libs/cframe/version/VersionInfo.cpp:101-103 | a non-empty name appears verbatim as "(name) " right after the number string and its space |
| `Version.DisplayStringIgnores` | libs/cframe/version/VersionInfo.cpp:94-109 | type, file, commit id, and a build number hidden by an unset patch do not affect the display string |
| `Version.DisplayStringWithoutName` | libs/cframe/version/VersionInfo.cpp:94-109 | with no name, the display string is "product number releaseType debug" or "... optimized" |
| `Version.DisplayStringWithName` | libs/cframe/version/VersionInfo.cpp:94-109 | with a name, the display string is "product number (name) releaseType debug" or "... optimized" |
| `Version.PackageString` | libs/cframe/version/VersionInfo.cpp:111-119 | the package string has no upper-case letter, starts with the lower-cased product name and '-', and has the length of its five parts plus two dashes |
| `Version.PackageStringIgnoresCase` | libs/cframe/version/VersionInfo.cpp:115-116 | the letter case of the product name and of the release type does not affect the package string |
| `Version.PackageStringLayout` | libs/cframe/version/VersionInfo.cpp:115-117 | the lower-cased release type directly follows the number string, with no separator, and the string ends in "-debug" or "-optimized" |
| `Version.Equal` | libs/cframe/version/VersionInfo.cpp:201-210 | `==` holds iff the records are identical once the commit id is dropped and an unset patch or build is read as 0 |
| `Version.NotEqual` | libs/cframe/version/VersionInfo.cpp:212-216 | `!=` holds iff the records still differ once the commit id is dropped and an unset patch or build is read as 0 |
| `Version.EqualIsEquivalence` | libs/cframe/version/VersionInfo.cpp:201-216 | `==` is reflexive, symmetric and transitive, and `!=` is its negation |
| `Version.EqualIgnoresCommitId` | libs/cframe/version/VersionInfo.cpp:204-209 | records that differ only in the commit id are equal |
| `Version.EqualDoesNotFixNumberString` | libs/cframe/version/VersionInfo.cpp:207 | equal records can print different number strings (patch 0 against patch unset) |
| `Version.Less` | libs/cframe/version/VersionInfo.cpp:218-224 | with the same product name, `<` compares (major, minor, patch, build) lexicographically with unset parts as 0; otherwise it compares the product names as strings; a record is never `<` a record it is `==` to |
| `Version.LessIsStrictOrder` | libs/cframe/version/VersionInfo.cpp:218-224 | `<` is irreflexive, asymmetric and transitive |
| `Version.LessIncomparable` | libs/cframe/version/VersionInfo.cpp:218-224 | neither record is `<` the other iff they have the same product name and the same packed number; equal records are unordered |
| `Version.LessExamples` | libs/cframe/version/VersionInfo.cpp:221-223 | "A" sorts before "B" whatever the versions; with one product name, the higher packed number sorts later |
| `Registry.Registered` | libs/cframe/version/VersionInfo.cpp:187-199 | registering keeps the earlier entries in place and adds at most one entry, at the end; it adds one iff no equal record was present; an equal entry is present afterwards; uniqueness is preserved |
| `Registry.RegisterIdempotent` | libs/cframe/version/VersionInfo.hpp:174-176 | registering a record equal to one just registered changes nothing |
| `Registry.RegisterIgnoresCommitId` | libs/cframe/version/VersionInfo.cpp:191-195 | registering a record and then a copy with another commit id leaves exactly one new entry |
| `Registry.ProductNames` | libs/cframe/version/VersionInfo.cpp:163-172 | the product names have the same length and order as the records |
| `Registry.ProductNamesRegistered` | libs/cframe/version/VersionInfo.cpp:163-172 | registering appends the record's product name to the list iff it appends the record |
| `Registry.Lookup` | libs/cframe/version/VersionInfo.cpp:174-185 | lookup gives the first entry with the requested name, or the empty default record when no entry has it |
| `Registry.LookupEmpty` | libs/cframe/version/VersionInfo.cpp:174-185 | the lookup result is empty iff the requested name is empty or no entry has it |
| `Registry.LookupAppend` | libs/cframe/version/VersionInfo.cpp:178-182 | appending an entry does not change a lookup that already succeeds |
| `Registry.LookupStable` | libs/cframe/version/VersionInfo.cpp:178-199 | registering never changes what a successful lookup finds |
| `Registry.Find` | libs/cframe/version/VersionInfo.cpp:191-192 | the search returns the index of the first `==`-equal entry, or the length when none is equal |
| `Registry.VersionRegistry.constructor` | libs/cframe/version/VersionInfo.cpp:24-25 | the catalogue starts empty, and an empty catalogue satisfies the uniqueness invariant |
| `Registry.VersionRegistry.RegisterVersionInfo` | libs/cframe/version/VersionInfo.cpp:187-199 | returns true iff no `==`-equal record was registered; the new state is the old sequence plus the record in that case, and unchanged otherwise; uniqueness is kept |
| `Registry.VersionRegistry.VersionInfos` | libs/cframe/version/VersionInfo.cpp:157-161 | returns the whole registered sequence, which has no two equal entries, as an immutable value |
| `Registry.VersionRegistry.Products` | libs/cframe/version/VersionInfo.cpp:163-172 | the index loop returns the product name of every entry, in order |
| `Registry.VersionRegistry.GetRegisteredVersionInfo` | libs/cframe/version/VersionInfo.cpp:174-185 | the loop with early return gives the first entry with the name, or the default record |
| `Registry.StaticVersionInfo.constructor` | libs/cframe/version/VersionInfo.hpp:160-176 | the static record holds the macro's arguments; it is registered once, the flag stores whether it was added, and afterwards the catalogue contains it; the record is not empty |
| `Registry.StaticVersionInfo.Get` | libs/cframe/version/VersionInfo.hpp:160-173 | the accessor returns the static record built from the macro's arguments, and that record is never empty |
| `Registry.StaticVersionInfo.RegisterAgain` | libs/cframe/version/VersionInfo.hpp:174-176 | registering the product's record again, as a second binary sharing the catalogue would, returns false and leaves the catalogue unchanged |

## Left out

- Thread safety: the code takes no lock, so the catalogue is modelled as sequential state.
- The `boost::serialization::singleton` mechanics and the order of static initialisation across modules are not modelled. The catalogue is an explicit object, and each product's registration is one constructor call.
- The exception class `VersionInfoException` is not modelled beyond its message. Construction failure is the `Invalid` result.
- `boost::algorithm::to_lower_copy` depends on the locale. The model lowers ASCII letters only, which is what the classic "C" locale does.
- The `std::ostringstream` machinery is not modelled. Printing an `int` is the pure function `Text.Decimal`.
- Version.Equal: it omits the source's comparison of the two build-configuration labels. Both labels come from the same compiled function, so that comparison is always true.
- Version.VersionNumber: it gives the mathematical value. `SignedArithmeticAgrees` relates it to the 32-bit `int` expression under two's-complement shifts. C++20 defines that result, and C++14 and C++17 leave it implementation-defined, which mainstream compilers define as two's complement. Only C++11 as first published made shifting 128 or more into the sign bit undefined; the model does not cover that.
- Version.DisplayString: its ensures gives only the prefix and the length. The lemmas `DisplayStringWithoutName` and `DisplayStringWithName` state the whole string, with and without a name.
- Literal examples of display and package strings: the general lemmas `DisplayStringWithoutName` and `PackageStringLayout` state them for every record instead.
- The token pasting and stringification of `CFRAME_DEFINE_GET_VERSION_INFO` are not modelled. These include the flag name that does not actually paste the product name, and the stringified type, file, release type and commit id. `StaticVersionInfo` takes the resulting values as arguments.
- An empty first macro argument: `#_productName` then yields `""`, and the record's constructor throws during static initialisation, which ends the program (`std::terminate`). The `StaticVersionInfo` constructor requires a non-empty product name and so excludes this case; `Version.Make` models the throw itself.
- Text encoding: a `std::string` is a sequence of bytes, and the model uses a Dafny `string` of Unicode scalar values. Lengths count characters rather than bytes, and `Text.StrLess` compares code points where `std::string::operator<` compares unsigned bytes. For UTF-8 text the two orders agree.
- Registry.VersionRegistry.VersionInfos: it returns the current catalogue as an immutable snapshot. The source returns a `const &` to the live vector, so a held reference sees later registrations, and a `push_back` can invalidate iterators into it; the model does not capture that aliasing.
- The destructor and the `std::vector` copy semantics: Dafny sequences are values, so the catalogue always stores an independent copy.
- The Qt/OpenSceneGraph sample application and the DLL export macros are not part of this model.
