# Version: a verified model of swift-utilities' semantic version type

This project models the `Version` value type of the Swift package
swift-utilities and its error enum `VersionError`. A `Version` is an immutable
`major.minor[.patch]` triple. It is built in one of two ways:

- a validating initializer `init(_:_:_:)`, which rejects negative components
  and the all-zero version, and checks in a fixed order;
- a string initializer `init(string:)`, which accepts a whole string of the
  form `D+.D+` or `D+.D+.D+` and sends the numbers through the validating
  initializer.

Versions compare with `==` and `<` on `(major, minor, safePatch)`. Here
`safePatch` is the patch, or 0 when it is absent. The `string` property
renders a version back to text.

Files:

- `wrappers.dfy` (module `Wrappers`): `Option` for Swift's `T?` and `Result`
  for a throwing initializer.
- `version_error.dfy` (module `VersionErrors`): the five error cases and
  `errorDescription`.
- `decimal.dfy` (module `Decimal`): Swift's 64-bit `Int` as the subset type
  `Int64`, `Int(_:)` applied to a captured digit group (`ParseInt`), and the
  string interpolation of an `Int` (`IntString`, `NatString`). The contracts
  and lemmas there show that interpolation and `Int(_:)` undo each other.
- `version.dfy` (module `Versions`): the `Version` datatype, the invariant
  `Valid`, `Create` (`init(_:_:_:)`), the whole-string recognizers `Match2` and
  `Match3`, `Parse` (`init(string:)`), `Render` (`string`), `Eq` (`==`),
  `Less` (`<`), and the lemmas about them.

The regular expressions become a hand-written recognizer. It splits the text
at each `.` and accepts exactly two (or three) non-empty digit groups. Its
soundness is an `ensures` on `Match2`/`Match3`. Its completeness is the pair of
lemmas `Match2Complete`/`Match3Complete`. Those lemmas also show that the two
shapes never both match. So trying the two-group pattern first, as the source
does, decides nothing, but the model keeps that order.

The ordering is proved against an independent reference. `LexLess` is the
left-to-right numeric precedence of section 11 of Semantic Versioning 2.0.0,
applied to the key `[major, minor, safePatch]`.

## Model

| member | source | states |
|---|---|---|
| `VersionErrors.ErrorDescription` | Sources/SwiftUtilities/Version/VersionError.swift:17-34 | `errorDescription` is never nil, and every message is non-empty |
| `VersionErrors.ExactlyFiveKinds` | Sources/SwiftUtilities/Version/VersionError.swift:10-15 | every error is one of the five kinds, and the five are distinct |
| `VersionErrors.DescriptionsDistinct` | Sources/SwiftUtilities/Version/VersionError.swift:19-32 | two errors have the same description exactly when they are the same case |
| `VersionErrors.KnownDescriptions` | Sources/SwiftUtilities/Version/VersionError.swift:19-32 | `formatError` reads "Invalid string format."; `versionValidationError` reads "Version must be 0 or positive." |
| `Decimal.ParseInt` | Sources/SwiftUtilities/Version/Version.swift:91-96 | `Int(group)` yields the group's decimal value exactly when that value is at most `Int.max`, nil otherwise |
| `Decimal.NatString` | Sources/SwiftUtilities/Version/Version.swift:152-157 | interpolating a non-negative `Int` gives a digit group without leading zeros that reads back as the same number; `CanonicalRoundTrip` is the converse |
| `Decimal.IntString` | Sources/SwiftUtilities/Version/Version.swift:152-157 | interpolating any `Int` gives its digits, prefixed with `-` when negative, and the digits read back as the magnitude |
| `Decimal.CanonicalRoundTrip` | Sources/SwiftUtilities/Version/Version.swift:91-96 | a digit group without leading zeros is restored by reading its value and printing it again |
| `Versions.Create` | Sources/SwiftUtilities/Version/Version.swift:54-75 | success exactly when the triple satisfies the invariant (non-negative, not 0.0 / 0.0.0), with the inputs stored unchanged (an absent patch stays absent); the major error comes before minor, then patch, then the all-zero error |
| `Versions.CreateExamples` | Sources/SwiftUtilities/Version/Version.swift:59-71 | the concrete cases: (-1,-1) is a major error, (0,-1) a minor error, (0,0,-1) a patch error, (0,0) and (0,0,0) the all-zero error; (0,0,1) and (0,1) are accepted |
| `Versions.Split` | Sources/SwiftUtilities/Version/Version.swift:78-89 | the dot-separated pieces contain no dot and join back to the input |
| `Versions.Match2` | Sources/SwiftUtilities/Version/Version.swift:78-82 | a match gives two digit groups whose concatenation around one dot is the whole input |
| `Versions.Match3` | Sources/SwiftUtilities/Version/Version.swift:83-89 | a match gives three digit groups whose concatenation around two dots is the whole input |
| `Versions.Match2Complete` | Sources/SwiftUtilities/Version/Version.swift:78-90 | every `D+.D+` string matches the two-group shape with its own groups as captures, and never the three-group shape |
| `Versions.Match3Complete` | Sources/SwiftUtilities/Version/Version.swift:83-100 | every `D+.D+.D+` string matches the three-group shape with its own groups as captures, and never the two-group shape |
| `Versions.Parse` | Sources/SwiftUtilities/Version/Version.swift:77-112 | a parsed version satisfies the invariant; the only possible errors are the format error and the all-zero error; anything but a format error needs one of the two whole-string shapes; the patch is absent exactly when the two-group shape matched |
| `Versions.ParseTwoComponents` | Sources/SwiftUtilities/Version/Version.swift:90-99 | `a.b` gives a format error if a group exceeds `Int.max`, and otherwise exactly what the two-argument initializer gives on the groups' values |
| `Versions.ParseThreeComponents` | Sources/SwiftUtilities/Version/Version.swift:100-110 | `a.b.c` gives a format error if a group exceeds `Int.max`, and otherwise exactly what the three-argument initializer gives on the groups' values |
| `Versions.FormatErrorExamples` | Tests/SwiftUtilitiesTests/VersionTests.swift:72-76 | "1", "1.2.3.4" and "" match neither shape and are format errors |
| `Versions.NonDigitExamples` | Sources/SwiftUtilities/Version/Version.swift:78-111 | "a.b" and " 1.2" (text around or instead of digits) are format errors |
| `Versions.ParseZeroExamples` | Sources/SwiftUtilities/Version/Version.swift:97-108 | "0.0" and "0.0.0" fail validation with the all-zero error, not the format error |
| `Versions.ParseTwoComponentExample` | Tests/SwiftUtilitiesTests/VersionTests.swift:21-29 | "1.3" parses to major 1, minor 3, no patch |
| `Versions.ParseThreeComponentExample` | Tests/SwiftUtilitiesTests/VersionTests.swift:41-50 | "1.3.2" parses to major 1, minor 3, patch 2 |
| `Versions.Render` | Sources/SwiftUtilities/Version/Version.swift:152-157 | the text of every valid version parses back to the same version, with the same patch presence ("M.m.p" with a patch, "M.m" without); `RenderInjective` follows from it |
| `Versions.RenderInjective` | Sources/SwiftUtilities/Version/Version.swift:152-157 | distinct valid versions render differently |
| `Versions.RenderParseTwo` | Sources/SwiftUtilities/Version/Version.swift:152-156 | rendering a parsed `a.b` gives the text back when neither group has leading zeros |
| `Versions.RenderParseThree` | Sources/SwiftUtilities/Version/Version.swift:152-154 | rendering a parsed `a.b.c` gives the text back when no group has leading zeros |
| `Versions.ParseRenderParse` | Sources/SwiftUtilities/Version/Version.swift:77-157 | parsing the rendering of a parsed version gives the same result again |
| `Versions.LeadingZeroExample` | Sources/SwiftUtilities/Version/Version.swift:90-97 | "01.2" parses to 1.2, which renders as "1.2", so rendering does not undo parsing |
| `Versions.SafePatch` | Sources/SwiftUtilities/Version/Version.swift:146-148 | the result is the stored patch, or 0 when the patch is absent |
| `Versions.Eq` | Sources/SwiftUtilities/Version/Version.swift:127-129 | `==` holds exactly when the keys `[major, minor, safePatch]` are equal, so a missing patch counts as 0; `EqEquivalence` shows it is an equivalence |
| `Versions.EqEquivalence` | Sources/SwiftUtilities/Version/Version.swift:127-148 | `==` is reflexive, symmetric and transitive |
| `Versions.Less` | Sources/SwiftUtilities/Version/Version.swift:131-142 | `<` is exactly the lexicographic precedence `LexLess` on `[major, minor, safePatch]`; `LessStrictOrder`, `Trichotomy` and `LessRespectsEq` build on it |
| `Versions.LessStrictOrder` | Sources/SwiftUtilities/Version/Version.swift:131-142 | `<` is irreflexive, asymmetric and transitive |
| `Versions.Trichotomy` | Sources/SwiftUtilities/Version/Version.swift:127-142 | for any two versions exactly one of `a < b`, `a == b`, `b < a` holds |
| `Versions.LessRespectsEq` | Sources/SwiftUtilities/Version/Version.swift:127-148 | replacing either side of `<` by an `==`-equal version does not change the answer |
| `Versions.CompareExamples` | Tests/SwiftUtilitiesTests/VersionTests.swift:78-100 | 1.0 == 1.0.0 although their renderings differ; 1.0 < 1.0.1; 1.2 renders "1.2" and 1.3.2 renders "1.3.2" |

## Left out

- `LocalizedError` and `localizedDescription`: the Foundation bridging is not modelled. `errorDescription` is a plain function to `Option<string>`.
- The RegexBuilder engine: whole-string matching is a hand-written recognizer over ASCII digits and `.`.
- Non-ASCII digits: Swift's `.digit` class also matches non-ASCII decimal digits. `Int(_:)` then rejects them, so the source throws `formatError`. The model's recognizer rejects them and also gives `FormatError`, so the outcome is the same.
- Width of `Int`: Swift's `Int` is taken to be 64 bits wide (`Int64`, with the bound in the constant `Decimal.IntMax`). A digit group above `Int.max` is a format error. Wrap-around never happens in this code.
- 32-bit watchOS: Package.swift:13 also targets watchOS, and on arm64_32 watches `Int` is 32 bits. There "1.2147483648" is a format error, but the model accepts it. Setting `IntMax` to `0x7FFF_FFFF` models that platform.
- `Int(_:)` on text with a sign (`+5`, `-5`): the initializer only ever sees captured digit groups, so `ParseInt` requires one.
- `>`, `<=`, `>=` and `!=`: the standard library derives these from `<` and `==`. They are not modelled separately.
- Hashing: `Version` is not `Hashable`.
- Package.swift and the XCTest harness: they have no behaviour of their own. The tests appear only as the concrete example lemmas.
