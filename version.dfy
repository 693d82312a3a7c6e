/** The `Version` value type (Sources/SwiftUtilities/Version/Version.swift):
    a `major.minor[.patch]` triple built by a validating initializer or by
    parsing a string, compared with `==` and `<`, and rendered back to text. */
module Versions {
  import opened Wrappers
  import opened Decimal
  import opened VersionErrors

  /** The stored fields; `patch` is absent for a two-component version. */
  datatype Version = Version(major: Int64, minor: Int64, patch: Option<Int64>)

  /** `safePatch`: the patch, or 0 when there is none. */
  function SafePatch(v: Version): (p: Int64)
    ensures v.patch == Some(p) || (v.patch == None && p == 0)
  {
    match v.patch
    case Some(p) => p
    case None => 0
  }

  /** The invariant every constructed `Version` satisfies: no negative
      component, and not the all-zero version (0.0 or 0.0.0). */
  predicate Valid(v: Version)
  {
    && v.major >= 0
    && v.minor >= 0
    && (v.patch.Some? ==> v.patch.value >= 0)
    && !(v.major == 0 && v.minor == 0 && SafePatch(v) == 0)
  }

  // ---------------------------------------------------------------------
  // init(_:_:_:)

  /** The validating initializer; `patch` is `None` for the two-argument form. */
  function Create(major: Int64, minor: Int64, patch: Option<Int64>): (r: Result<Version, VersionError>)
    ensures r.Success? <==> Valid(Version(major, minor, patch))
    ensures r.Success? ==> r.value == Version(major, minor, patch)
    // the checks run in a fixed order and the first failing one decides the error
    ensures major < 0 ==> r == Failure(MajorValidationError)
    ensures major >= 0 && minor < 0 ==> r == Failure(MinorValidationError)
    ensures major >= 0 && minor >= 0 && patch.Some? && patch.value < 0 ==> r == Failure(PatchValidationError)
    ensures r == Failure(VersionValidationError) <==> major == 0 && minor == 0 && (patch == None || patch == Some(0))
  {
    if major < 0 then Failure(MajorValidationError)
    else if minor < 0 then Failure(MinorValidationError)
    else if patch.Some? && patch.value < 0 then Failure(PatchValidationError)
    else if major == 0 && minor == 0 && (patch.None? || patch.value == 0) then Failure(VersionValidationError)
    else Success(Version(major, minor, patch))
  }

  // ---------------------------------------------------------------------
  // init(string:)

  /** The pieces of `s` between the dots, in order. */
  function Split(s: seq<char>): (parts: seq<seq<char>>)
    ensures |parts| >= 1
    ensures forall i :: 0 <= i < |parts| ==> '.' !in parts[i]
    ensures Join(parts) == s
  {
    if |s| == 0 then [[]]
    else
      var rest := Split(s[1..]);
      if s[0] == '.' then [[]] + rest
      else [[s[0]] + rest[0]] + rest[1..]
  }

  /** The pieces put back together with a dot between neighbours. */
  function Join(parts: seq<seq<char>>): seq<char>
    requires |parts| >= 1
  {
    if |parts| == 1 then parts[0] else parts[0] + ['.'] + Join(parts[1..])
  }

  /** Whole-string match of `Capture{OneOrMore{.digit}} "." Capture{OneOrMore{.digit}}`. */
  function Match2(s: seq<char>): (r: Option<(seq<char>, seq<char>)>)
    ensures r.Some? ==>
      DigitGroup(r.value.0) && DigitGroup(r.value.1) && s == r.value.0 + ['.'] + r.value.1
  {
    var parts := Split(s);
    if |parts| == 2 && DigitGroup(parts[0]) && DigitGroup(parts[1]) then
      assert Join(parts[1..]) == parts[1];
      Some((parts[0], parts[1]))
    else
      None
  }

  /** Whole-string match of the three-group pattern `D+ "." D+ "." D+`. */
  function Match3(s: seq<char>): (r: Option<(seq<char>, seq<char>, seq<char>)>)
    ensures r.Some? ==>
      DigitGroup(r.value.0) && DigitGroup(r.value.1) && DigitGroup(r.value.2) &&
      s == r.value.0 + ['.'] + r.value.1 + ['.'] + r.value.2
  {
    var parts := Split(s);
    if |parts| == 3 && DigitGroup(parts[0]) && DigitGroup(parts[1]) && DigitGroup(parts[2]) then
      assert Join(parts[2..]) == parts[2];
      assert Join(parts[1..]) == parts[1] + ['.'] + parts[2] by {
        assert parts[1..][1..] == parts[2..];
      }
      Some((parts[0], parts[1], parts[2]))
    else
      None
  }

  /** `init(string:)`: the two-group shape is tried first, then the three-group
      one; captured groups that do not fit in `Int` are a format error, and
      the numbers then go through the validating initializer. */
  function Parse(s: seq<char>): (r: Result<Version, VersionError>)
    ensures r.Success? ==> Valid(r.value)
    ensures r.Failure? ==> r.error == FormatError || r.error == VersionValidationError
    ensures r != Failure(FormatError) ==> Match2(s).Some? || Match3(s).Some?
    ensures r.Success? ==> (r.value.patch.None? <==> Match2(s).Some?)
  {
    match Match2(s)
    case Some((a, b)) =>
      (match (ParseInt(a), ParseInt(b))
       case (Some(major), Some(minor)) => Create(major, minor, None)
       case _ => Failure(FormatError))
    case None =>
      match Match3(s)
      case Some((a, b, c)) =>
        (match (ParseInt(a), ParseInt(b), ParseInt(c))
         case (Some(major), Some(minor), Some(patch)) => Create(major, minor, Some(patch))
         case _ => Failure(FormatError))
      case None => Failure(FormatError)
  }

  /** Splitting text that begins with a dot-free piece and a dot. */
  lemma {:induction false} SplitAfterPiece(a: seq<char>, rest: seq<char>)
    requires '.' !in a
    ensures Split(a + ['.'] + rest) == [a] + Split(rest)
  {
    if |a| > 0 {
      assert (a + ['.'] + rest)[1..] == a[1..] + ['.'] + rest;
      SplitAfterPiece(a[1..], rest);
      assert [a[0]] + a[1..] == a;
    } else {
      assert a + ['.'] + rest == ['.'] + rest;
    }
  }

  /** A dot-free string is a single piece. */
  lemma {:induction false} SplitPiece(a: seq<char>)
    requires '.' !in a
    ensures Split(a) == [a]
  {
    if |a| > 0 {
      SplitPiece(a[1..]);
      assert [a[0]] + a[1..] == a;
    }
  }

  /** Digit groups never contain the separator, so splitting at dots finds
      exactly the groups the regular expression captures. */
  lemma DigitGroupHasNoDot(a: seq<char>)
    requires DigitGroup(a)
    ensures '.' !in a
  {
  }

  /** Every `D+.D+` string is matched by the two-group recognizer, with its own
      groups as captures, and never by the three-group one. */
  lemma Match2Complete(a: seq<char>, b: seq<char>)
    requires DigitGroup(a) && DigitGroup(b)
    ensures Match2(a + ['.'] + b) == Some((a, b))
    ensures Match3(a + ['.'] + b) == None
  {
    DigitGroupHasNoDot(a);
    DigitGroupHasNoDot(b);
    SplitAfterPiece(a, b);
    SplitPiece(b);
  }

  /** Every `D+.D+.D+` string is matched by the three-group recognizer, with its
      own groups as captures, and never by the two-group one. */
  lemma Match3Complete(a: seq<char>, b: seq<char>, c: seq<char>)
    requires DigitGroup(a) && DigitGroup(b) && DigitGroup(c)
    ensures Match3(a + ['.'] + b + ['.'] + c) == Some((a, b, c))
    ensures Match2(a + ['.'] + b + ['.'] + c) == None
  {
    DigitGroupHasNoDot(a);
    DigitGroupHasNoDot(b);
    DigitGroupHasNoDot(c);
    assert a + ['.'] + b + ['.'] + c == a + ['.'] + (b + ['.'] + c);
    SplitAfterPiece(a, b + ['.'] + c);
    SplitAfterPiece(b, c);
    SplitPiece(c);
  }

  /** Parsing `a.b`: a format error when a group overflows `Int`, otherwise
      exactly the two-argument initializer on the groups' values. */
  lemma ParseTwoComponents(a: seq<char>, b: seq<char>)
    requires DigitGroup(a) && DigitGroup(b)
    ensures Parse(a + ['.'] + b) ==
      if Value(a) <= IntMax && Value(b) <= IntMax then Create(Value(a), Value(b), None)
      else Failure(FormatError)
  {
    Match2Complete(a, b);
  }

  /** Parsing `a.b.c`: a format error when a group overflows `Int`, otherwise
      exactly the three-argument initializer on the groups' values. */
  lemma ParseThreeComponents(a: seq<char>, b: seq<char>, c: seq<char>)
    requires DigitGroup(a) && DigitGroup(b) && DigitGroup(c)
    ensures Parse(a + ['.'] + b + ['.'] + c) ==
      if Value(a) <= IntMax && Value(b) <= IntMax && Value(c) <= IntMax
      then Create(Value(a), Value(b), Some(Value(c)))
      else Failure(FormatError)
  {
    Match3Complete(a, b, c);
  }

  // ---------------------------------------------------------------------
  // string

  /** `string`: "M.m.p" when there is a patch, "M.m" otherwise. For every
      valid version the text parses back to the same version, with the same
      patch presence. */
  function Render(v: Version): (s: seq<char>)
    ensures Valid(v) ==> Parse(s) == Success(v)
  {
    match v.patch
    case Some(p) =>
      var s := IntString(v.major) + ['.'] + IntString(v.minor) + ['.'] + IntString(p);
      assert Valid(v) ==> Parse(s) == Success(v) by {
        if Valid(v) {
          ParseThreeComponents(IntString(v.major), IntString(v.minor), IntString(p));
        }
      }
      s
    case None =>
      var s := IntString(v.major) + ['.'] + IntString(v.minor);
      assert Valid(v) ==> Parse(s) == Success(v) by {
        if Valid(v) {
          ParseTwoComponents(IntString(v.major), IntString(v.minor));
        }
      }
      s
  }

  /** Valid versions are told apart by their renderings. */
  lemma RenderInjective(v: Version, w: Version)
    requires Valid(v) && Valid(w)
    requires Render(v) == Render(w)
    ensures v == w
  {
  }

  /** Parsing then rendering gives back the text when every group is written
      without leading zeros. */
  lemma RenderParseTwo(a: seq<char>, b: seq<char>)
    requires Canonical(a) && Canonical(b)
    requires Parse(a + ['.'] + b).Success?
    ensures Render(Parse(a + ['.'] + b).value) == a + ['.'] + b
  {
    ParseTwoComponents(a, b);
    CanonicalRoundTrip(a);
    CanonicalRoundTrip(b);
  }

  /** The three-group form of RenderParseTwo. */
  lemma RenderParseThree(a: seq<char>, b: seq<char>, c: seq<char>)
    requires Canonical(a) && Canonical(b) && Canonical(c)
    requires Parse(a + ['.'] + b + ['.'] + c).Success?
    ensures Render(Parse(a + ['.'] + b + ['.'] + c).value) == a + ['.'] + b + ['.'] + c
  {
    ParseThreeComponents(a, b, c);
    CanonicalRoundTrip(a);
    CanonicalRoundTrip(b);
    CanonicalRoundTrip(c);
  }

  /** Re-parsing a rendering is stable: the text form is a normal form for
      whatever `init(string:)` accepts. */
  lemma ParseRenderParse(s: seq<char>)
    requires Parse(s).Success?
    ensures Parse(Render(Parse(s).value)) == Parse(s)
  {
  }

  // ---------------------------------------------------------------------
  // == and <

  /** `==`: major, minor and safe patch agree, that is, the comparison keys
      are equal, so a missing patch equals 0. */
  predicate Eq(a: Version, b: Version)
    ensures Eq(a, b) <==> Key(a) == Key(b)
  {
    assert Key(a) == Key(b) ==>
      Key(a)[0] == Key(b)[0] && Key(a)[1] == Key(b)[1] && Key(a)[2] == Key(b)[2];
    a.major == b.major && a.minor == b.minor && SafePatch(a) == SafePatch(b)
  }

  /** `<`: decided by the first of major, minor, safe patch that differs;
      that is exactly the lexicographic precedence on the comparison keys. */
  predicate Less(a: Version, b: Version)
    ensures Less(a, b) <==> LexLess(Key(a), Key(b))
  {
    var ka, kb := Key(a), Key(b);
    assert ka[1..] == [a.minor, SafePatch(a)] && kb[1..] == [b.minor, SafePatch(b)];
    assert ka[1..][1..] == [SafePatch(a)] && kb[1..][1..] == [SafePatch(b)];
    assert !LexLess(ka[1..][1..][1..], kb[1..][1..][1..]);
    assert LexLess(ka[1..][1..], kb[1..][1..]) <==> SafePatch(a) < SafePatch(b);
    assert LexLess(ka[1..], kb[1..]) <==>
      a.minor < b.minor || (a.minor == b.minor && SafePatch(a) < SafePatch(b));
    if a.major != b.major then a.major < b.major
    else if a.minor != b.minor then a.minor < b.minor
    else if SafePatch(a) != SafePatch(b) then SafePatch(a) < SafePatch(b)
    else false
  }

  /** The sequence of numbers a version is compared on. */
  function Key(v: Version): seq<int>
  {
    [v.major, v.minor, SafePatch(v)]
  }

  /** Lexicographic strict order on number sequences of equal length
      (precedence as in section 11 of Semantic Versioning 2.0.0: the first
      difference, left to right, compared numerically). */
  predicate LexLess(x: seq<int>, y: seq<int>)
    requires |x| == |y|
  {
    |x| > 0 && (x[0] < y[0] || (x[0] == y[0] && LexLess(x[1..], y[1..])))
  }

  lemma {:induction false} LexLessIrreflexive(x: seq<int>)
    ensures !LexLess(x, x)
  {
    if |x| > 0 {
      LexLessIrreflexive(x[1..]);
    }
  }

  lemma {:induction false} LexLessTransitive(x: seq<int>, y: seq<int>, z: seq<int>)
    requires |x| == |y| == |z|
    requires LexLess(x, y) && LexLess(y, z)
    ensures LexLess(x, z)
  {
    if x[0] == y[0] == z[0] {
      LexLessTransitive(x[1..], y[1..], z[1..]);
    }
  }

  lemma {:induction false} LexLessTrichotomy(x: seq<int>, y: seq<int>)
    requires |x| == |y|
    ensures LexLess(x, y) || x == y || LexLess(y, x)
    ensures !(LexLess(x, y) && LexLess(y, x))
  {
    if |x| > 0 && x[0] == y[0] {
      LexLessTrichotomy(x[1..], y[1..]);
      if x[1..] == y[1..] {
        assert x == [x[0]] + x[1..] && y == [y[0]] + y[1..];
      }
    }
  }

  /** `==` is an equivalence relation. */
  lemma EqEquivalence(a: Version, b: Version, c: Version)
    ensures Eq(a, a)
    ensures Eq(a, b) ==> Eq(b, a)
    ensures Eq(a, b) && Eq(b, c) ==> Eq(a, c)
  {
  }

  /** `<` is a strict order: irreflexive, asymmetric and transitive. */
  lemma LessStrictOrder(a: Version, b: Version, c: Version)
    ensures !Less(a, a)
    ensures Less(a, b) ==> !Less(b, a)
    ensures Less(a, b) && Less(b, c) ==> Less(a, c)
  {
    LexLessIrreflexive(Key(a));
    LexLessTrichotomy(Key(a), Key(b));
    if Less(a, b) && Less(b, c) {
      LexLessTransitive(Key(a), Key(b), Key(c));
    }
  }

  /** Exactly one of `a < b`, `a == b`, `b < a` holds. */
  lemma Trichotomy(a: Version, b: Version)
    ensures Less(a, b) || Eq(a, b) || Less(b, a)
    ensures !(Less(a, b) && Eq(a, b))
    ensures !(Eq(a, b) && Less(b, a))
    ensures !(Less(a, b) && Less(b, a))
  {
    LexLessTrichotomy(Key(a), Key(b));
    LexLessIrreflexive(Key(a));
  }

  /** `<` does not distinguish versions that are `==`. */
  lemma LessRespectsEq(a: Version, a': Version, b: Version, b': Version)
    requires Eq(a, a') && Eq(b, b')
    ensures Less(a, b) <==> Less(a', b')
  {
  }

  // ---------------------------------------------------------------------
  // The cases the test suite checks, and the other concrete cases the
  // initializers single out.

  lemma CreateExamples()
    ensures Create(1, 2, None) == Success(Version(1, 2, None))
    ensures Create(1, 3, Some(2)) == Success(Version(1, 3, Some(2)))
    ensures Create(-1, 0, None) == Failure(MajorValidationError)
    ensures Create(-1, -1, None) == Failure(MajorValidationError)
    ensures Create(0, -1, None) == Failure(MinorValidationError)
    ensures Create(0, 0, Some(-1)) == Failure(PatchValidationError)
    ensures Create(0, 0, None) == Failure(VersionValidationError)
    ensures Create(0, 0, Some(0)) == Failure(VersionValidationError)
    ensures Create(0, 0, Some(1)).Success? && Create(0, 1, None).Success?
  {
  }

  lemma ParseTwoComponentExample()
    ensures Parse("1.3") == Success(Version(1, 3, None))
  {
    assert "1.3" == "1" + ['.'] + "3";
    assert Value("1") == 1 && Value("3") == 3 by {
      ValueSnoc([], '1');
      ValueSnoc([], '3');
    }
    ParseTwoComponents("1", "3");
  }

  lemma ParseThreeComponentExample()
    ensures Parse("1.3.2") == Success(Version(1, 3, Some(2)))
  {
    assert "1.3.2" == "1" + ['.'] + "3" + ['.'] + "2";
    assert Value("1") == 1 && Value("3") == 3 && Value("2") == 2 by {
      ValueSnoc([], '1');
      ValueSnoc([], '3');
      ValueSnoc([], '2');
    }
    ParseThreeComponents("1", "3", "2");
  }

  /** Zero versions are rejected by validation, not by the format check. */
  lemma ParseZeroExamples()
    ensures Parse("0.0") == Failure(VersionValidationError)
    ensures Parse("0.0.0") == Failure(VersionValidationError)
  {
    assert Value("0") == 0 by {
      ValueSnoc([], '0');
    }
    assert "0.0" == "0" + ['.'] + "0";
    ParseTwoComponents("0", "0");
    assert "0.0.0" == "0" + ['.'] + "0" + ['.'] + "0";
    ParseThreeComponents("0", "0", "0");
  }

  /** Leading zeros are accepted and dropped: "01.2" renders back as "1.2". */
  lemma LeadingZeroExample()
    ensures Parse("01.2") == Success(Version(1, 2, None))
    ensures Render(Version(1, 2, None)) == "1.2"
  {
    assert "01.2" == "01" + ['.'] + "2";
    assert Value("01") == 1 && Value("2") == 2 by {
      ValueSnoc([], '0');
      assert "01" == "0" + ['1'];
      ValueSnoc("0", '1');
      ValueSnoc([], '2');
    }
    ParseTwoComponents("01", "2");
  }

  /** Neither shape: a single number, four groups, the empty string. */
  lemma FormatErrorExamples()
    ensures Parse("1") == Failure(FormatError)
    ensures Parse("1.2.3.4") == Failure(FormatError)
    ensures Parse("") == Failure(FormatError)
  {
    SplitPiece("1");
    assert "1.2.3.4" == "1" + ['.'] + ("2" + ['.'] + ("3" + ['.'] + "4"));
    SplitAfterPiece("1", "2" + ['.'] + ("3" + ['.'] + "4"));
    SplitAfterPiece("2", "3" + ['.'] + "4");
    SplitAfterPiece("3", "4");
    SplitPiece("4");
  }

  /** The right number of dots, but text that is not digits. */
  lemma NonDigitExamples()
    ensures Parse("a.b") == Failure(FormatError)
    ensures Parse(" 1.2") == Failure(FormatError)
  {
    assert "a.b" == "a" + ['.'] + "b";
    SplitAfterPiece("a", "b");
    SplitPiece("b");
    assert !DigitGroup("a");
    assert " 1.2" == " 1" + ['.'] + "2";
    SplitAfterPiece(" 1", "2");
    SplitPiece("2");
    assert !DigitGroup(" 1");
  }

  lemma CompareExamples()
    ensures Eq(Version(1, 0, None), Version(1, 0, Some(0)))
    ensures Render(Version(1, 0, None)) != Render(Version(1, 0, Some(0)))
    ensures Less(Version(1, 0, None), Version(1, 0, Some(1)))
    ensures Render(Version(1, 2, None)) == "1.2" && Render(Version(1, 3, Some(2))) == "1.3.2"
  {
  }
}
