/** Splitting the client version text of a hello message into its parts. */
module ClientVersion {
  import opened Wrappers
  import opened Text

  datatype Fields = Fields(
    name: string, version: string, build: string,
    arch: string, os: string, language: string)

  /** Cut at the first '-'; without one, at the first '+'. */
  function SplitAtDashOrPlus(input: string): (r: (string, string))
  {
    match SplitOnce(input, '-')
    case Some(cut) => cut
    case None =>
      match SplitOnce(input, '+')
      case Some(cut) => cut
      case None => (input, "")
  }

  function SplitVersion(input: string): Fields
  {
    var split := Split(input, '/');
    if |split| == 4 then
      var (version, build) := SplitAtDashOrPlus(split[1]);
      var (os, arch) := SplitAtDashOrPlus(split[2]);
      Fields(split[0], version, build, arch, os, split[3])
    else
      Fields(input, "", "", "", "", "")
  }

  /** The separator a segment was cut at: "-", "+", or "" when it has neither sign. */
  function Separator(segment: string): string
  {
    if '-' in segment then "-" else if '+' in segment then "+" else ""
  }

  function Slashes(s: string): nat
  {
    if s == "" then 0 else (if s[0] == '/' then 1 else 0) + Slashes(s[1..])
  }

  lemma {:induction false} SplitCountsSlashes(s: string)
    ensures |Split(s, '/')| == Slashes(s) + 1
  {
    if s != "" {
      SplitCountsSlashes(s[1..]);
    }
  }

  /** A cut loses only its separator, and cuts at the first one. */
  lemma SegmentReassembles(segment: string)
    ensures var (before, after) := SplitAtDashOrPlus(segment);
            && segment == before + Separator(segment) + after
            && (Separator(segment) == "-" ==> '-' !in before)
            && (Separator(segment) == "+" ==> '+' !in before && '-' !in segment)
            && (Separator(segment) == "" ==> before == segment && after == "")
  {
  }

  /** When a segment printed as `left sign right` is cut at the printed sign. */
  ghost predicate Separable(left: string, sign: char, right: string) {
    if sign == '-' then '-' !in left
    else '+' !in left && '-' !in left && '-' !in right
  }

  /** A printed segment is cut back into its two sides exactly when it is separable. */
  lemma SegmentCutsBack(left: string, sign: char, right: string)
    requires sign == '-' || sign == '+'
    ensures SplitAtDashOrPlus(left + [sign] + right) == (left, right) <==> Separable(left, sign, right)
  {
    var segment := left + [sign] + right;
    assert segment[|left|] == sign;
    if Separable(left, sign, right) {
      CutIsUnique(left, right, sign);
    } else {
      SegmentReassembles(segment);
      assert '-' in left ==> '-' in segment;
      assert '-' in right ==> '-' in segment;
    }
  }

  lemma {:induction false} CutIsUnique(left: string, right: string, sign: char)
    requires sign !in left
    ensures SplitOnce(left + [sign] + right, sign) == Some((left, right))
  {
    var s := left + [sign] + right;
    if left == "" {
      assert s == [sign] + right;
    } else {
      assert s[1..] == left[1..] + [sign] + right;
      CutIsUnique(left[1..], right, sign);
      assert left == [left[0]] + left[1..];
    }
  }

  /** The text of a four-segment version, given the sign printed inside the two inner segments. */
  function Print(f: Fields, sign: char): string
  {
    f.name + ['/'] + (f.version + [sign] + f.build + ['/'] +
    (f.os + [sign] + f.arch + ['/'] + f.language))
  }

  ghost predicate SlashFree(f: Fields) {
    && '/' !in f.name && '/' !in f.version && '/' !in f.build
    && '/' !in f.arch && '/' !in f.os && '/' !in f.language
  }

  lemma PrintSplitsIntoFour(f: Fields, sign: char)
    requires SlashFree(f) && sign != '/'
    ensures Split(Print(f, sign), '/') ==
            [f.name, f.version + [sign] + f.build, f.os + [sign] + f.arch, f.language]
  {
    var third := f.os + [sign] + f.arch + ['/'] + f.language;
    var second := f.version + [sign] + f.build + ['/'] + third;
    SplitHead(f.name, second, '/');
    SplitHead(f.version + [sign] + f.build, third, '/');
    SplitHead(f.os + [sign] + f.arch, f.language, '/');
    SplitHead(f.language, "", '/');
    assert second == (f.version + [sign] + f.build) + ['/'] + third;
    assert third == (f.os + [sign] + f.arch) + ['/'] + f.language;
    assert Print(f, sign) == f.name + ['/'] + second;
  }

  lemma {:induction false} SlashesAdd(a: string, b: string)
    ensures Slashes(a + b) == Slashes(a) + Slashes(b)
    ensures Slashes(a) == 0 <==> '/' !in a
  {
    if a == "" {
      assert a + b == b;
    } else {
      assert (a + b)[1..] == a[1..] + b;
      SlashesAdd(a[1..], b);
    }
  }

  lemma PrintedSlashes(f: Fields, sign: char)
    requires sign != '/'
    ensures Slashes(Print(f, sign)) == 3 <==> SlashFree(f)
  {
    var tail := f.os + [sign] + f.arch + ['/'] + f.language;
    SlashesAdd(f.name + ['/'], f.version + [sign] + f.build + ['/'] + tail);
    SlashesAdd(f.name, ['/']);
    SlashesAdd(f.version + [sign] + f.build + ['/'], tail);
    SlashesAdd(f.version + [sign] + f.build, ['/']);
    SlashesAdd(f.version + [sign], f.build);
    SlashesAdd(f.version, [sign]);
    SlashesAdd(f.build, "");
    SlashesAdd(f.os + [sign] + f.arch + ['/'], f.language);
    SlashesAdd(f.os + [sign] + f.arch, ['/']);
    SlashesAdd(f.os + [sign], f.arch);
    SlashesAdd(f.os, [sign]);
    SlashesAdd(f.arch, "");
    SlashesAdd(f.language, "");
  }

  /**
   Printing six fields and splitting the text gives the fields back exactly when no field
   holds a slash and both inner segments are cut at the printed sign.
   */
  lemma SplitOfPrint(f: Fields, sign: char)
    requires sign == '-' || sign == '+'
    ensures SplitVersion(Print(f, sign)) == f <==>
            && SlashFree(f)
            && Separable(f.version, sign, f.build)
            && Separable(f.os, sign, f.arch)
  {
    PrintedSlashes(f, sign);
    SplitCountsSlashes(Print(f, sign));
    if SlashFree(f) {
      PrintSplitsIntoFour(f, sign);
      SegmentCutsBack(f.version, sign, f.build);
      SegmentCutsBack(f.os, sign, f.arch);
    } else {
      assert |Print(f, sign)| > |f.name|;
    }
  }

  /** The fields put together again with one separator in each inner segment. */
  function Reassemble(f: Fields, sep1: string, sep2: string): string
  {
    f.name + "/" + ((f.version + sep1 + f.build) + "/" + ((f.os + sep2 + f.arch) + "/" + f.language))
  }

  lemma JoinOfFour(parts: seq<string>)
    requires |parts| == 4
    ensures Join(parts, '/') == parts[0] + "/" + (parts[1] + "/" + (parts[2] + "/" + parts[3]))
  {
    assert parts[1..][1..] == parts[2..] && parts[2..][1..] == parts[3..];
    assert Join(parts[3..], '/') == parts[3];
    assert Join(parts[2..], '/') == parts[2] + "/" + parts[3];
    assert Join(parts[1..], '/') == parts[1] + "/" + (parts[2] + "/" + parts[3]);
  }

  /**
   The splitter loses only separators: a text with exactly three slashes is its fields
   put together again; any other text comes back whole as the client name.
   */
  lemma SplitLosesOnlySeparators(input: string)
    ensures Slashes(input) == 3 ==>
              var parts := Split(input, '/');
              && |parts| == 4
              && input == Reassemble(SplitVersion(input), Separator(parts[1]), Separator(parts[2]))
    ensures Slashes(input) != 3 ==> SplitVersion(input) == Fields(input, "", "", "", "", "")
  {
    SplitCountsSlashes(input);
    if Slashes(input) == 3 {
      var parts := Split(input, '/');
      JoinOfSplit(input, '/');
      SegmentReassembles(parts[1]);
      SegmentReassembles(parts[2]);
      JoinOfFour(parts);
    }
  }

  // ---------- what the fields of a text are, without splitting it ----------

  /** The two sides are a segment's, cut at its first dash, else its first plus, else not at all. */
  ghost predicate IsCut(before: string, separator: string, after: string) {
    || (separator == "-" && '-' !in before)
    || (separator == "+" && '+' !in before && '-' !in before && '-' !in after)
    || (separator == "" && after == "" && '-' !in before && '+' !in before)
  }

  ghost predicate PutTogether(f: Fields, sep1: string, sep2: string, text: string) {
    && text == Reassemble(f, sep1, sep2) && SlashFree(f)
    && IsCut(f.version, sep1, f.build) && IsCut(f.os, sep2, f.arch)
  }

  /** The fields are the four segments of the text, or the whole text where it has not four. */
  ghost predicate Describes(f: Fields, text: string) {
    if Slashes(text) == 3 then exists sep1, sep2 :: PutTogether(f, sep1, sep2, text)
    else f == Fields(text, "", "", "", "", "")
  }

  lemma CutIsIsCut(before: string, separator: string, after: string)
    requires IsCut(before, separator, after)
    ensures SplitAtDashOrPlus(before + separator + after) == (before, after)
    ensures '/' !in before && '/' !in after ==> '/' !in before + separator + after
  {
    if separator == "" {
      assert before + separator + after == before;
    } else {
      assert before + separator + after == before + [separator[0]] + after;
      SegmentCutsBack(before, separator[0], after);
    }
  }

  lemma PutTogetherIsSplit(f: Fields, sep1: string, sep2: string, text: string)
    requires PutTogether(f, sep1, sep2, text)
    ensures SplitVersion(text) == f
  {
    var parts := [f.name, f.version + sep1 + f.build, f.os + sep2 + f.arch, f.language];
    CutIsIsCut(f.version, sep1, f.build);
    CutIsIsCut(f.os, sep2, f.arch);
    JoinOfFour(parts);
    FourParts(parts);
  }

  lemma SplitIsPutTogether(text: string)
    requires Slashes(text) == 3
    ensures |Split(text, '/')| == 4
    ensures var parts := Split(text, '/');
            PutTogether(SplitVersion(text), Separator(parts[1]), Separator(parts[2]), text)
  {
    var parts := Split(text, '/');
    SplitLosesOnlySeparators(text);
    SplitIsSeparatorFree(text, '/');
    SegmentReassembles(parts[1]);
    SegmentReassembles(parts[2]);
  }

  /** The splitter gives exactly the fields that describe the text. */
  lemma SplitExactly(text: string, f: Fields)
    ensures SplitVersion(text) == f <==> Describes(f, text)
  {
    SplitLosesOnlySeparators(text);
    if Slashes(text) == 3 {
      SplitIsPutTogether(text);
      forall sep1, sep2 | PutTogether(f, sep1, sep2, text)
        ensures SplitVersion(text) == f
      {
        PutTogetherIsSplit(f, sep1, sep2, text);
      }
    }
  }

  // ---------- which texts their fields determine ----------

  /** The cut of the segment could only have come from a segment cut at a dash. */
  ghost predicate Fixed(segment: string) {
    var (before, after) := SplitAtDashOrPlus(segment);
    '+' in before || '-' in after
  }

  /** Another segment that is cut the same way, unless the cut is fixed. */
  ghost function Twin(segment: string): string {
    var (before, after) := SplitAtDashOrPlus(segment);
    if segment == before + ['-'] + after then before + ['+'] + after else before + ['-'] + after
  }

  lemma FixedIsUnique(segment: string, other: string)
    requires Fixed(segment) && SplitAtDashOrPlus(other) == SplitAtDashOrPlus(segment)
    ensures other == segment
  {
    SegmentReassembles(segment);
    SegmentReassembles(other);
    var (before, after) := SplitAtDashOrPlus(segment);
    assert '-' in after ==> '-' in before + "+" + after;
  }

  lemma TwinIsCutTheSame(segment: string)
    requires !Fixed(segment)
    ensures Twin(segment) != segment && SplitAtDashOrPlus(Twin(segment)) == SplitAtDashOrPlus(segment)
    ensures '/' !in segment ==> '/' !in Twin(segment)
  {
    var (before, after) := SplitAtDashOrPlus(segment);
    SegmentReassembles(segment);
    SegmentCutsBack(before, '-', after);
    SegmentCutsBack(before, '+', after);
    assert (before + ['-'] + after)[|before|] == '-' && (before + ['+'] + after)[|before|] == '+';
  }

  /** No other text has the same fields. */
  ghost predicate Determined(input: string) {
    forall other :: SplitVersion(other) == SplitVersion(input) ==> other == input
  }

  lemma FourParts(parts: seq<string>)
    requires |parts| == 4 && SeparatorFree(parts, '/')
    ensures Split(Join(parts, '/'), '/') == parts
    ensures var (version, build) := SplitAtDashOrPlus(parts[1]);
            var (os, arch) := SplitAtDashOrPlus(parts[2]);
            SplitVersion(Join(parts, '/')) == Fields(parts[0], version, build, arch, os, parts[3])
  {
    SplitOfJoin(parts, '/');
  }

  lemma NoSlash(s: string)
    ensures Slashes(s) == 0 <==> '/' !in s
  {
    SlashesAdd(s, "");
  }

  /** Any other text is the whole name of its fields, which a text without slashes shares with a longer one. */
  lemma WholeNameDetermined(input: string)
    requires Slashes(input) != 3
    ensures Determined(input) <==> Slashes(input) != 0
  {
    SplitLosesOnlySeparators(input);
    NoSlash(input);
    if Slashes(input) == 0 {
      var parts := [input, "", "", ""];
      FourParts(parts);
      SplitCountsSlashes(Join(parts, '/'));
      assert SplitVersion(Join(parts, '/')) == SplitVersion(input);
    } else {
      forall other | SplitVersion(other) == SplitVersion(input)
        ensures other == input
      {
        SplitLosesOnlySeparators(other);
        SplitIsSeparatorFree(other, '/');
      }
    }
  }

  lemma FixedPartsDetermine(input: string, other: string)
    requires Slashes(input) == 3 && |Split(input, '/')| == 4
    requires Fixed(Split(input, '/')[1]) && Fixed(Split(input, '/')[2])
    requires SplitVersion(other) == SplitVersion(input)
    ensures other == input
  {
    var parts, others := Split(input, '/'), Split(other, '/');
    SplitCountsSlashes(other);
    if Slashes(other) == 3 {
      FixedIsUnique(parts[1], others[1]);
      FixedIsUnique(parts[2], others[2]);
      assert others == parts;
      JoinOfSplit(input, '/');
      JoinOfSplit(other, '/');
    }
  }

  lemma UnfixedPartHasTwin(input: string, k: nat)
    requires Slashes(input) == 3 && |Split(input, '/')| == 4
    requires k == 1 || k == 2
    requires !Fixed(Split(input, '/')[k])
    ensures !Determined(input)
  {
    var parts := Split(input, '/');
    SplitIsSeparatorFree(input, '/');
    TwinIsCutTheSame(parts[k]);
    var others := parts[k := Twin(parts[k])];
    FourParts(others);
    assert SplitVersion(Join(others, '/')) == SplitVersion(input);
    assert others[k] != parts[k];
  }

  /**
   The splitter is not injective, and this is exactly where: the fields determine the text
   when it holds some slashes other than three, or holds three and both inner segments are cut
   in a way only a dash explains.
   */
  lemma DeterminedExactly(input: string)
    ensures Slashes(input) == 3 ==> |Split(input, '/')| == 4
    ensures Determined(input) <==>
            if Slashes(input) == 3 then Fixed(Split(input, '/')[1]) && Fixed(Split(input, '/')[2])
            else Slashes(input) != 0
  {
    SplitCountsSlashes(input);
    if Slashes(input) != 3 {
      WholeNameDetermined(input);
    } else if !Fixed(Split(input, '/')[1]) {
      UnfixedPartHasTwin(input, 1);
    } else if !Fixed(Split(input, '/')[2]) {
      UnfixedPartHasTwin(input, 2);
    } else {
      forall other | SplitVersion(other) == SplitVersion(input)
        ensures other == input
      {
        FixedPartsDetermine(input, other);
      }
    }
  }

  /** For one, "a" and "a///" have the same fields. */
  lemma SplitIsNotInjective()
    ensures SplitVersion("a") == SplitVersion("a///")
  {
    SplitHead("a", "", '/');
    SplitHead("a", "//", '/');
    assert "a///" == "a" + ['/'] + "//";
  }
}
