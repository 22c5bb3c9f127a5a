/**
 * The UK postcode matcher `is_GB_postcode`: the input is lower-cased and
 * its spaces removed, then tried against six anchored patterns. Each
 * pattern is written out as a predicate over the normalised string; the
 * method `CheckGBPostcode` runs the source's loop over the pattern table.
 */
module GBPostcode {
  import opened PhpString

  // Letters permitted at each position of a postcode.
  const Alpha1: set<char> := {'a', 'b', 'c', 'd', 'e', 'f', 'g', 'h', 'i', 'j', 'k', 'l', 'm', 'n', 'o', 'p', 'r', 's', 't', 'u', 'w', 'y', 'z'}
  const Alpha2: set<char> := {'a', 'b', 'c', 'd', 'e', 'f', 'g', 'h', 'k', 'l', 'm', 'n', 'o', 'p', 'q', 'r', 's', 't', 'u', 'v', 'w', 'x', 'y'}
  const Alpha3: set<char> := {'a', 'b', 'c', 'd', 'e', 'f', 'g', 'h', 'j', 'k', 's', 't', 'u', 'w'}
  const Alpha4: set<char> := {'a', 'b', 'e', 'h', 'm', 'n', 'p', 'r', 'v', 'w', 'x', 'y'}
  const Alpha5: set<char> := {'a', 'b', 'd', 'e', 'f', 'g', 'h', 'j', 'l', 'n', 'p', 'q', 'r', 's', 't', 'u', 'w', 'x', 'y', 'z'}

  /** The six entries of the pattern table, in table order. */
  datatype Pattern =
    | Standard               // AN NAA, ANN NAA, AAN NAA, AANN NAA
    | LetterDigitLetter      // ANA NAA
    | TwoLettersDigitLetter  // AANA NAA
    | Girobank               // GIR 0AA
    | Bfpo                   // BFPO then 1 to 4 digits
    | BfpoCareOf             // BFPO c/o then 1 to 3 digits

  const PatternTable: seq<Pattern> :=
    [Standard, LetterDigitLetter, TwoLettersDigitLetter, Girobank, Bfpo, BfpoCareOf]

  /** `[0-9]{lo,hi}` matched against the whole of `s`. */
  predicate DigitRun(s: string, lo: nat, hi: nat) {
    lo <= |s| <= hi && forall i :: 0 <= i < |s| ==> IsDigit(s[i])
  }

  /** The inward code shared by the first three patterns: `[0-9]{1}` then two Alpha5 letters. */
  predicate Inward(q: string) {
    |q| == 3 && IsDigit(q[0]) && q[1] in Alpha5 && q[2] in Alpha5
  }

  /** The outward part of the first pattern: one Alpha1 letter, an optional Alpha2 letter, one or two digits. */
  predicate StandardOutward(p: string) {
    |p| >= 1 && p[0] in Alpha1 &&
    (DigitRun(p[1..], 1, 2) || (|p| >= 2 && p[1] in Alpha2 && DigitRun(p[2..], 1, 2)))
  }

  /** Whether one anchored pattern of the table matches the whole of `pc`. */
  predicate Matches(pat: Pattern, pc: string) {
    match pat
    case Standard =>
      |pc| >= 3 && StandardOutward(pc[..|pc| - 3]) && Inward(pc[|pc| - 3..])
    case LetterDigitLetter =>
      |pc| == 6 && pc[0] in Alpha1 && IsDigit(pc[1]) && pc[2] in Alpha3 && Inward(pc[3..])
    case TwoLettersDigitLetter =>
      |pc| == 7 && pc[0] in Alpha1 && pc[1] in Alpha2 && IsDigit(pc[2]) && pc[3] in Alpha4 &&
      Inward(pc[4..])
    case Girobank =>
      pc == "gir0aa"
    case Bfpo =>
      |pc| >= 4 && pc[..4] == "bfpo" && DigitRun(pc[4..], 1, 4)
    case BfpoCareOf =>
      |pc| >= 7 && pc[..4] == "bfpo" && pc[4..7] == "c/o" && DigitRun(pc[7..], 1, 3)
  }

  predicate IsBlank(c: char) {
    c == ' '
  }

  /** `str_replace(' ', '', strtolower(s))`: lower-cased, spaces (and only spaces) removed. */
  function Normalize(s: string): string {
    RemoveChars(ToLower(s), IsBlank)
  }

  /** Some pattern of the table matches `pc`. */
  predicate MatchesAny(pc: string) {
    Matches(Standard, pc) || Matches(LetterDigitLetter, pc) || Matches(TwoLettersDigitLetter, pc) ||
    Matches(Girobank, pc) || Matches(Bfpo, pc) || Matches(BfpoCareOf, pc)
  }

  /** The value `is_GB_postcode` returns. */
  predicate IsGBPostcode(toCheck: string) {
    MatchesAny(Normalize(toCheck))
  }

  /**
   * `is_GB_postcode` as the source runs it: fill the pattern array, then
   * try each entry in turn, setting the flag and leaving the loop at the
   * first match.
   */
  method CheckGBPostcode(toCheck: string) returns (valid: bool)
    ensures valid == IsGBPostcode(toCheck)
  {
    var pcexp := new Pattern[6];
    pcexp[0] := Standard;
    pcexp[1] := LetterDigitLetter;
    pcexp[2] := TwoLettersDigitLetter;
    pcexp[3] := Girobank;
    pcexp[4] := Bfpo;
    pcexp[5] := BfpoCareOf;
    assert pcexp[..] == PatternTable;

    var postcode := ToLower(toCheck);
    postcode := RemoveChars(postcode, IsBlank);

    valid := false;
    var i := 0;
    while i < pcexp.Length
      invariant 0 <= i <= pcexp.Length
      invariant pcexp[..] == PatternTable
      invariant forall j :: 0 <= j < i ==> !Matches(pcexp[j], postcode)
    {
      if Matches(pcexp[i], postcode) {
        valid := true;
        break;
      }
      i := i + 1;
    }
    if valid {
      TableEntryMatches(i, postcode);
    } else {
      NoTableEntryMatches(postcode);
    }
  }

  lemma TableEntryMatches(k: nat, pc: string)
    requires k < |PatternTable| && Matches(PatternTable[k], pc)
    ensures MatchesAny(pc)
  {
  }

  lemma NoTableEntryMatches(pc: string)
    requires forall j :: 0 <= j < |PatternTable| ==> !Matches(PatternTable[j], pc)
    ensures !MatchesAny(pc)
  {
    assert !Matches(PatternTable[0], pc) && !Matches(PatternTable[1], pc) && !Matches(PatternTable[2], pc);
    assert !Matches(PatternTable[3], pc) && !Matches(PatternTable[4], pc) && !Matches(PatternTable[5], pc);
  }

  /** Where each pattern sits in the table. */
  function PatternIndex(pat: Pattern): (k: nat)
    ensures k < |PatternTable| && PatternTable[k] == pat
  {
    match pat
    case Standard => 0
    case LetterDigitLetter => 1
    case TwoLettersDigitLetter => 2
    case Girobank => 3
    case Bfpo => 4
    case BfpoCareOf => 5
  }

  // ---------------------------------------------------------------------
  // Properties of the matcher
  // ---------------------------------------------------------------------

  /** `MatchesAny` is "some pattern matches", whichever order the table is tried in. */
  lemma MatchesAnyIff(pc: string)
    ensures MatchesAny(pc) <==> exists pat :: Matches(pat, pc)
  {
    if exists pat :: Matches(pat, pc) {
      var pat :| Matches(pat, pc);
      TableEntryMatches(PatternIndex(pat), pc);
    }
  }

  /** No string matches two entries of the table, so stopping at the first match decides nothing. */
  lemma PatternsDisjoint(p: Pattern, q: Pattern, pc: string)
    requires Matches(p, pc) && Matches(q, pc)
    ensures p == q
  {
    KindOfMatch(p, pc);
    KindOfMatch(q, pc);
  }

  /**
   * Which pattern a string can only match, read off a few characters: the
   * BFPO forms end in a digit and differ at the fifth character, GIR 0AA
   * alone has 'i' second, and a letter where the first pattern's outward
   * code ends singles out the other two forms.
   */
  function Kind(pc: string): Pattern {
    if |pc| < 5 then Standard
    else if IsDigit(pc[|pc| - 1]) then (if IsDigit(pc[4]) then Bfpo else BfpoCareOf)
    else if pc[1] == 'i' then Girobank
    else if |pc| == 6 && !IsDigit(pc[2]) then LetterDigitLetter
    else if |pc| == 7 && !IsDigit(pc[3]) then TwoLettersDigitLetter
    else Standard
  }

  lemma KindOfMatch(pat: Pattern, pc: string)
    requires Matches(pat, pc)
    ensures Kind(pc) == pat
  {
    LastChar(pat, pc);
    match pat
    case Standard =>
      StandardOutwardEnd(pc);
    case LetterDigitLetter =>
    case TwoLettersDigitLetter =>
    case Girobank =>
    case Bfpo =>
      assert pc[4] == pc[4..][0];
    case BfpoCareOf =>
  }

  /** The BFPO forms end in a digit; every other pattern ends in a letter. */
  lemma LastChar(pat: Pattern, pc: string)
    requires Matches(pat, pc)
    ensures |pc| >= 5
    ensures (pat == Bfpo || pat == BfpoCareOf) <==> IsDigit(pc[|pc| - 1])
  {
    match pat
    case Standard =>
      assert Inward(pc[|pc| - 3..]) && pc[|pc| - 3..][2] == pc[|pc| - 1];
    case LetterDigitLetter =>
      assert Inward(pc[3..]) && pc[3..][2] == pc[|pc| - 1];
    case TwoLettersDigitLetter =>
      assert Inward(pc[4..]) && pc[4..][2] == pc[|pc| - 1];
    case Girobank =>
    case Bfpo =>
      assert pc[4..][|pc| - 5] == pc[|pc| - 1];
    case BfpoCareOf =>
      assert pc[7..][|pc| - 8] == pc[|pc| - 1];
  }

  /** The outward code of the first pattern has a letter or digit second and ends in a digit. */
  lemma StandardOutwardEnd(pc: string)
    requires Matches(Standard, pc)
    ensures 5 <= |pc| <= 7 && IsDigit(pc[|pc| - 4]) && (IsDigit(pc[1]) || pc[1] in Alpha2)
  {
    var o := pc[..|pc| - 3];
    if DigitRun(o[1..], 1, 2) {
      assert o[1..][0] == pc[1] && o[1..][|o| - 2] == pc[|pc| - 4];
    } else {
      assert o[2..][|o| - 3] == pc[|pc| - 4];
    }
  }

  /** Every string one of the patterns accepts is made of lower-case letters, digits and '/'. */
  lemma PatternChars(pat: Pattern, pc: string)
    requires Matches(pat, pc)
    ensures forall i :: 0 <= i < |pc| ==> IsLower(pc[i]) || IsDigit(pc[i]) || pc[i] == '/'
  {
    forall i | 0 <= i < |pc| ensures IsLower(pc[i]) || IsDigit(pc[i]) || pc[i] == '/' {
      match pat
      case Standard =>
        var n := |pc| - 3;
        if i >= n {
          assert pc[i] == pc[n..][i - n];
        } else if i >= 1 {
          var o := pc[..n];
          assert pc[i] == o[i];
          if !DigitRun(o[1..], 1, 2) {
            assert i == 1 || pc[i] == o[2..][i - 2];
          } else {
            assert pc[i] == o[1..][i - 1];
          }
        }
      case LetterDigitLetter =>
        if i >= 3 { assert pc[i] == pc[3..][i - 3]; }
      case TwoLettersDigitLetter =>
        if i >= 4 { assert pc[i] == pc[4..][i - 4]; }
      case Girobank =>
      case Bfpo =>
        if i >= 4 { assert pc[i] == pc[4..][i - 4]; } else { assert pc[i] == pc[..4][i]; }
      case BfpoCareOf =>
        if i >= 7 { assert pc[i] == pc[7..][i - 7]; }
        else if i >= 4 { assert pc[i] == pc[4..7][i - 4]; }
        else { assert pc[i] == pc[..4][i]; }
    }
  }

  /** An accepted postcode holds only spaces, ASCII letters, digits and '/'. */
  lemma GBPostcodeChars(s: string)
    requires IsGBPostcode(s)
    ensures forall i :: 0 <= i < |s| ==> s[i] == ' ' || IsAsciiLetter(s[i]) || IsDigit(s[i]) || s[i] == '/'
  {
    var pc := Normalize(s);
    MatchesAnyIff(pc);
    var pat :| Matches(pat, pc);
    PatternChars(pat, pc);
    var lower := ToLower(s);
    RemoveCharsMembers(lower, IsBlank);
    forall i | 0 <= i < |s| && s[i] != ' '
      ensures IsAsciiLetter(s[i]) || IsDigit(s[i]) || s[i] == '/'
    {
      assert lower[i] == LowerChar(s[i]) && !IsBlank(lower[i]);
      assert lower[i] in pc;
    }
  }

  /** Upper- or lower-casing the input does not change the verdict. */
  lemma GBIgnoresCase(s: string)
    ensures IsGBPostcode(ToUpper(s)) == IsGBPostcode(s)
    ensures IsGBPostcode(ToLower(s)) == IsGBPostcode(s)
  {
    assert ToLower(ToUpper(s)) == ToLower(s) by {
      forall i | 0 <= i < |s| ensures ToLower(ToUpper(s))[i] == ToLower(s)[i] {
        LowerOfUpper(s[i]);
      }
    }
    assert ToLower(ToLower(s)) == ToLower(s);
  }

  /** A space anywhere in the input does not change the verdict. */
  lemma GBIgnoresSpace(a: string, b: string)
    ensures IsGBPostcode(a + " " + b) == IsGBPostcode(a + b)
  {
    NormalizeDropsSpace(a, b);
  }

  lemma NormalizeDropsSpace(a: string, b: string)
    ensures Normalize(a + " " + b) == Normalize(a + b)
  {
    var la, lb := ToLower(a), ToLower(b);
    assert ToLower(a + " " + b) == la + " " + lb;
    assert ToLower(a + b) == la + lb;
    RemoveCharsAppend(la + " ", lb, IsBlank);
    RemoveCharsAppend(la, " ", IsBlank);
    RemoveCharsAppend(la, lb, IsBlank);
    RemoveCharsAll(" ", IsBlank);
  }

  /**
   * Apart from GIR 0AA and the BFPO forms, an accepted postcode is 5 to 7
   * characters once spaces are removed, and ends in a digit followed by
   * two Alpha5 letters.
   */
  lemma GBShape(s: string)
    requires IsGBPostcode(s)
    ensures var pc := Normalize(s);
      pc == "gir0aa" || (|pc| >= 4 && pc[..4] == "bfpo") ||
      (5 <= |pc| <= 7 && IsDigit(pc[|pc| - 3]) && pc[|pc| - 2] in Alpha5 && pc[|pc| - 1] in Alpha5)
  {
    var pc := Normalize(s);
    MatchesAnyIff(pc);
    var pat :| Matches(pat, pc);
    PatternShape(pat, pc);
  }

  lemma PatternShape(pat: Pattern, pc: string)
    requires Matches(pat, pc)
    ensures pc == "gir0aa" || (|pc| >= 4 && pc[..4] == "bfpo") ||
      (5 <= |pc| <= 7 && IsDigit(pc[|pc| - 3]) && pc[|pc| - 2] in Alpha5 && pc[|pc| - 1] in Alpha5)
  {
    match pat
    case Standard =>
      var q := pc[|pc| - 3..];
      assert Inward(q) && q[0] == pc[|pc| - 3] && q[1] == pc[|pc| - 2] && q[2] == pc[|pc| - 1];
    case LetterDigitLetter =>
      assert Inward(pc[3..]);
    case TwoLettersDigitLetter =>
      assert Inward(pc[4..]);
    case _ =>
  }

  /**
   * The length of the first parenthesised group of the matching pattern:
   * the outward code before the 3-character inward code, or "bfpo".
   */
  function GroupSplit(pat: Pattern, pc: string): nat
    requires Matches(pat, pc)
  {
    match pat
    case Bfpo => 4
    case BfpoCareOf => 4
    case _ => |pc| - 3
  }

  /** A code with an inward code never has 'p' third, so it cannot be taken for a BFPO number. */
  lemma InwardFormsThirdChar(pat: Pattern, pc: string)
    requires Matches(pat, pc) && pat != Bfpo && pat != BfpoCareOf
    ensures |pc| >= 5 && pc[2] != 'p'
  {
    match pat
    case Standard =>
      var o := pc[..|pc| - 3];
      assert Inward(pc[|pc| - 3..]);
      if |o| == 2 {
        assert pc[2] == pc[|pc| - 3..][0];
      } else if DigitRun(o[1..], 1, 2) {
        assert pc[2] == o[1..][1];
      } else {
        assert pc[2] == o[2..][0];
      }
    case LetterDigitLetter =>
    case TwoLettersDigitLetter =>
    case Girobank =>
  }

  // ---------------------------------------------------------------------
  // Examples
  // ---------------------------------------------------------------------

  lemma NormalizeAlphanumeric(s: string)
    requires forall i :: 0 <= i < |s| ==> IsAsciiLetter(s[i]) || IsDigit(s[i])
    ensures Normalize(s) == ToLower(s)
  {
    RemoveCharsNone(ToLower(s), IsBlank);
  }

  /** The AANA NAA form, in lower case and without its space. */
  lemma AcceptsLowerCaseWithoutSpace(s: string)
    requires s == "sw1a1aa"
    ensures IsGBPostcode(s)
  {
    NormalizeAlphanumeric(s);
    LowerFixed(s);
    assert Inward(s[4..]);
    assert Matches(TwoLettersDigitLetter, s);
  }

  /** The same code written in upper case with its space. */
  lemma AcceptsUpperCaseWithSpace(s: string)
    requires s == "SW1A 1AA"
    ensures IsGBPostcode(s)
  {
    var a, b := s[..4], s[5..];
    assert s == a + " " + b;
    NormalizeDropsSpace(a, b);
    var t := a + b;
    NormalizeAlphanumeric(t);
    var pc := ToLower(t);
    assert pc == "sw1a1aa";
    assert Inward(pc[4..]);
    TableEntryMatches(2, pc);
  }

  lemma AcceptsGirobank(s: string)
    requires s == "GIR 0AA"
    ensures IsGBPostcode(s)
  {
    var a, b := s[..3], s[4..];
    assert s == a + " " + b;
    NormalizeDropsSpace(a, b);
    var t := a + b;
    NormalizeAlphanumeric(t);
    var pc := ToLower(t);
    assert pc == "gir0aa";
    TableEntryMatches(3, pc);
  }

  lemma AcceptsBfpoNumber(s: string)
    requires s == "BFPO 1234"
    ensures IsGBPostcode(s)
  {
    var a, b := s[..4], s[5..];
    assert s == a + " " + b;
    NormalizeDropsSpace(a, b);
    NormalizeAlphanumeric(a + b);
    ToLowerAppend(a, b);
    assert DigitRun(b, 1, 4);
    LowerFixed(b);
    var pc := ToLower(a) + b;
    assert ToLower(a) == "bfpo";
    assert pc[..4] == "bfpo" && pc[4..] == b;
    TableEntryMatches(4, pc);
  }

  /** 'Q' may not start a postcode. */
  lemma RejectsLeadingQ(s: string)
    requires s == "QW1A1AA"
    ensures !IsGBPostcode(s)
  {
    NormalizeAlphanumeric(s);
    var pc := ToLower(s);
    assert pc[0] == 'q' && pc[0] !in Alpha1;
    assert pc != "gir0aa" && pc[..4] != "bfpo";
  }

  /** A fifth BFPO digit is one too many. */
  lemma RejectsLongBfpoNumber(s: string)
    requires s == "BFPO12345"
    ensures !IsGBPostcode(s)
  {
    var a, b := s[..4], s[4..];
    assert s == a + b;
    NormalizeAlphanumeric(s);
    ToLowerAppend(a, b);
    assert DigitRun(b, 5, 5);
    LowerFixed(b);
    var pc := ToLower(a) + b;
    assert |pc| == 9 && pc[4..] == b;
    assert pc[4..7] != "c/o" by { assert pc[4..7][0] == b[0]; }
  }
}
