/**
 * The static members of `jigoshop_validation`: integer and natural-number
 * strings, the phone and postcode character filters (the postcode one
 * dispatching to the UK matcher for "GB"), and postcode reformatting.
 */
module Validation {
  import opened PhpString
  import opened GBPostcode

  // ---------------------------------------------------------------------
  // is_integer, is_natural
  // ---------------------------------------------------------------------

  /**
   * `is_integer`: a leading '-' or '+' is skipped before `ctype_digit`.
   * On "" the first character reads as "", which is neither sign.
   */
  predicate IsInteger(value: string) {
    if |value| > 0 && (value[0] == '-' || value[0] == '+') then CtypeDigit(value[1..])
    else CtypeDigit(value)
  }

  /** `is_natural`: `ctype_digit` of the value. */
  predicate IsNatural(value: string) {
    CtypeDigit(value)
  }

  /** An integer literal written out: at most one sign, then at least one digit. */
  ghost predicate OptionalSignThenDigits(s: string) {
    exists k :: 0 <= k <= 1 && k <= |s| && (k == 1 ==> s[0] == '-' || s[0] == '+') && CtypeDigit(s[k..])
  }

  lemma IntegerGrammar(s: string)
    ensures IsInteger(s) <==> OptionalSignThenDigits(s)
  {
    if IsInteger(s) {
      if |s| > 0 && (s[0] == '-' || s[0] == '+') {
        assert CtypeDigit(s[1..]);
      } else {
        assert s[0..] == s;
      }
    }
    if OptionalSignThenDigits(s) {
      var k :| 0 <= k <= 1 && k <= |s| && (k == 1 ==> s[0] == '-' || s[0] == '+') && CtypeDigit(s[k..]);
      if k == 0 {
        assert s[k..] == s;
        assert IsDigit(s[0]);
      }
    }
  }

  /** Every natural-number string is an integer string. */
  lemma NaturalIsInteger(s: string)
    ensures IsNatural(s) ==> IsInteger(s)
  {
    if IsNatural(s) {
      assert IsDigit(s[0]);
    }
  }

  /** A sign on its own, a decimal point and the empty string are all rejected. */
  lemma IntegerExamples()
    ensures IsInteger("123") && IsInteger("-123") && IsInteger("+1")
    ensures !IsInteger("") && !IsInteger("-") && !IsInteger("12.3") && !IsInteger("+-1")
    ensures IsNatural("042") && !IsNatural("-1") && !IsNatural("")
  {
    assert "12.3"[2] == '.';
    assert "+-1"[1..][0] == '-';
  }

  // ---------------------------------------------------------------------
  // is_phone
  // ---------------------------------------------------------------------

  /** The class `[\s\#0-9_\-\+\(\)]` that `is_phone` deletes. */
  predicate PhoneChar(c: char) {
    IsSpace(c) || c == '#' || IsDigit(c) || c == '_' || c == '-' || c == '+' || c == '(' || c == ')'
  }

  /** `is_phone`: false when anything is left after deleting the class and trimming. */
  predicate IsPhone(phone: string) {
    !(|Trim(RemoveChars(phone, PhoneChar))| > 0)
  }

  /**
   * A character filter followed by `trim` lets through exactly the strings
   * whose characters are in the class or are NUL bytes, the one trimmable
   * character that no such class deletes.
   */
  lemma FilterThenTrimEmpty(s: string, inClass: char -> bool)
    requires forall c :: IsSpace(c) ==> inClass(c)
    ensures Trim(RemoveChars(s, inClass)) == [] <==> forall i :: 0 <= i < |s| ==> inClass(s[i]) || s[i] == '\0'
  {
    var r := RemoveChars(s, inClass);
    RemoveCharsMembers(s, inClass);
    TrimEmptyIff(r);
    if Trim(r) == [] {
      forall i | 0 <= i < |s| ensures inClass(s[i]) || s[i] == '\0' {
        if !inClass(s[i]) {
          assert s[i] in r;
          var k :| 0 <= k < |r| && r[k] == s[i];
        }
      }
    } else {
      var k :| 0 <= k < |r| && !IsTrimmable(r[k]);
      assert r[k] in s && !inClass(r[k]) && r[k] != '\0';
    }
  }

  /** `is_phone` holds iff every character is whitespace, a digit, one of `# _ - + ( )`, or NUL. */
  lemma PhoneIff(s: string)
    ensures IsPhone(s) <==> forall i :: 0 <= i < |s| ==> PhoneChar(s[i]) || s[i] == '\0'
  {
    FilterThenTrimEmpty(s, PhoneChar);
  }

  /** For text without NUL bytes: whitespace, digits and `# _ - + ( )` only. */
  lemma PhoneIffNoNul(s: string)
    requires forall i :: 0 <= i < |s| ==> s[i] != '\0'
    ensures IsPhone(s) <==> forall i :: 0 <= i < |s| ==> PhoneChar(s[i])
  {
    PhoneIff(s);
  }

  /** A letter anywhere rejects the number. */
  lemma PhoneRejectsLetter(s: string, i: nat)
    requires i < |s| && IsAsciiLetter(s[i])
    ensures !IsPhone(s)
  {
    PhoneIff(s);
  }

  /** Punctuation with no digit at all, such as "---", is accepted. */
  lemma PhoneAcceptsNoDigits(s: string)
    requires forall i :: 0 <= i < |s| ==> s[i] == '-'
    ensures IsPhone(s)
  {
    PhoneIff(s);
  }

  /** Words are rejected. */
  lemma PhoneRejectsWords(s: string)
    requires s == "call me"
    ensures !IsPhone(s)
  {
    PhoneRejectsLetter(s, 0);
  }

  // ---------------------------------------------------------------------
  // is_postcode
  // ---------------------------------------------------------------------

  /** The class `[\s\-A-Za-z0-9]` that `is_postcode` deletes. */
  predicate PostcodeChar(c: char) {
    IsSpace(c) || c == '-' || IsAsciiLetter(c) || IsDigit(c)
  }

  /**
   * `is_postcode`: false when anything is left after deleting the class and
   * trimming; otherwise the UK matcher decides for "GB" and any other
   * country is accepted.
   */
  predicate IsPostcode(postcode: string, country: string) {
    if |Trim(RemoveChars(postcode, PostcodeChar))| > 0 then false
    else if country == "GB" then IsGBPostcode(postcode)
    else true
  }

  /** Outside "GB" the character filter is the whole test. */
  lemma PostcodeOutsideGB(s: string, country: string)
    requires country != "GB"
    ensures IsPostcode(s, country) <==> forall i :: 0 <= i < |s| ==> PostcodeChar(s[i]) || s[i] == '\0'
  {
    FilterThenTrimEmpty(s, PostcodeChar);
  }

  /** For "GB" the character filter and the UK matcher must both accept. */
  lemma PostcodeInGB(s: string)
    ensures IsPostcode(s, "GB") <==>
      (forall i :: 0 <= i < |s| ==> PostcodeChar(s[i]) || s[i] == '\0') && IsGBPostcode(s)
  {
    FilterThenTrimEmpty(s, PostcodeChar);
  }

  /** A character outside the class and not NUL rejects the postcode whatever the country. */
  lemma PostcodeRejectsForeignChar(s: string, country: string, i: nat)
    requires i < |s| && !PostcodeChar(s[i]) && s[i] != '\0'
    ensures !IsPostcode(s, country)
  {
    FilterThenTrimEmpty(s, PostcodeChar);
  }

  /**
   * The c/o BFPO form contains '/', which the character filter rejects, so
   * it is never accepted through `is_postcode` even though the matcher
   * accepts it.
   */
  lemma CareOfNeverAccepted(s: string)
    requires Matches(BfpoCareOf, Normalize(s))
    ensures IsGBPostcode(s)
    ensures !IsPostcode(s, "GB")
  {
    var lower := ToLower(s);
    var pc := Normalize(s);
    assert pc[4..7] == "c/o";
    assert pc[5] == '/';
    RemoveCharsMembers(lower, IsBlank);
    assert '/' in lower;
    var i :| 0 <= i < |lower| && lower[i] == '/';
    assert LowerChar(s[i]) == '/';
    PostcodeRejectsForeignChar(s, "GB", i);
  }

  /**
   * Only ' ' is removed before matching, so a hyphen or any other
   * whitespace character (tab, newline, ...) makes the UK matcher fail,
   * although the character filter lets it through.
   */
  lemma SeparatorMustBeSpace(s: string, i: nat)
    requires i < |s| && (s[i] == '-' || (IsSpace(s[i]) && s[i] != ' '))
    ensures PostcodeChar(s[i])
    ensures !IsGBPostcode(s) && !IsPostcode(s, "GB")
  {
    if IsGBPostcode(s) {
      GBPostcodeChars(s);
    }
  }

  // ---------------------------------------------------------------------
  // format_postcode
  // ---------------------------------------------------------------------

  /** The first two statements of `format_postcode`: trim, upper-case, delete `\s`, trim again. */
  function Compact(postcode: string): string {
    Trim(RemoveChars(ToUpper(Trim(postcode)), IsSpace))
  }

  /** Where the "GB" branch puts the space in a compacted string of length `n`. */
  function SpaceIndex(n: nat): (k: nat)
    ensures k <= n
  {
    if n == 7 then 4 else if n < 3 then n else 3
  }

  /**
   * `format_postcode`: compact the value, then for "GB" insert one space,
   * at offset 4 in a 7-character string and at offset 3 otherwise.
   */
  function FormatPostcode(postcode: string, country: string): string {
    var p := Compact(postcode);
    if country == "GB" then
      (if |p| == 7 then InsertAt(p, ' ', 4) else InsertAt(p, ' ', 3))
    else p
  }

  /** What `Compact` produces: no `\s`, nothing left to upper-case, nothing at either end for `trim`. */
  predicate Compacted(q: string) {
    (forall i :: 0 <= i < |q| ==> !IsSpace(q[i]) && UpperChar(q[i]) == q[i]) &&
    (q == [] || (!IsTrimmable(q[0]) && !IsTrimmable(q[|q| - 1])))
  }

  lemma CompactIsCompacted(s: string)
    ensures Compacted(Compact(s))
  {
    var u := ToUpper(Trim(s));
    UpperIsFixed(Trim(s));
    SqueezeUpper(u);
    TrimmedSqueezeIsCompacted(RemoveChars(u, IsSpace));
  }

  /** Upper case and free of `\s`: what `Compact` has before its final `trim`. */
  predicate Squeezed(x: string) {
    forall i :: 0 <= i < |x| ==> !IsSpace(x[i]) && UpperChar(x[i]) == x[i]
  }

  lemma TrimmedSqueezeIsCompacted(x: string)
    requires Squeezed(x)
    ensures Compacted(Trim(x))
  {
    var a, b := TrimBounds(x);
    SqueezedSlice(x, a, b);
    TrimStartsAndEndsUntrimmable(x);
  }

  lemma SqueezedSlice(x: string, a: nat, b: nat)
    requires Squeezed(x) && a <= b <= |x|
    ensures Squeezed(x[a..b])
  {
    forall i | 0 <= i < b - a ensures !IsSpace(x[a..b][i]) && UpperChar(x[a..b][i]) == x[a..b][i] {
      assert x[a..b][i] == x[a + i];
    }
  }

  /** Deleting `\s` from an upper-case string leaves an upper-case string without `\s`. */
  lemma {:induction false} SqueezeUpper(u: string)
    requires forall i :: 0 <= i < |u| ==> UpperChar(u[i]) == u[i]
    ensures Squeezed(RemoveChars(u, IsSpace))
  {
    if u != [] {
      SqueezeUpper(u[1..]);
      var h := if IsSpace(u[0]) then [] else [u[0]];
      var x := RemoveChars(u, IsSpace);
      var y := RemoveChars(u[1..], IsSpace);
      assert x == h + y;
      forall i | 0 <= i < |x| ensures !IsSpace(x[i]) && UpperChar(x[i]) == x[i] {
        if i < |h| {
          assert x[i] == u[0] && !IsSpace(u[0]) && UpperChar(u[0]) == u[0];
        } else {
          var j := i - |h|;
          assert x[i] == y[j] && 0 <= j < |y|;
        }
      }
    }
  }

  /** A compacted string is its own compaction. */
  lemma CompactOfCompacted(q: string)
    requires Compacted(q)
    ensures Compact(q) == q
  {
    TrimNoop(q);
    assert ToUpper(q) == q;
    RemoveCharsNone(q, IsSpace);
  }

  /** Trimmable characters that survive the deletion of `\s` are all NUL bytes. */
  lemma TrimmableLeavesNul(p: string)
    requires forall k :: 0 <= k < |p| ==> IsTrimmable(p[k])
    ensures AllNul(RemoveChars(ToUpper(p), IsSpace))
  {
    var u := ToUpper(p);
    var n := RemoveChars(u, IsSpace);
    RemoveCharsMembers(u, IsSpace);
    forall k | 0 <= k < |n| ensures n[k] == '\0' {
      assert n[k] in u;
    }
  }

  /**
   * The first `trim` of `format_postcode` makes no difference: every
   * trimmable character it strips is either whitespace, deleted next, or
   * a NUL byte at an end, stripped by the second `trim`.
   */
  lemma CompactSkipsFirstTrim(s: string)
    ensures Compact(s) == Trim(RemoveChars(ToUpper(s), IsSpace))
  {
    var p, q := TrimSplit(s);
    SqueezeSkipsTrimmablePadding(p, Trim(s), q);
  }

  lemma SqueezeSkipsTrimmablePadding(p: string, t: string, q: string)
    requires forall k :: 0 <= k < |p| ==> IsTrimmable(p[k])
    requires forall k :: 0 <= k < |q| ==> IsTrimmable(q[k])
    ensures Trim(RemoveChars(ToUpper(p + t + q), IsSpace)) == Trim(RemoveChars(ToUpper(t), IsSpace))
  {
    SqueezeAppend3(p, t, q);
    TrimmableLeavesNul(p);
    TrimmableLeavesNul(q);
    TrimNulPadding(RemoveChars(ToUpper(p), IsSpace), RemoveChars(ToUpper(t), IsSpace), RemoveChars(ToUpper(q), IsSpace));
  }

  lemma SqueezeAppend3(p: string, t: string, q: string)
    ensures RemoveChars(ToUpper(p + t + q), IsSpace) ==
      RemoveChars(ToUpper(p), IsSpace) + RemoveChars(ToUpper(t), IsSpace) + RemoveChars(ToUpper(q), IsSpace)
  {
    ToUpperAppend(p + t, q);
    ToUpperAppend(p, t);
    var up, ut, uq := ToUpper(p), ToUpper(t), ToUpper(q);
    RemoveCharsAppend(up + ut, uq, IsSpace);
    RemoveCharsAppend(up, ut, IsSpace);
  }

  /**
   * The shape of the result: outside "GB" no whitespace at all; for "GB"
   * exactly one whitespace character, a space, at offset 4 when the
   * compacted value has 7 characters and at offset 3 (or at the end of a
   * shorter value) otherwise.
   */
  lemma FormatShape(s: string, country: string)
    ensures var q, r := Compact(s), FormatPostcode(s, country);
      (country != "GB" ==> forall i :: 0 <= i < |r| ==> !IsSpace(r[i])) &&
      (country == "GB" ==> var k := SpaceIndex(|q|);
        |r| == |q| + 1 && k < |r| && r[k] == ' ' &&
        forall i :: 0 <= i < |r| && i != k ==> !IsSpace(r[i]))
  {
    var q := Compact(s);
    CompactIsCompacted(s);
    if country == "GB" {
      FormatGBSplices(s);
      SpliceShape(q, SpaceIndex(|q|));
    }
  }

  /** In the "GB" branch the result is the compacted value cut at `SpaceIndex` with a space in between. */
  lemma FormatGBSplices(s: string)
    ensures var q := Compact(s); var k := SpaceIndex(|q|);
      k <= |q| && FormatPostcode(s, "GB") == q[..k] + " " + q[k..]
  {
    var q := Compact(s);
    if |q| == 7 {
      InsertAtSplits(q, ' ', 4);
    } else if |q| >= 3 {
      InsertAtSplits(q, ' ', 3);
    }
  }

  lemma SpliceShape(q: string, k: nat)
    requires k <= |q| && forall i :: 0 <= i < |q| ==> !IsSpace(q[i])
    ensures var r := q[..k] + " " + q[k..];
      |r| == |q| + 1 && r[k] == ' ' && forall i :: 0 <= i < |r| && i != k ==> !IsSpace(r[i])
  {
    var r := q[..k] + " " + q[k..];
    forall i | 0 <= i < |r| && i != k ensures !IsSpace(r[i]) {
      if i < k { assert r[i] == q[i]; } else { assert r[i] == q[i - 1]; }
    }
  }

  /** Deleting whitespace undoes the insertion of one space into a string without whitespace. */
  lemma RemoveInsertedSpace(q: string, k: nat, c: char)
    requires k <= |q| && forall i :: 0 <= i < |q| ==> !IsSpace(q[i])
    requires IsSpace(c)
    ensures RemoveChars(q[..k] + [c] + q[k..], IsSpace) == q
  {
    assert q == q[..k] + q[k..];
    RemoveCharsAppend(q[..k] + [c], q[k..], IsSpace);
    RemoveCharsAppend(q[..k], [c], IsSpace);
    RemoveCharsAll([c], IsSpace);
    RemoveCharsNone(q[..k], IsSpace);
    RemoveCharsNone(q[k..], IsSpace);
  }

  /** Deleting the whitespace from the result gives back the compacted value. */
  lemma FormatLessSpaceIsCompact(s: string, country: string)
    ensures RemoveChars(FormatPostcode(s, country), IsSpace) == Compact(s)
  {
    var q := Compact(s);
    CompactIsCompacted(s);
    if country == "GB" {
      var k := SpaceIndex(|q|);
      FormatGBSplices(s);
      RemoveInsertedSpace(q, k, ' ');
    } else {
      RemoveCharsNone(q, IsSpace);
    }
  }

  /**
   * Deleting the whitespace from the result gives back the upper-cased
   * input with its whitespace deleted (and any NUL bytes at its two ends
   * trimmed).
   */
  lemma FormatKeepsContent(s: string, country: string)
    ensures RemoveChars(FormatPostcode(s, country), IsSpace) == Trim(RemoveChars(ToUpper(s), IsSpace))
  {
    FormatLessSpaceIsCompact(s, country);
    CompactSkipsFirstTrim(s);
  }

  /** For input without NUL bytes: exactly the upper-cased input with its whitespace deleted. */
  lemma FormatKeepsContentNoNul(s: string, country: string)
    requires forall i :: 0 <= i < |s| ==> s[i] != '\0'
    ensures RemoveChars(FormatPostcode(s, country), IsSpace) == RemoveChars(ToUpper(s), IsSpace)
  {
    FormatKeepsContent(s, country);
    TrimOfNulFree(ToUpper(s));
  }

  /** Without NUL bytes, deleting whitespace leaves nothing for `trim` to strip. */
  lemma TrimOfNulFree(u: string)
    requires forall i :: 0 <= i < |u| ==> u[i] != '\0'
    ensures Trim(RemoveChars(u, IsSpace)) == RemoveChars(u, IsSpace)
  {
    var x := RemoveChars(u, IsSpace);
    RemoveCharsMembers(u, IsSpace);
    forall k | 0 <= k < |x| ensures !IsTrimmable(x[k]) {
      assert x[k] in u;
    }
    TrimNoop(x);
  }

  lemma InsertSpaceUpper(q: string, k: nat)
    requires k <= |q| && forall i :: 0 <= i < |q| ==> UpperChar(q[i]) == q[i]
    ensures ToUpper(q[..k] + " " + q[k..]) == q[..k] + " " + q[k..]
  {
    var r := q[..k] + " " + q[k..];
    forall i | 0 <= i < |r| ensures UpperChar(r[i]) == r[i] {
      if i < k { assert r[i] == q[i]; } else if i > k { assert r[i] == q[i - 1]; }
    }
    UpperFixed(r);
  }

  /** Nothing in the result is left to upper-case. */
  lemma FormatIsUpper(s: string, country: string)
    ensures ToUpper(FormatPostcode(s, country)) == FormatPostcode(s, country)
  {
    var q := Compact(s);
    CompactIsCompacted(s);
    if country == "GB" {
      var k := SpaceIndex(|q|);
      FormatGBSplices(s);
      InsertSpaceUpper(q, k);
    } else {
      UpperFixed(q);
    }
  }

  /** The result compacts back to the compacted input. */
  lemma CompactOfFormat(s: string, country: string)
    ensures Compact(FormatPostcode(s, country)) == Compact(s)
  {
    var q := Compact(s);
    CompactIsCompacted(s);
    if country == "GB" {
      FormatGBSplices(s);
      CompactOfSplice(q, SpaceIndex(|q|));
    } else {
      CompactOfCompacted(q);
    }
  }

  /** Formatting a formatted postcode again changes nothing. */
  lemma FormatIdempotent(s: string, country: string)
    ensures FormatPostcode(FormatPostcode(s, country), country) == FormatPostcode(s, country)
  {
    var r := FormatPostcode(s, country);
    var q := Compact(s);
    CompactOfFormat(s, country);
    assert Compact(r) == q;
    if country == "GB" {
      assert FormatPostcode(r, country) == (if |q| == 7 then InsertAt(q, ' ', 4) else InsertAt(q, ' ', 3));
    } else {
      assert FormatPostcode(r, country) == q;
    }
  }

  /**
   * A value made of ASCII letters and digits is upper-cased and, for "GB",
   * cut at `SpaceIndex`: "sw1a1aa" gives "SW1A" + " " + "1AA", "gir0aa"
   * gives "GIR" + " " + "0AA", and "90210" outside "GB" stays "90210".
   */
  lemma FormatOfAlphanumeric(s: string, country: string)
    requires forall i :: 0 <= i < |s| ==> IsAsciiLetter(s[i]) || IsDigit(s[i])
    ensures var u := ToUpper(s); var k := SpaceIndex(|s|);
      FormatPostcode(s, country) == if country == "GB" then u[..k] + " " + u[k..] else u
  {
    CompactOfAlphanumeric(s);
    FormatGBSplices(s);
  }

  /** A value made of ASCII letters and digits compacts to its upper-case form. */
  lemma CompactOfAlphanumeric(s: string)
    requires forall i :: 0 <= i < |s| ==> IsAsciiLetter(s[i]) || IsDigit(s[i])
    ensures Compact(s) == ToUpper(s)
  {
    TrimNoop(s);
    var u := ToUpper(s);
    RemoveCharsNone(u, IsSpace);
    TrimNoop(u);
  }

  // ---------------------------------------------------------------------
  // Where format_postcode puts the space in a UK postcode
  // ---------------------------------------------------------------------

  /**
   * The characters `is_GB_postcode` accepts are ones that upper-casing and
   * deleting `\s` treat the same way as lower-casing and deleting ' '.
   */
  lemma {:induction false} SqueezeGBChars(s: string)
    requires forall i :: 0 <= i < |s| ==> s[i] == ' ' || IsAsciiLetter(s[i]) || IsDigit(s[i]) || s[i] == '/'
    ensures RemoveChars(ToUpper(s), IsSpace) == ToUpper(Normalize(s))
  {
    if s != [] {
      SqueezeGBChars(s[1..]);
      ToUpperCons(s);
      ToLowerCons(s);
      RemoveCharsAppend([UpperChar(s[0])], ToUpper(s[1..]), IsSpace);
      RemoveCharsAppend([LowerChar(s[0])], ToLower(s[1..]), IsBlank);
      SqueezeGBChar(s[0]);
      ToUpperAppend(RemoveChars([LowerChar(s[0])], IsBlank), Normalize(s[1..]));
    }
  }

  lemma SqueezeGBChar(c: char)
    requires c == ' ' || IsAsciiLetter(c) || IsDigit(c) || c == '/'
    ensures RemoveChars([UpperChar(c)], IsSpace) == ToUpper(RemoveChars([LowerChar(c)], IsBlank))
  {
    UpperOfLower(c);
    assert [UpperChar(c)][1..] == [] && [LowerChar(c)][1..] == [];
  }

  /** For a postcode the UK matcher accepts, the compacted value is the matcher's normalised code in upper case. */
  lemma CompactOfGBPostcode(s: string)
    requires IsGBPostcode(s)
    ensures Compact(s) == ToUpper(Normalize(s))
  {
    GBPostcodeChars(s);
    CompactSkipsFirstTrim(s);
    SqueezeGBChars(s);
    var pc := Normalize(s);
    MatchesAnyIff(pc);
    var pat :| Matches(pat, pc);
    UpperOfMatchKeptByTrim(pat, pc);
  }

  lemma UpperOfMatchKeptByTrim(pat: Pattern, pc: string)
    requires Matches(pat, pc)
    ensures Trim(ToUpper(pc)) == ToUpper(pc)
  {
    PatternChars(pat, pc);
    var u := ToUpper(pc);
    forall k | 0 <= k < |u| ensures !IsTrimmable(u[k]) {
      assert u[k] == UpperChar(pc[k]);
    }
    TrimNoop(u);
  }

  /**
   * Where the "GB" branch puts the space in the compacted value `q` if it
   * is to separate the two groups the UK matcher recognises: after "BFPO",
   * otherwise before the last three characters.
   */
  function GroupBoundary(q: string): (k: nat)
    ensures k <= |q|
  {
    if |q| >= 4 && q[..4] == "BFPO" then 4 else if |q| >= 3 then |q| - 3 else |q|
  }

  /** `format_postcode` with the space put at the group boundary. */
  function FormatPostcodeByGroups(postcode: string, country: string): string {
    var p := Compact(postcode);
    if country == "GB" then InsertAt(p, ' ', GroupBoundary(p)) else p
  }

  lemma ByGroupsSplices(s: string)
    ensures var q := Compact(s); var k := GroupBoundary(q);
      k <= |q| && FormatPostcodeByGroups(s, "GB") == q[..k] + " " + q[k..]
  {
    var q := Compact(s);
    InsertAtSplits(q, ' ', GroupBoundary(q));
  }

  /** A compacted value with one space put anywhere compacts back to itself. */
  lemma CompactOfSplice(q: string, k: nat)
    requires Compacted(q) && k <= |q|
    ensures Compact(q[..k] + " " + q[k..]) == q
  {
    var r := q[..k] + " " + q[k..];
    InsertSpaceUpper(q, k);
    RemoveInsertedSpace(q, k, ' ');
    assert RemoveChars(ToUpper(r), IsSpace) == q;
    CompactSkipsFirstTrim(r);
    TrimNoop(q);
  }

  /** The corrected formatting also keeps the content: deleting its space gives the compacted value. */
  lemma FormatByGroupsLessSpaceIsCompact(s: string, country: string)
    ensures RemoveChars(FormatPostcodeByGroups(s, country), IsSpace) == Compact(s)
  {
    var q := Compact(s);
    CompactIsCompacted(s);
    if country == "GB" {
      ByGroupsSplices(s);
      RemoveInsertedSpace(q, GroupBoundary(q), ' ');
    } else {
      RemoveCharsNone(q, IsSpace);
    }
  }

  /** The corrected formatting is idempotent too. */
  lemma FormatByGroupsIdempotent(s: string, country: string)
    ensures FormatPostcodeByGroups(FormatPostcodeByGroups(s, country), country) == FormatPostcodeByGroups(s, country)
  {
    var q := Compact(s);
    CompactIsCompacted(s);
    var r := FormatPostcodeByGroups(s, country);
    if country == "GB" {
      ByGroupsSplices(s);
      CompactOfSplice(q, GroupBoundary(q));
      ByGroupsSplices(r);
    } else {
      CompactOfCompacted(q);
    }
  }

  /** Inserting a space into an upper-cased code upper-cases the two halves separately. */
  lemma InsertSpaceSplits(pc: string, k: nat)
    requires k <= |pc|
    ensures InsertAt(ToUpper(pc), ' ', k) == ToUpper(pc[..k]) + " " + ToUpper(pc[k..])
  {
    var q := ToUpper(pc);
    assert q[..k] == ToUpper(pc[..k]);
    assert q[k..] == ToUpper(pc[k..]);
  }

  /** In the upper-cased code, the corrected boundary is the one between the pattern's groups. */
  lemma GroupBoundaryOfMatch(pat: Pattern, pc: string)
    requires Matches(pat, pc) && pat != BfpoCareOf
    ensures GroupBoundary(ToUpper(pc)) == GroupSplit(pat, pc)
  {
    var q := ToUpper(pc);
    if pat == Bfpo {
      assert q[..4] == "BFPO" by {
        assert pc[..4] == "bfpo";
        forall k | 0 <= k < 4 ensures q[k] == "BFPO"[k] {
          assert q[k] == UpperChar(pc[..4][k]);
        }
      }
    } else {
      InwardFormsThirdChar(pat, pc);
      PatternChars(pat, pc);
      assert q[2] == UpperChar(pc[2]);
      assert q[..4] != "BFPO" by { assert q[..4][2] == q[2]; }
    }
  }

  /**
   * For every code the UK matcher accepts (other than the c/o BFPO form,
   * which `is_postcode` rejects anyway), the corrected formatting is the
   * pattern's first group, a space, and its second group, in upper case.
   */
  lemma FormatByGroupsSeparatesGroups(s: string, pat: Pattern)
    requires Matches(pat, Normalize(s)) && pat != BfpoCareOf
    ensures var pc := Normalize(s); var k := GroupSplit(pat, pc);
      FormatPostcodeByGroups(s, "GB") == ToUpper(pc[..k]) + " " + ToUpper(pc[k..])
  {
    var pc := Normalize(s);
    TableEntryMatches(PatternIndex(pat), pc);
    CompactOfGBPostcode(s);
    GroupBoundaryOfMatch(pat, pc);
    InsertSpaceSplits(pc, GroupSplit(pat, pc));
  }

  /** For a postcode the UK matcher accepts, `format_postcode` inserts the space into the upper-cased normalised code. */
  lemma FormatOfGBPostcode(s: string)
    requires IsGBPostcode(s)
    ensures var pc := Normalize(s);
      FormatPostcode(s, "GB") == InsertAt(ToUpper(pc), ' ', if |pc| == 7 then 4 else 3)
  {
    CompactOfGBPostcode(s);
  }

  /**
   * As written, the fixed offsets put the space at the group boundary for
   * 6- and 7-character codes with an inward code.
   */
  lemma FormatSeparatesGroupsOfSixOrSeven(s: string, pat: Pattern)
    requires Matches(pat, Normalize(s)) && pat != Bfpo && pat != BfpoCareOf
    requires 6 <= |Normalize(s)| <= 7
    ensures var pc := Normalize(s); var k := GroupSplit(pat, pc);
      FormatPostcode(s, "GB") == ToUpper(pc[..k]) + " " + ToUpper(pc[k..])
  {
    var pc := Normalize(s);
    TableEntryMatches(PatternIndex(pat), pc);
    FormatOfGBPostcode(s);
    var k := if |pc| == 7 then 4 else 3;
    InsertSpaceSplits(pc, k);
    assert GroupSplit(pat, pc) == k by {
      match pat
      case Standard =>
      case LetterDigitLetter =>
      case TwoLettersDigitLetter =>
      case Girobank =>
    }
  }

  /** "M1 1AE": outward code "m1", inward code "1ae". */
  lemma MatchesFiveChar(s: string)
    requires s == "M11AE"
    ensures Normalize(s) == "m11ae"
    ensures Matches(Standard, Normalize(s)) && GroupSplit(Standard, Normalize(s)) == 2
  {
    NormalizeAlphanumeric(s);
    var pc := ToLower(s);
    assert pc == "m11ae";
    assert StandardOutward(pc[..2]) by {
      assert pc[..2][0] == 'm' && pc[..2][1..] == "1";
    }
    assert Inward(pc[2..]);
  }

  /** In a string without spaces, the position of an inserted space identifies the insertion. */
  lemma InsertSpaceInjective(q: string, k1: nat, k2: nat)
    requires k1 <= |q| && k2 <= |q| && forall i :: 0 <= i < |q| ==> q[i] != ' '
    ensures InsertAt(q, ' ', k1) == InsertAt(q, ' ', k2) <==> k1 == k2
  {
    if k1 != k2 {
      var r1, r2 := InsertAt(q, ' ', k1), InsertAt(q, ' ', k2);
      assert r1[k1] == ' ';
      if k1 < k2 { assert r2[k1] == q[k1]; } else { assert r2[k1] == q[k1 - 1]; }
    }
  }

  /**
   * For an accepted UK postcode both formattings insert a space into the
   * upper-cased normalised code, which holds no space of its own.
   */
  lemma FormatsOfGBPostcode(s: string, pat: Pattern)
    requires Matches(pat, Normalize(s)) && pat != BfpoCareOf
    ensures var pc := Normalize(s); var q := ToUpper(pc);
      GroupSplit(pat, pc) <= |q| &&
      FormatPostcode(s, "GB") == InsertAt(q, ' ', SpaceIndex(|q|)) &&
      FormatPostcodeByGroups(s, "GB") == InsertAt(q, ' ', GroupSplit(pat, pc))
  {
    var pc := Normalize(s);
    TableEntryMatches(PatternIndex(pat), pc);
    CompactOfGBPostcode(s);
    GroupBoundaryOfMatch(pat, pc);
  }

  lemma UpperCodeHasNoSpace(pat: Pattern, pc: string)
    requires Matches(pat, pc)
    ensures forall i :: 0 <= i < |ToUpper(pc)| ==> ToUpper(pc)[i] != ' '
  {
    PatternChars(pat, pc);
    var q := ToUpper(pc);
    forall i | 0 <= i < |q| ensures q[i] != ' ' {
      assert q[i] == UpperChar(pc[i]);
    }
  }

  /**
   * As written, `format_postcode` agrees with the corrected member on an
   * accepted UK postcode exactly when the fixed offset falls on the
   * boundary between the pattern's two groups.
   */
  lemma FormatAgreesWithGroupsIff(s: string, pat: Pattern)
    requires Matches(pat, Normalize(s)) && pat != BfpoCareOf
    ensures var pc := Normalize(s);
      FormatPostcode(s, "GB") == FormatPostcodeByGroups(s, "GB") <==> SpaceIndex(|pc|) == GroupSplit(pat, pc)
  {
    var pc := Normalize(s);
    FormatsOfGBPostcode(s, pat);
    UpperCodeHasNoSpace(pat, pc);
    InsertSpaceInjective(ToUpper(pc), SpaceIndex(|pc|), GroupSplit(pat, pc));
  }

  /**
   * As written, a 5-character code gets its space inside the inward code:
   * "M1 1AE" is not formatted with the space between "M1" and "1AE".
   */
  lemma FormatSplitsFiveCharInward(s: string)
    requires s == "M11AE"
    ensures FormatPostcode(s, "GB") != FormatPostcodeByGroups(s, "GB")
  {
    MatchesFiveChar(s);
    FormatAgreesWithGroupsIff(s, Standard);
  }

  /** "BFPO 1234": the BFPO pattern with a four-digit number. */
  lemma MatchesBfpoNumber(s: string)
    requires s == "BFPO1234"
    ensures Normalize(s) == "bfpo1234" && Matches(Bfpo, Normalize(s))
  {
    var a, b := s[..4], s[4..];
    assert s == a + b;
    NormalizeAlphanumeric(s);
    ToLowerAppend(a, b);
    assert DigitRun(b, 1, 4);
    LowerFixed(b);
    assert ToLower(a) == "bfpo" && b == "1234";
    assert Normalize(s) == "bfpo" + b;
  }

  /** As written, a BFPO number of four digits gets its space inside "BFPO". */
  lemma FormatSplitsBfpo(s: string)
    requires s == "BFPO1234"
    ensures FormatPostcode(s, "GB") != FormatPostcodeByGroups(s, "GB")
  {
    MatchesBfpoNumber(s);
    FormatAgreesWithGroupsIff(s, Bfpo);
  }

  // ---------------------------------------------------------------------
  // is_postcode examples
  // ---------------------------------------------------------------------

  lemma PostcodeAcceptsUKCode(s: string)
    requires s == "SW1A 1AA"
    ensures IsPostcode(s, "GB")
  {
    assert forall i :: 0 <= i < |s| ==> PostcodeChar(s[i]);
    AcceptsUpperCaseWithSpace(s);
    PostcodeInGB(s);
  }

  lemma PostcodeRejectsPunctuation(s: string)
    requires s == "INVALID!"
    ensures !IsPostcode(s, "GB") && !IsPostcode(s, "US")
  {
    PostcodeRejectsForeignChar(s, "GB", 7);
    PostcodeRejectsForeignChar(s, "US", 7);
  }

  /** Outside "GB" any string of digits, such as a ZIP code, is accepted. */
  lemma PostcodeAcceptsDigits(s: string, country: string)
    requires country != "GB" && forall i :: 0 <= i < |s| ==> IsDigit(s[i])
    ensures IsPostcode(s, country)
  {
    PostcodeOutsideGB(s, country);
  }

  /** A hyphen passes the character filter but not the UK matcher. */
  lemma PostcodeHyphenSeparator(s: string)
    requires s == "SW1A-1AA"
    ensures IsPostcode(s, "US") && !IsPostcode(s, "GB")
  {
    SeparatorMustBeSpace(s, 4);
    PostcodeOutsideGB(s, "US");
    assert forall i :: 0 <= i < |s| ==> PostcodeChar(s[i]);
  }
}
