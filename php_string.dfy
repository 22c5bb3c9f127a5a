/**
 * The PHP built-ins that the validation class relies on, over `string`
 * (a sequence of single-byte characters), in the C locale:
 * `ctype_digit`, `strtolower`, `strtoupper`, `trim` with its default
 * character list, `preg_replace` with a one-character class and an empty
 * replacement, `str_replace` of one character by nothing, and
 * `substr_replace` with a zero-length replacement (an insertion).
 */
module PhpString {

  /** ASCII decimal digit, the `[0-9]` class and `ctype_digit`'s test in the C locale. */
  predicate IsDigit(c: char) {
    '0' <= c <= '9'
  }

  predicate IsUpper(c: char) {
    'A' <= c <= 'Z'
  }

  predicate IsLower(c: char) {
    'a' <= c <= 'z'
  }

  predicate IsAsciiLetter(c: char) {
    IsUpper(c) || IsLower(c)
  }

  /** PCRE's `\s`: space, horizontal tab, line feed, vertical tab, form feed, carriage return. */
  predicate IsSpace(c: char) {
    c == ' ' || c == '\t' || c == '\n' || c == '\U{0B}' || c == '\U{0C}' || c == '\r'
  }

  /** The characters `trim` strips when given no character list: " \t\n\r\0\x0B". */
  predicate IsTrimmable(c: char) {
    c == ' ' || c == '\t' || c == '\n' || c == '\r' || c == '\0' || c == '\U{0B}'
  }

  /** Every character is a NUL byte. */
  predicate AllNul(s: string) {
    forall i :: 0 <= i < |s| ==> s[i] == '\0'
  }

  /** `ctype_digit` on a string: false for "", otherwise every character is a digit. */
  predicate CtypeDigit(s: string) {
    |s| > 0 && forall i :: 0 <= i < |s| ==> IsDigit(s[i])
  }

  /** `strtolower` of one byte: a capital becomes the same letter in lower case. */
  function LowerChar(c: char): (d: char)
    ensures IsUpper(c) ==> IsLower(d) && d as int - 'a' as int == c as int - 'A' as int
    ensures !IsUpper(c) ==> d == c
  {
    if IsUpper(c) then (c as int + 32) as char else c
  }

  /** `strtoupper` of one byte: a small letter becomes the same letter in upper case. */
  function UpperChar(c: char): (d: char)
    ensures IsLower(c) ==> IsUpper(d) && d as int - 'A' as int == c as int - 'a' as int
    ensures !IsLower(c) ==> d == c
  {
    if IsLower(c) then (c as int - 32) as char else c
  }

  /** `strtolower` in the C locale: only 'A'..'Z' change. */
  function ToLower(s: string): string {
    seq(|s|, i requires 0 <= i < |s| => LowerChar(s[i]))
  }

  /** `strtoupper` in the C locale: only 'a'..'z' change. */
  function ToUpper(s: string): string {
    seq(|s|, i requires 0 <= i < |s| => UpperChar(s[i]))
  }

  /**
   * `preg_replace('/[class]/', '', s)`: every character of the class is
   * deleted and the others keep their order.
   */
  function RemoveChars(s: string, inClass: char -> bool): (r: string)
    ensures |r| <= |s|
  {
    if s == [] then []
    else (if inClass(s[0]) then [] else [s[0]]) + RemoveChars(s[1..], inClass)
  }

  /** The leading half of `trim`: the longest suffix that does not start with a trimmable character. */
  function TrimLeft(s: string): (r: string)
    ensures |r| <= |s| && r == s[|s| - |r|..]
    ensures forall i :: 0 <= i < |s| - |r| ==> IsTrimmable(s[i])
    ensures r == [] || !IsTrimmable(r[0])
  {
    if |s| > 0 && IsTrimmable(s[0]) then TrimLeft(s[1..]) else s
  }

  /** The trailing half of `trim`: the longest prefix that does not end with a trimmable character. */
  function TrimRight(s: string): (r: string)
    ensures |r| <= |s| && r == s[..|r|]
    ensures forall i :: |r| <= i < |s| ==> IsTrimmable(s[i])
    ensures r == [] || !IsTrimmable(r[|r| - 1])
  {
    if |s| > 0 && IsTrimmable(s[|s| - 1]) then TrimRight(s[..|s| - 1]) else s
  }

  /** `trim(s)` with the default character list. */
  function Trim(s: string): string {
    TrimRight(TrimLeft(s))
  }

  /**
   * `substr_replace(s, c, start, 0)` for a non-negative `start`: `c` is
   * inserted before index `start`, and a `start` past the end is clamped
   * to the length, so that `c` is appended.
   */
  function InsertAt(s: string, c: char, start: nat): (r: string)
    ensures |r| == |s| + 1
    ensures r[if start <= |s| then start else |s|] == c
    ensures start <= |s| ==> r[..start] == s[..start] && r[start + 1..] == s[start..]
    ensures start > |s| ==> r == s + [c]
  {
    var k := if start <= |s| then start else |s|;
    s[..k] + [c] + s[k..]
  }

  // ---------------------------------------------------------------------
  // Facts about the built-ins
  // ---------------------------------------------------------------------

  /** An insertion inside the string cuts it in two around the new character. */
  lemma InsertAtSplits(s: string, c: char, k: nat)
    requires k <= |s|
    ensures InsertAt(s, c, k) == s[..k] + [c] + s[k..]
  {
    var r := InsertAt(s, c, k);
    assert r == r[..k] + [c] + r[k + 1..];
  }

  lemma {:induction false} RemoveCharsAppend(a: string, b: string, inClass: char -> bool)
    ensures RemoveChars(a + b, inClass) == RemoveChars(a, inClass) + RemoveChars(b, inClass)
  {
    if a == [] {
      assert a + b == b;
    } else {
      assert (a + b)[1..] == a[1..] + b;
      RemoveCharsAppend(a[1..], b, inClass);
    }
  }

  /** What survives the deletion: exactly the characters of `s` outside the class. */
  lemma {:induction false} RemoveCharsMembers(s: string, inClass: char -> bool)
    ensures forall c :: c in RemoveChars(s, inClass) <==> c in s && !inClass(c)
  {
    if s != [] {
      RemoveCharsMembers(s[1..], inClass);
      assert forall c :: c in s <==> c == s[0] || c in s[1..];
    }
  }

  lemma {:induction false} RemoveCharsNone(s: string, inClass: char -> bool)
    requires forall i :: 0 <= i < |s| ==> !inClass(s[i])
    ensures RemoveChars(s, inClass) == s
  {
    if s != [] {
      RemoveCharsNone(s[1..], inClass);
    }
  }

  lemma {:induction false} RemoveCharsAll(s: string, inClass: char -> bool)
    requires forall i :: 0 <= i < |s| ==> inClass(s[i])
    ensures RemoveChars(s, inClass) == []
  {
    if s != [] {
      RemoveCharsAll(s[1..], inClass);
    }
  }

  /** Lower-casing after upper-casing is the same as lower-casing. */
  lemma LowerOfUpper(c: char)
    ensures LowerChar(UpperChar(c)) == LowerChar(c)
  {
  }

  /** Upper-casing twice is upper-casing once. */
  lemma UpperTwice(c: char)
    ensures UpperChar(UpperChar(c)) == UpperChar(c)
  {
  }

  /** Upper-casing after lower-casing is the same as upper-casing. */
  lemma UpperOfLower(c: char)
    ensures UpperChar(LowerChar(c)) == UpperChar(c)
  {
  }

  /** Nothing in an upper-cased string is left to upper-case. */
  lemma UpperIsFixed(s: string)
    ensures forall i :: 0 <= i < |s| ==> UpperChar(ToUpper(s)[i]) == ToUpper(s)[i]
  {
    forall i | 0 <= i < |s| ensures UpperChar(ToUpper(s)[i]) == ToUpper(s)[i] {
      UpperTwice(s[i]);
    }
  }

  lemma UpperFixed(s: string)
    requires forall i :: 0 <= i < |s| ==> UpperChar(s[i]) == s[i]
    ensures ToUpper(s) == s
  {
  }

  lemma ToLowerCons(s: string)
    requires s != []
    ensures ToLower(s) == [LowerChar(s[0])] + ToLower(s[1..])
  {
  }

  lemma ToUpperCons(s: string)
    requires s != []
    ensures ToUpper(s) == [UpperChar(s[0])] + ToUpper(s[1..])
  {
  }

  lemma ToLowerAppend(a: string, b: string)
    ensures ToLower(a + b) == ToLower(a) + ToLower(b)
  {
  }

  /** Lower-casing leaves a string without capitals as it is. */
  lemma LowerFixed(s: string)
    requires forall i :: 0 <= i < |s| ==> !IsUpper(s[i])
    ensures ToLower(s) == s
  {
  }

  lemma ToUpperAppend(a: string, b: string)
    ensures ToUpper(a + b) == ToUpper(a) + ToUpper(b)
  {
  }

  /** `trim(s)` is empty exactly when every character of `s` is trimmable. */
  lemma TrimEmptyIff(s: string)
    ensures Trim(s) == [] <==> forall i :: 0 <= i < |s| ==> IsTrimmable(s[i])
  {
    if Trim(s) == [] {
      assert TrimLeft(s) == [];
    }
  }

  /** A string that neither starts nor ends with a trimmable character is left alone by `trim`. */
  lemma TrimNoop(s: string)
    requires s == [] || (!IsTrimmable(s[0]) && !IsTrimmable(s[|s| - 1]))
    ensures Trim(s) == s
  {
  }

  lemma {:induction false} TrimLeftNulPrefix(n: string, z: string)
    requires AllNul(n)
    ensures TrimLeft(n + z) == TrimLeft(z)
  {
    if n != [] {
      assert (n + z)[1..] == n[1..] + z;
      TrimLeftNulPrefix(n[1..], z);
    } else {
      assert n + z == z;
    }
  }

  lemma {:induction false} TrimRightNulSuffix(z: string, n: string)
    requires AllNul(n)
    ensures TrimRight(z + n) == TrimRight(z)
  {
    if n != [] {
      assert (z + n)[..|z + n| - 1] == z + n[..|n| - 1];
      TrimRightNulSuffix(z, n[..|n| - 1]);
    } else {
      assert z + n == z;
    }
  }

  /** Once `trim` meets a character it keeps, whatever follows is kept too. */
  lemma {:induction false} TrimLeftAppend(z: string, w: string)
    requires TrimLeft(z) != []
    ensures TrimLeft(z + w) == TrimLeft(z) + w
  {
    if IsTrimmable(z[0]) {
      assert (z + w)[1..] == z[1..] + w;
      TrimLeftAppend(z[1..], w);
    }
  }

  /**
   * Padding made only of NUL bytes on either side of a string is removed
   * by `trim` together with whatever the string itself loses.
   */
  lemma TrimNulPadding(n1: string, z: string, n2: string)
    requires AllNul(n1) && AllNul(n2)
    ensures Trim(n1 + z + n2) == Trim(z)
  {
    TrimNulSuffix(n1 + z, n2);
    TrimNulPrefix(n1, z);
  }

  lemma TrimNulPrefix(n: string, w: string)
    requires AllNul(n)
    ensures Trim(n + w) == Trim(w)
  {
    TrimLeftNulPrefix(n, w);
  }

  lemma TrimNulSuffix(z: string, n2: string)
    requires AllNul(n2)
    ensures Trim(z + n2) == Trim(z)
  {
    if TrimLeft(z) != [] {
      TrimLeftAppend(z, n2);
      TrimRightNulSuffix(TrimLeft(z), n2);
    } else {
      TrimEmptyIff(z);
      var w := z + n2;
      assert forall k :: 0 <= k < |w| ==> IsTrimmable(w[k]) by {
        forall k | 0 <= k < |w| ensures IsTrimmable(w[k]) {
          if k < |z| { assert w[k] == z[k]; } else { assert w[k] == n2[k - |z|]; }
        }
      }
      TrimEmptyIff(w);
    }
  }

  /** `trim(s)` is a slice of `s` whose two cut-off ends are made of trimmable characters. */
  lemma TrimBounds(s: string) returns (a: nat, b: nat)
    ensures a <= b <= |s| && Trim(s) == s[a..b]
    ensures forall k :: 0 <= k < a ==> IsTrimmable(s[k])
    ensures forall k :: b <= k < |s| ==> IsTrimmable(s[k])
  {
    var l := TrimLeft(s);
    a := |s| - |l|;
    b := a + |TrimRight(l)|;
    forall k | b <= k < |s| ensures IsTrimmable(s[k]) {
      assert s[k] == l[k - a];
    }
  }

  /** `s` is `trim(s)` with a run of trimmable characters on either side. */
  lemma TrimSplit(s: string) returns (p: string, q: string)
    ensures s == p + Trim(s) + q
    ensures forall k :: 0 <= k < |p| ==> IsTrimmable(p[k])
    ensures forall k :: 0 <= k < |q| ==> IsTrimmable(q[k])
  {
    var a, b := TrimBounds(s);
    p, q := s[..a], s[b..];
    SliceThree(s, a, b);
  }

  lemma SliceThree(s: string, a: nat, b: nat)
    requires a <= b <= |s|
    ensures s == s[..a] + s[a..b] + s[b..]
  {
    assert s[..a] + s[a..b] == s[..b];
  }

  /** `trim` leaves a string that neither starts nor ends with a trimmable character, so a second `trim` changes nothing. */
  lemma TrimEnds(s: string)
    ensures Trim(s) == [] || (!IsTrimmable(Trim(s)[0]) && !IsTrimmable(Trim(s)[|Trim(s)| - 1]))
    ensures Trim(Trim(s)) == Trim(s)
  {
    TrimStartsAndEndsUntrimmable(s);
    TrimNoop(Trim(s));
  }

  lemma TrimStartsAndEndsUntrimmable(s: string)
    ensures Trim(s) == [] || (!IsTrimmable(Trim(s)[0]) && !IsTrimmable(Trim(s)[|Trim(s)| - 1]))
  {
    var l := TrimLeft(s);
    var t := TrimRight(l);
    if t != [] {
      assert t[0] == l[0];
    }
  }
}
