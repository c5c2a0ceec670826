/** String utilities of the catalog: whitespace trimming and ASCII upper-casing.
    Strings are sequences of characters; each character stands for one byte of
    the original `std::string`, and `isspace`/`toupper` are those of the C locale. */
module Text {

  /** `isspace` in the C locale: space, tab, newline, vertical tab, form feed, carriage return. */
  predicate IsSpace(c: char) {
    c == ' ' || 9 <= c as int <= 13
  }

  predicate IsLower(c: char) {
    'a' <= c <= 'z'
  }

  /**
   * `toupper` in the C locale: the result is never a lower-case letter, a
   * character changes exactly when it is one, a lower-case letter becomes
   * the capital at the same place in the alphabet, and whitespace is
   * neither created nor destroyed.
   */
  function ToUpperChar(c: char): (u: char)
    ensures !IsLower(u)
    ensures u == c <==> !IsLower(c)
    ensures IsSpace(u) <==> IsSpace(c)
    ensures IsLower(c) ==> 'A' <= u <= 'Z' && u as int - 'A' as int == c as int - 'a' as int
  {
    if IsLower(c) then (c as int - 32) as char else c
  }

  predicate AllSpace(s: string) {
    forall k :: 0 <= k < |s| ==> IsSpace(s[k])
  }

  /** Neither the first nor the last character is whitespace. */
  predicate NoEdgeSpace(s: string) {
    s == [] || (!IsSpace(s[0]) && !IsSpace(s[|s| - 1]))
  }

  /** No character is a lower-case letter, i.e. the string is already in upper-case form. */
  predicate IsUpperCase(s: string) {
    forall k :: 0 <= k < |s| ==> !IsLower(s[k])
  }

  // ---------------------------------------------------------------------
  // Specification functions

  /** The length of the maximal whitespace prefix of `s`. */
  function LeadingSpaceCount(s: string): (n: nat)
    ensures n <= |s|
    ensures AllSpace(s[..n])
    ensures n < |s| ==> !IsSpace(s[n])
  {
    if s != [] && IsSpace(s[0]) then 1 + LeadingSpaceCount(s[1..]) else 0
  }

  /** The length of the maximal whitespace suffix of `s`. */
  function TrailingSpaceCount(s: string): (n: nat)
    ensures n <= |s|
    ensures AllSpace(s[|s| - n..])
    ensures n < |s| ==> !IsSpace(s[|s| - 1 - n])
  {
    if s != [] && IsSpace(s[|s| - 1]) then 1 + TrailingSpaceCount(s[..|s| - 1]) else 0
  }

  function LTrimmed(s: string): string {
    s[LeadingSpaceCount(s)..]
  }

  function RTrimmed(s: string): string {
    s[..|s| - TrailingSpaceCount(s)]
  }

  /** `trim` is `rtrim` applied to the result of `ltrim`. */
  function Trimmed(s: string): string {
    RTrimmed(LTrimmed(s))
  }

  /** Every character passed through `toupper`. */
  function Upper(s: string): string {
    seq(|s|, i requires 0 <= i < |s| => ToUpperChar(s[i]))
  }

  // ---------------------------------------------------------------------
  // The imperative utilities

  /** `ltrim`: skip whitespace from the front by index. */
  method LTrim(s: string) returns (r: string)
    ensures r == LTrimmed(s)
  {
    var i := 0;
    while i < |s| && IsSpace(s[i])
      invariant 0 <= i <= |s|
      invariant AllSpace(s[..i])
    {
      i := i + 1;
    }
    r := s[i..];
  }

  /** `rtrim`: walk back from the last character while it is whitespace.
      The unsigned index never wraps past zero: the loop returns "" first. */
  method RTrim(s: string) returns (r: string)
    ensures r == RTrimmed(s)
  {
    if |s| == 0 {
      return s;
    }
    var i := |s| - 1;
    while IsSpace(s[i])
      invariant 0 <= i < |s|
      invariant AllSpace(s[i + 1..])
      decreases i
    {
      if i == 0 {
        assert AllSpace(s);
        return [];
      }
      i := i - 1;
    }
    r := s[..i + 1];
  }

  method Trim(s: string) returns (r: string)
    ensures r == Trimmed(s)
  {
    var l := LTrim(s);
    r := RTrim(l);
  }

  /** `to_upper_inplace`: overwrite each character with its upper-case form. */
  method ToUpperInPlace(s: string) returns (r: string)
    ensures r == Upper(s)
  {
    r := s;
    var i := 0;
    while i < |r|
      invariant 0 <= i <= |r| == |s|
      invariant forall k :: 0 <= k < i ==> r[k] == ToUpperChar(s[k])
      invariant forall k :: i <= k < |r| ==> r[k] == s[k]
    {
      r := r[i := ToUpperChar(r[i])];
      i := i + 1;
    }
  }

  // ---------------------------------------------------------------------
  // Properties of trim

  /** The trimmed string is the contiguous middle of `s` between a whitespace-only
      prefix and a whitespace-only suffix, and has no whitespace at either edge. */
  lemma {:induction false} TrimmedIsCore(s: string)
    ensures var i := LeadingSpaceCount(s);
            var j := i + |Trimmed(s)|;
            j <= |s| && Trimmed(s) == s[i..j] &&
            AllSpace(s[..i]) && AllSpace(s[j..]) && NoEdgeSpace(Trimmed(s))
  {
    var i := LeadingSpaceCount(s);
    var l := s[i..];
    var n := TrailingSpaceCount(l);
    var t := Trimmed(s);
    assert t == l[..|l| - n];
    assert s[i + |t|..] == l[|l| - n..];
    if t != [] {
      assert t[0] == s[i];
      assert t[|t| - 1] == l[|l| - 1 - n];
    }
  }

  /** Trimming leaves `s` unchanged exactly when `s` has no whitespace at either edge. */
  lemma {:induction false} TrimmedFixpoint(s: string)
    ensures Trimmed(s) == s <==> NoEdgeSpace(s)
  {
    TrimmedIsCore(s);
    if NoEdgeSpace(s) && s != [] {
      assert LeadingSpaceCount(s) == 0;
      assert LTrimmed(s) == s;
      assert TrailingSpaceCount(s) == 0;
    }
  }

  lemma TrimIdempotent(s: string)
    ensures Trimmed(Trimmed(s)) == Trimmed(s)
  {
    TrimmedIsCore(s);
    TrimmedFixpoint(Trimmed(s));
  }

  /** A string trims to nothing exactly when it is whitespace only (a blank line). */
  lemma {:induction false} TrimmedEmptyIffBlank(s: string)
    ensures Trimmed(s) == [] <==> AllSpace(s)
  {
    TrimmedIsCore(s);
    var i := LeadingSpaceCount(s);
    if Trimmed(s) == [] {
      assert i == |s|;
      forall k | 0 <= k < |s| ensures IsSpace(s[k]) {
        assert s[k] == s[..i][k];
      }
    } else {
      assert !IsSpace(s[i]);
    }
  }

  // ---------------------------------------------------------------------
  // Properties of upper-casing

  /** Upper-casing keeps the length, yields an upper-case string, and is idempotent. */
  lemma UpperIdempotent(s: string)
    ensures |Upper(s)| == |s|
    ensures IsUpperCase(Upper(s))
    ensures Upper(Upper(s)) == Upper(s)
  {
  }

  /** Upper-casing leaves `s` unchanged exactly when `s` is already upper case. */
  lemma {:induction false} UpperFixpoint(s: string)
    ensures Upper(s) == s <==> IsUpperCase(s)
  {
    if Upper(s) == s {
      forall k | 0 <= k < |s| ensures !IsLower(s[k]) {
        assert Upper(s)[k] == s[k];
      }
    }
  }

  /** Upper-casing changes no whitespace and no edge, so it commutes with the trim checks. */
  lemma {:induction false} UpperKeepsEdges(s: string)
    ensures NoEdgeSpace(s) ==> NoEdgeSpace(Upper(s))
    ensures Upper(s) == [] <==> s == []
  {
  }

  /** Upper-casing a slice is slicing the upper-cased string. */
  lemma UpperSlice(s: string, a: nat, b: nat)
    requires a <= b <= |s|
    ensures Upper(s[a..b]) == Upper(s)[a..b]
  {
  }

  lemma {:induction false} LeadingSpaceOfUpper(s: string)
    ensures LeadingSpaceCount(Upper(s)) == LeadingSpaceCount(s)
  {
    if s != [] {
      assert Upper(s)[0] == ToUpperChar(s[0]);
    }
    if s != [] && IsSpace(s[0]) {
      UpperSlice(s, 1, |s|);
      assert s[1..|s|] == s[1..] && Upper(s)[1..|s|] == Upper(s)[1..];
      LeadingSpaceOfUpper(s[1..]);
    }
  }

  lemma {:induction false} TrailingSpaceOfUpper(s: string)
    ensures TrailingSpaceCount(Upper(s)) == TrailingSpaceCount(s)
  {
    if s != [] {
      assert Upper(s)[|s| - 1] == ToUpperChar(s[|s| - 1]);
    }
    if s != [] && IsSpace(s[|s| - 1]) {
      UpperSlice(s, 0, |s| - 1);
      assert s[0..|s| - 1] == s[..|s| - 1] && Upper(s)[0..|s| - 1] == Upper(s)[..|s| - 1];
      TrailingSpaceOfUpper(s[..|s| - 1]);
    }
  }

  /** Upper-casing changes no whitespace, so it commutes with trimming: the order of
      `trim` and `to_upper_inplace` on a key does not matter. */
  lemma UpperTrimCommute(s: string)
    ensures Trimmed(Upper(s)) == Upper(Trimmed(s))
  {
    var i := LeadingSpaceCount(s);
    var l := s[i..];
    var n := TrailingSpaceCount(l);
    LeadingSpaceOfUpper(s);
    UpperSlice(s, i, |s|);
    assert s[i..|s|] == l && Upper(s)[i..|s|] == Upper(s)[i..];
    assert LTrimmed(Upper(s)) == Upper(l);
    TrailingSpaceOfUpper(l);
    UpperSlice(l, 0, |l| - n);
    assert l[0..|l| - n] == Trimmed(s);
    assert Upper(l)[0..|l| - n] == RTrimmed(Upper(l));
  }
}
