// Username validation and the leading-blank trimmer of the chat command
// layer (src/commands.cpp).
module Text {

  /** The longest display name `is_valid_username` accepts. */
  const MaxUsernameLength: nat := 32

  /** `std::isalnum` in the C locale: ASCII digits and letters only. */
  predicate IsAlnum(c: char) {
    ('0' <= c <= '9') || ('A' <= c <= 'Z') || ('a' <= c <= 'z')
  }

  /** A character a display name may contain. */
  predicate IsNameChar(c: char) {
    IsAlnum(c) || c == '_' || c == '-'
  }

  /** `std::all_of` over the name, scanning from the front. */
  function AllNameChars(s: string): (r: bool)
    ensures r <==> forall i :: 0 <= i < |s| ==> IsNameChar(s[i])
  {
    if s == [] then true else IsNameChar(s[0]) && AllNameChars(s[1..])
  }

  /** `is_valid_username`: non-empty, at most MaxUsernameLength characters,
      each alphanumeric, `_` or `-`. */
  function IsValidUsername(s: string): (r: bool)
    ensures |s| == 0 ==> !r
    ensures |s| > MaxUsernameLength ==> !r
    ensures 0 < |s| <= MaxUsernameLength ==>
              (r <==> forall i :: 0 <= i < |s| ==> IsNameChar(s[i]))
  {
    if s == [] || |s| > MaxUsernameLength then false else AllNameChars(s)
  }

  /** The two characters `ltrim_inplace` strips: space and tab. */
  predicate IsBlank(c: char) {
    c == ' ' || c == '\t'
  }

  /** What `ltrim_inplace` leaves of `s`: everything from the first
      character that is neither a space nor a tab. */
  function LTrim(s: string): (r: string)
    ensures |r| <= |s| && r == s[|s| - |r|..]
    ensures r != [] ==> !IsBlank(r[0])
  {
    if s != [] && IsBlank(s[0]) then LTrim(s[1..]) else s
  }

  /** `ltrim_inplace`: find the first non-blank position, then erase the
      prefix before it, or clear the string when there is none. */
  method LTrimInPlace(s: string) returns (t: string)
    ensures t == LTrim(s)
  {
    var pos := 0;
    while pos < |s| && IsBlank(s[pos])
      invariant 0 <= pos <= |s|
      invariant LTrim(s) == LTrim(s[pos..])
    {
      assert s[pos..][1..] == s[pos + 1..];
      pos := pos + 1;
    }
    if pos < |s| {
      t := s[pos..];
    } else {
      t := [];
    }
  }

  /** The trimmed string is a suffix of the input, what was cut off is all
      blanks, and what is left does not start with a blank. */
  lemma {:induction false} LTrimIsBlankFreeSuffix(s: string)
    ensures |LTrim(s)| <= |s|
    ensures LTrim(s) == s[|s| - |LTrim(s)|..]
    ensures forall i :: 0 <= i < |s| - |LTrim(s)| ==> IsBlank(s[i])
    ensures LTrim(s) != [] ==> !IsBlank(LTrim(s)[0])
  {
    if s != [] && IsBlank(s[0]) {
      LTrimIsBlankFreeSuffix(s[1..]);
      assert s[1..][|s| - 1 - |LTrim(s)|..] == s[|s| - |LTrim(s)|..];
    }
  }

  /** A string made only of spaces and tabs trims to the empty string, and
      only such a string does. */
  lemma {:induction false} LTrimEmptyIffAllBlank(s: string)
    ensures LTrim(s) == [] <==> forall i :: 0 <= i < |s| ==> IsBlank(s[i])
  {
    LTrimIsBlankFreeSuffix(s);
  }

  /** A string that does not start with a blank is left as it is. */
  lemma LTrimKeepsTrimmed(s: string)
    requires s == [] || !IsBlank(s[0])
    ensures LTrim(s) == s
  {
  }

  /** Trimming twice is trimming once. */
  lemma {:induction false} LTrimIdempotent(s: string)
    ensures LTrim(LTrim(s)) == LTrim(s)
  {
    LTrimIsBlankFreeSuffix(s);
    LTrimKeepsTrimmed(LTrim(s));
  }

  /** Blanks in front of a string make no difference to what is left. */
  lemma {:induction false} LTrimSkipsBlanks(b: string, s: string)
    requires forall i :: 0 <= i < |b| ==> IsBlank(b[i])
    ensures LTrim(b + s) == LTrim(s)
  {
    if b != [] {
      assert (b + s)[0] == b[0] && (b + s)[1..] == b[1..] + s;
      LTrimSkipsBlanks(b[1..], s);
    } else {
      assert b + s == s;
    }
  }

}
