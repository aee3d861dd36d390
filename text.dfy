/** The JavaScript string operations the core relies on: `trim`, `toLowerCase` (over ASCII)
    and `includes`. */
module Text {

  /** The characters `String.prototype.trim` strips: white space and line terminators. */
  predicate IsWhitespace(c: char) {
    || c == ' ' || c == '\t' || c == '\n' || c == '\r' || c == '\U{000B}' || c == '\U{000C}'
    || c == '\U{00A0}' || c == '\U{1680}' || ('\U{2000}' <= c <= '\U{200A}')
    || c == '\U{2028}' || c == '\U{2029}' || c == '\U{202F}' || c == '\U{205F}'
    || c == '\U{3000}' || c == '\U{FEFF}'
  }

  /** s holds nothing but white space (this includes the empty string). */
  predicate IsBlank(s: string) {
    forall i :: 0 <= i < |s| ==> IsWhitespace(s[i])
  }

  /** The index of the first character at or after i that is not white space (|s| if none). */
  function SkipLeading(s: string, i: nat): (k: nat)
    requires i <= |s|
    ensures i <= k <= |s|
    ensures forall j :: i <= j < k ==> IsWhitespace(s[j])
    ensures k == |s| || !IsWhitespace(s[k])
    decreases |s| - i
  {
    if i < |s| && IsWhitespace(s[i]) then SkipLeading(s, i + 1) else i
  }

  /** The index just past the last character of s[lo..j] that is not white space (lo if none). */
  function SkipTrailing(s: string, lo: nat, j: nat): (k: nat)
    requires lo <= j <= |s|
    ensures lo <= k <= j
    ensures forall i :: k <= i < j ==> IsWhitespace(s[i])
    ensures k == lo || !IsWhitespace(s[k - 1])
    decreases j
  {
    if j > lo && IsWhitespace(s[j - 1]) then SkipTrailing(s, lo, j - 1) else j
  }

  /** `String.prototype.trim`: the leading white space is skipped, then the trailing white
      space of what remains. */
  function Trim(s: string): (r: string)
    ensures |r| <= |s|
  {
    var lead := SkipLeading(s, 0);
    s[lead..SkipTrailing(s, lead, |s|)]
  }

  /** The trimmed string is a contiguous piece of s, white space is all that was cut off
      on either side, and it neither starts nor ends with white space. */
  lemma TrimIsCore(s: string)
    ensures var r := Trim(s);
      var lead := SkipLeading(s, 0);
      && lead + |r| <= |s|
      && r == s[lead..lead + |r|]
      && IsBlank(s[..lead]) && IsBlank(s[lead + |r|..])
      && (r == [] || (!IsWhitespace(r[0]) && !IsWhitespace(r[|r| - 1])))
  {
    var lead := SkipLeading(s, 0);
    var stop := SkipTrailing(s, lead, |s|);
    var r := Trim(s);
    assert r == s[lead..stop];
    assert IsBlank(s[..lead]) by {
      forall i | 0 <= i < lead ensures IsWhitespace(s[..lead][i]) {
        assert s[..lead][i] == s[i];
      }
    }
    assert IsBlank(s[stop..]) by {
      forall i | 0 <= i < |s| - stop ensures IsWhitespace(s[stop..][i]) {
        assert s[stop..][i] == s[stop + i];
      }
    }
    if r != [] {
      assert r[0] == s[lead] && r[|r| - 1] == s[stop - 1];
    }
  }

  /** Trimming leaves nothing exactly when the string is blank. */
  lemma TrimEmptyIffBlank(s: string)
    ensures Trim(s) == [] <==> IsBlank(s)
  {
    var lead := SkipLeading(s, 0);
    var stop := SkipTrailing(s, lead, |s|);
    assert Trim(s) == [] ==> stop == lead;
  }

  /** Trimming twice is trimming once. */
  lemma TrimIdempotent(s: string)
    ensures Trim(Trim(s)) == Trim(s)
  {
    var r := Trim(s);
    TrimIsCore(s);
    assert SkipLeading(r, 0) == 0;
    assert SkipTrailing(r, 0, |r|) == |r|;
    assert r[0..|r|] == r;
  }

  /** `toLowerCase` on one character, restricted to ASCII letters. */
  function LowerChar(c: char): (d: char)
  {
    if 'A' <= c <= 'Z' then (c as int + 32) as char else c
  }

  /** `String.prototype.toLowerCase`, restricted to ASCII letters. */
  function ToLower(s: string): (r: string)
    ensures |r| == |s|
    ensures forall i :: 0 <= i < |s| ==> r[i] == LowerChar(s[i])
  {
    seq(|s|, i requires 0 <= i < |s| => LowerChar(s[i]))
  }

  /** Lowercasing leaves no upper-case ASCII letter, and doing it twice changes nothing more. */
  lemma ToLowerIdempotent(s: string)
    ensures forall i :: 0 <= i < |s| ==> !('A' <= ToLower(s)[i] <= 'Z')
    ensures ToLower(ToLower(s)) == ToLower(s)
  {
  }

  /** Lowercasing maps white space to white space and nothing else to it. */
  lemma ToLowerWhitespace(s: string)
    ensures forall i :: 0 <= i < |s| ==> (IsWhitespace(ToLower(s)[i]) <==> IsWhitespace(s[i]))
  {
  }

  /** Lowercasing keeps white space and non-white space apart, so it commutes with trimming. */
  lemma {:induction false} SkipLeadingToLower(s: string, i: nat)
    requires i <= |s|
    requires forall j :: 0 <= j < |s| ==> (IsWhitespace(ToLower(s)[j]) <==> IsWhitespace(s[j]))
    ensures SkipLeading(ToLower(s), i) == SkipLeading(s, i)
    decreases |s| - i
  {
    if i < |s| && IsWhitespace(s[i]) {
      SkipLeadingToLower(s, i + 1);
    }
  }

  lemma {:induction false} SkipTrailingToLower(s: string, lo: nat, j: nat)
    requires lo <= j <= |s|
    requires forall i :: 0 <= i < |s| ==> (IsWhitespace(ToLower(s)[i]) <==> IsWhitespace(s[i]))
    ensures SkipTrailing(ToLower(s), lo, j) == SkipTrailing(s, lo, j)
    decreases j
  {
    if j > lo && IsWhitespace(s[j - 1]) {
      SkipTrailingToLower(s, lo, j - 1);
    }
  }

  lemma TrimToLower(s: string)
    ensures Trim(ToLower(s)) == ToLower(Trim(s))
  {
    ToLowerWhitespace(s);
    var lead := SkipLeading(s, 0);
    SkipLeadingToLower(s, 0);
    SkipTrailingToLower(s, lead, |s|);
    ToLowerSlice(s, lead, SkipTrailing(s, lead, |s|));
  }

  lemma ToLowerSlice(s: string, a: nat, b: nat)
    requires a <= b <= |s|
    ensures ToLower(s)[a..b] == ToLower(s[a..b])
  {
  }

  /** needle occurs in s starting at index i. */
  predicate OccursAt(s: string, needle: string, i: nat) {
    i + |needle| <= |s| && s[i..i + |needle|] == needle
  }

  /** `String.prototype.includes`: scan s for needle from the left. */
  predicate Includes(s: string, needle: string)
    decreases |s|
  {
    OccursAt(s, needle, 0) || (s != [] && Includes(s[1..], needle))
  }

  /** `includes` holds exactly when the needle occurs at some position. */
  lemma {:induction false} IncludesIff(s: string, needle: string)
    ensures Includes(s, needle) <==> exists i: nat :: OccursAt(s, needle, i)
    decreases |s|
  {
    if s != [] {
      IncludesIff(s[1..], needle);
      if Includes(s[1..], needle) {
        var i: nat :| OccursAt(s[1..], needle, i);
        assert OccursAt(s, needle, i + 1);
      }
      if i: nat :| OccursAt(s, needle, i) {
        if i > 0 {
          assert OccursAt(s[1..], needle, i - 1);
        }
      }
    }
  }

  /** The empty needle is found in every string. */
  lemma IncludesEmpty(s: string)
    ensures Includes(s, [])
  {
    assert OccursAt(s, [], 0);
  }
}
