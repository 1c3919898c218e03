/** The two string operations the search filter relies on: lowercasing
    (`toLowerCase`, here over ASCII letters only) and the substring test
    `includes`. */
module Text {

  predicate IsUpper(c: char)
  {
    'A' <= c <= 'Z'
  }

  /** ASCII lowercasing of one character. */
  function LowerChar(c: char): (r: char)
    ensures !IsUpper(r)
    ensures IsUpper(c) ==> 'a' <= r <= 'z' && r as int - 'a' as int == c as int - 'A' as int
    ensures !IsUpper(c) ==> r == c
  {
    if IsUpper(c) then (c as int - 'A' as int + 'a' as int) as char else c
  }

  /** `toLowerCase()`, character by character. */
  function Lower(s: string): (r: string)
    ensures |r| == |s| && forall i :: 0 <= i < |s| ==> r[i] == LowerChar(s[i])
  {
    seq(|s|, i requires 0 <= i < |s| => LowerChar(s[i]))
  }

  /** JavaScript's `length`: the number of UTF-16 code units, two for a
      character above U+FFFF. Text with no such character, ASCII included,
      has as many code units as characters. */
  function Utf16Length(s: string): (r: nat)
    ensures |s| <= r <= 2 * |s|
    ensures (forall i :: 0 <= i < |s| ==> s[i] as int <= 0xFFFF) ==> r == |s|
  {
    if s == [] then 0 else Utf16Length(s[..|s| - 1]) + (if s[|s| - 1] as int > 0xFFFF then 2 else 1)
  }

  /** Lowercasing keeps the UTF-16 length. */
  lemma {:induction false} LowerKeepsUtf16Length(s: string)
    ensures Utf16Length(Lower(s)) == Utf16Length(s)
  {
    if s != [] {
      LowerKeepsUtf16Length(s[..|s| - 1]);
      assert Lower(s)[..|s| - 1] == Lower(s[..|s| - 1]);
    }
  }

  /** Appending characters never shortens a string. */
  lemma {:induction false} Utf16LengthGrows(a: string, b: string)
    ensures Utf16Length(a + b) >= Utf16Length(a)
  {
    if b != [] {
      Utf16LengthGrows(a, b[..|b| - 1]);
      var ab := a + b;
      assert ab != [] && ab[..|ab| - 1] == a + b[..|b| - 1];
    } else {
      assert a + b == a;
    }
  }

  lemma LowerIdempotent(s: string)
    ensures Lower(Lower(s)) == Lower(s)
  {
  }

  lemma LowerConcat(a: string, b: string)
    ensures Lower(a + b) == Lower(a) + Lower(b)
  {
  }

  /** `term` occurs in `text` starting at position `i`. */
  predicate OccursAt(term: string, text: string, i: nat)
  {
    i + |term| <= |text| && text[i..i + |term|] == term
  }

  /** The reference meaning of `text.includes(term)`. */
  ghost predicate IsSubstring(term: string, text: string)
  {
    exists i: nat :: OccursAt(term, text, i)
  }

  /** `text.includes(term)`: a left-to-right scan of the start positions. */
  function Includes(text: string, term: string): (r: bool)
    ensures r <==> IsSubstring(term, text)
    decreases |text|
  {
    if |text| < |term| then
      assert forall i: nat :: !OccursAt(term, text, i);
      false
    else if text[..|term|] == term then
      assert OccursAt(term, text, 0);
      true
    else
      var rest := Includes(text[1..], term);
      assert forall i: nat :: OccursAt(term, text[1..], i) <==> OccursAt(term, text, i + 1) by {
        forall i: nat ensures OccursAt(term, text[1..], i) <==> OccursAt(term, text, i + 1) {
          if i + |term| <= |text[1..]| {
            assert text[1..][i..i + |term|] == text[i + 1..i + 1 + |term|];
          }
        }
      }
      assert !OccursAt(term, text, 0);
      assert IsSubstring(term, text) ==> IsSubstring(term, text[1..]) by {
        if IsSubstring(term, text) {
          var i: nat :| OccursAt(term, text, i);
          assert i != 0;
          assert OccursAt(term, text[1..], i - 1);
        }
      }
      rest
  }

  /** Every occurrence of a longer term carries an occurrence of each of its
      prefixes. */
  lemma PrefixOccurs(term: string, more: string, text: string)
    requires IsSubstring(term + more, text)
    ensures IsSubstring(term, text)
  {
    var i: nat :| OccursAt(term + more, text, i);
    assert text[i..i + |term|] == text[i..i + |term + more|][..|term|];
    assert (term + more)[..|term|] == term;
    assert OccursAt(term, text, i);
  }
}
