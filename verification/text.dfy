/** The string operations the scraper applies to cell text: `str.strip()`,
    `str.replace(c, "")` and the substring test `needle in hay`. */
module Text {

  type String = seq<char>

  /** Python's `str.isspace` for one character: the whitespace of the Unicode database. */
  predicate IsSpace(c: char) {
    || c == ' '
    || ('\t' <= c <= '\r')
    || ('\U{1c}' <= c <= '\U{1f}')
    || c == '\U{85}'
    || c == '\U{a0}'
    || c == '\U{1680}'
    || ('\U{2000}' <= c <= '\U{200a}')
    || c == '\U{2028}'
    || c == '\U{2029}'
    || c == '\U{202f}'
    || c == '\U{205f}'
    || c == '\U{3000}'
  }

  /** Every character of `s` before position `i` is whitespace. */
  ghost predicate SpacesBefore(s: String, i: int) {
    forall k | 0 <= k < i && k < |s| :: IsSpace(s[k])
  }

  /** Every character of `s` from position `j` on is whitespace. */
  ghost predicate SpacesFrom(s: String, j: int) {
    forall k | 0 <= k && j <= k < |s| :: IsSpace(s[k])
  }

  /** `r` is the slice `s[i..j]`, with only whitespace outside it and no whitespace at either
      of its own ends. */
  ghost predicate StripCut(s: String, r: String, i: int, j: int) {
    && 0 <= i <= j <= |s|
    && r == s[i..j]
    && SpacesBefore(s, i)
    && SpacesFrom(s, j)
    && (i < j ==> !IsSpace(s[i]) && !IsSpace(s[j - 1]))
  }

  /** `r` is what remains of `s` once the whitespace at both ends is cut off. */
  ghost predicate IsStripOf(s: String, r: String) {
    exists i, j :: StripCut(s, r, i, j)
  }

  /** The number of whitespace characters that open `s`. */
  function LeadingSpaces(s: String): (n: nat)
    ensures n <= |s|
    ensures SpacesBefore(s, n)
    ensures n < |s| ==> !IsSpace(s[n])
  {
    if |s| > 0 && IsSpace(s[0]) then
      1 + LeadingSpaces(s[1..])
    else
      0
  }

  /** The number of whitespace characters that close `s`. */
  function TrailingSpaces(s: String): (n: nat)
    ensures n <= |s|
    ensures SpacesFrom(s, |s| - n)
    ensures n < |s| ==> !IsSpace(s[|s| - n - 1])
  {
    if |s| > 0 && IsSpace(s[|s| - 1]) then
      1 + TrailingSpaces(s[..|s| - 1])
    else
      0
  }

  /** Python's `s.strip()`. */
  function Strip(s: String): (r: String)
    ensures IsStripOf(s, r)
  {
    var i := LeadingSpaces(s);
    var m := TrailingSpaces(s[i..]);
    var j := |s| - m;
    assert StripCut(s, s[i..j], i, j);
    s[i..j]
  }

  /** At most one string is the strip of `s`: `IsStripOf` is an independent definition of `Strip`. */
  lemma StripUnique(s: String, a: String, b: String)
    requires IsStripOf(s, a) && IsStripOf(s, b)
    ensures a == b
  {
    var i1, j1 :| StripCut(s, a, i1, j1);
    var i2, j2 :| StripCut(s, b, i2, j2);
    StripCutsAgree(s, a, b, i1, j1, i2, j2);
  }

  /** Two cuts of the same string that both satisfy `StripCut` are the same cut. */
  lemma StripCutsAgree(s: String, a: String, b: String, i1: int, j1: int, i2: int, j2: int)
    requires StripCut(s, a, i1, j1) && StripCut(s, b, i2, j2)
    ensures a == b
  {
    if i1 < j1 && i2 < j2 {
      assert i1 == i2 && j1 == j2;
    }
  }

  /** Stripping twice is stripping once. */
  lemma StripIdempotent(s: String)
    ensures Strip(Strip(s)) == Strip(s)
  {
    var r := Strip(s);
    assert StripCut(r, r, 0, |r|);
    StripUnique(r, r, Strip(r));
  }

  /** Python's `s.replace(c, "")`: every occurrence of `c` removed, the rest kept in order. */
  function RemoveAll(s: String, c: char): (r: String)
    ensures c !in r
    ensures c !in s ==> r == s
  {
    if |s| == 0 then
      []
    else
      (if s[0] == c then [] else [s[0]]) + RemoveAll(s[1..], c)
  }

  /** Every other character keeps its number of occurrences. */
  lemma {:induction false} RemoveAllKeepsOthers(s: String, c: char)
    ensures multiset(RemoveAll(s, c)) == multiset(s)[c := 0]
    decreases |s|
  {
    if |s| > 0 {
      RemoveAllKeepsOthers(s[1..], c);
      assert s == [s[0]] + s[1..];
    }
  }

  /** Removal works character by character: it distributes over concatenation. Together with
      its effect on one character this determines `RemoveAll` completely. */
  lemma {:induction false} RemoveAllConcat(a: String, b: String, c: char)
    ensures RemoveAll(a + b, c) == RemoveAll(a, c) + RemoveAll(b, c)
    decreases |a|
  {
    if |a| > 0 {
      var head := if a[0] == c then [] else [a[0]];
      assert (a + b)[0] == a[0] && (a + b)[1..] == a[1..] + b;
      assert RemoveAll(a + b, c) == head + RemoveAll(a[1..] + b, c);
      assert RemoveAll(a, c) == head + RemoveAll(a[1..], c);
      RemoveAllConcat(a[1..], b, c);
    } else {
      assert a + b == b;
    }
  }

  /** `needle` occurs in `hay` at position `i`. */
  predicate StartsAt(hay: String, needle: String, i: nat)
    requires i <= |hay|
  {
    |needle| <= |hay| - i && hay[i..i + |needle|] == needle
  }

  /** Python's `needle in hay` for strings. */
  function Contains(hay: String, needle: String): (b: bool)
    ensures b <==> exists i | 0 <= i <= |hay| :: StartsAt(hay, needle, i)
    decreases |hay|
  {
    if StartsAt(hay, needle, 0) then
      true
    else if |hay| == 0 then
      false
    else
      var rest := hay[1..];
      assert forall i | 0 <= i <= |rest| :: StartsAt(rest, needle, i) == StartsAt(hay, needle, i + 1) by {
        forall i | 0 <= i <= |rest| ensures StartsAt(rest, needle, i) == StartsAt(hay, needle, i + 1) {
          if |needle| <= |rest| - i {
            assert rest[i..i + |needle|] == hay[i + 1..i + 1 + |needle|];
          }
        }
      }
      assert (exists i | 0 <= i <= |hay| :: StartsAt(hay, needle, i))
        ==> exists i | 0 <= i <= |rest| :: StartsAt(rest, needle, i) by {
        if i :| 0 <= i <= |hay| && StartsAt(hay, needle, i) {
          assert i != 0 && StartsAt(rest, needle, i - 1);
        }
      }
      Contains(rest, needle)
  }
}
