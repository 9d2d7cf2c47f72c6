/** Case-insensitive substring matching, the `icontains` lookup of the
    search view, restricted to ASCII case folding. */
module Text {

  /** ASCII lower-casing of one character; every other character is kept. */
  function Lower(c: char): char
  {
    if 'A' <= c <= 'Z' then (c as int + 32) as char else c
  }

  function LowerAll(s: string): string
  {
    seq(|s|, i requires 0 <= i < |s| => Lower(s[i]))
  }

  /** `needle` occurs in `hay` starting at offset `i`. */
  ghost predicate OccursAt(needle: string, hay: string, i: int)
  {
    0 <= i && i + |needle| <= |hay| && hay[i..i + |needle|] == needle
  }

  /** `needle` occurs in `hay` at offset `i` when letters are compared without case. */
  ghost predicate OccursAtIgnoringCase(needle: string, hay: string, i: int)
  {
    && 0 <= i && i + |needle| <= |hay|
    && forall j :: 0 <= j < |needle| ==> Lower(hay[i + j]) == Lower(needle[j])
  }

  ghost predicate IsSubstring(needle: string, hay: string)
  {
    exists i :: OccursAt(needle, hay, i)
  }

  ghost predicate IsSubstringIgnoringCase(needle: string, hay: string)
  {
    exists i :: OccursAtIgnoringCase(needle, hay, i)
  }

  /** An occurrence past the first position of `hay` is an occurrence in its tail. */
  lemma ShiftOccurrence(needle: string, hay: string, i: int)
    requires |hay| > 0 && i >= 1
    ensures OccursAt(needle, hay, i) <==> OccursAt(needle, hay[1..], i - 1)
  {
  }

  /** Substring search by scanning every start position of `hay`. */
  function Contains(hay: string, needle: string): (b: bool)
    ensures b <==> IsSubstring(needle, hay)
    decreases |hay|
  {
    if |needle| > |hay| then
      false
    else if needle <= hay then
      assert OccursAt(needle, hay, 0);
      true
    else
      var rest := Contains(hay[1..], needle);
      assert rest <==> IsSubstring(needle, hay) by {
        if rest {
          var i :| OccursAt(needle, hay[1..], i);
          ShiftOccurrence(needle, hay, i + 1);
        }
        if IsSubstring(needle, hay) {
          var i :| OccursAt(needle, hay, i);
          assert i != 0;
          ShiftOccurrence(needle, hay, i);
        }
      }
      rest
  }

  /** Lower-casing both sides turns a case-insensitive occurrence into an exact one. */
  lemma LoweredOccurrence(needle: string, hay: string, i: int)
    ensures OccursAt(LowerAll(needle), LowerAll(hay), i) <==> OccursAtIgnoringCase(needle, hay, i)
  {
    var ln, lh := LowerAll(needle), LowerAll(hay);
    if 0 <= i && i + |needle| <= |hay| {
      if OccursAtIgnoringCase(needle, hay, i) {
        assert lh[i..i + |ln|] == ln by {
          forall j | 0 <= j < |ln|
            ensures lh[i..i + |ln|][j] == ln[j]
          {
            assert lh[i + j] == Lower(hay[i + j]);
          }
        }
      }
      if OccursAt(ln, lh, i) {
        forall j | 0 <= j < |needle|
          ensures Lower(hay[i + j]) == Lower(needle[j])
        {
          assert lh[i..i + |ln|][j] == ln[j];
        }
      }
    }
  }

  /** Django's `icontains`: does `hay` contain `needle`, ignoring ASCII case? */
  function ContainsIgnoringCase(hay: string, needle: string): (b: bool)
    ensures b <==> IsSubstringIgnoringCase(needle, hay)
  {
    var b := Contains(LowerAll(hay), LowerAll(needle));
    assert b <==> IsSubstringIgnoringCase(needle, hay) by {
      if b {
        var i :| OccursAt(LowerAll(needle), LowerAll(hay), i);
        LoweredOccurrence(needle, hay, i);
      }
      if IsSubstringIgnoringCase(needle, hay) {
        var i :| OccursAtIgnoringCase(needle, hay, i);
        LoweredOccurrence(needle, hay, i);
      }
    }
    b
  }
}
