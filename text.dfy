/** The two string operations the name filter relies on: `toUpperCase`
    (restricted to ASCII letters) and `includes` (substring search). */
module Text {

  /** ASCII upper-casing of one character; every other character is kept. */
  function UpperChar(c: char): char {
    if 'a' <= c <= 'z' then (c as int - 32) as char else c
  }

  /** `s.toUpperCase()`, character by character. */
  function Upper(s: string): (u: string)
    ensures |u| == |s|
  {
    if |s| == 0 then "" else [UpperChar(s[0])] + Upper(s[1..])
  }

  /** The needle occurs in the haystack starting at position i. */
  ghost predicate OccursAt(hay: string, needle: string, i: nat) {
    i + |needle| <= |hay| && hay[i..i + |needle|] == needle
  }

  /** `hay.includes(needle)`: try every start position from the left. */
  function Includes(hay: string, needle: string): (r: bool)
    ensures |needle| == 0 ==> r
    ensures r ==> |needle| <= |hay|
    decreases |hay|
  {
    if |hay| < |needle| then false
    else if hay[..|needle|] == needle then true
    else Includes(hay[1..], needle)
  }

  /** Upper-casing the empty string gives the empty string. */
  lemma UpperEmpty()
    ensures Upper("") == ""
  {
  }

  /** Upper-casing acts on each position separately. */
  lemma {:induction false} UpperAt(s: string, i: nat)
    requires i < |s|
    ensures Upper(s)[i] == UpperChar(s[i])
  {
    if i > 0 {
      UpperAt(s[1..], i - 1);
    }
  }

  /** Upper-casing twice is upper-casing once, so a query and its
      upper-cased form select the same names. */
  lemma {:induction false} UpperIdempotent(s: string)
    ensures Upper(Upper(s)) == Upper(s)
  {
    if |s| > 0 {
      UpperIdempotent(s[1..]);
      assert Upper(s)[1..] == Upper(s[1..]);
    }
  }

  /** If `includes` holds, the needle occurs at the position it returns. */
  lemma {:induction false} IncludesWitness(hay: string, needle: string) returns (i: nat)
    requires Includes(hay, needle)
    ensures OccursAt(hay, needle, i)
    decreases |hay|
  {
    if hay[..|needle|] == needle {
      i := 0;
    } else {
      var j := IncludesWitness(hay[1..], needle);
      i := j + 1;
      assert hay[1..][j..j + |needle|] == hay[i..i + |needle|];
    }
  }

  /** An occurrence at any position makes `includes` hold. */
  lemma {:induction false} IncludesFromOccurrence(hay: string, needle: string, i: nat)
    requires OccursAt(hay, needle, i)
    ensures Includes(hay, needle)
    decreases i
  {
    if hay[..|needle|] != needle {
      assert i != 0;
      assert hay[1..][i - 1..i - 1 + |needle|] == hay[i..i + |needle|];
      IncludesFromOccurrence(hay[1..], needle, i - 1);
    }
  }

  /** `includes` holds exactly when the needle occurs at some position. */
  lemma IncludesIff(hay: string, needle: string)
    ensures Includes(hay, needle) <==> exists i: nat :: OccursAt(hay, needle, i)
  {
    if Includes(hay, needle) {
      var i := IncludesWitness(hay, needle);
    }
    forall i: nat | OccursAt(hay, needle, i) ensures Includes(hay, needle) {
      IncludesFromOccurrence(hay, needle, i);
    }
  }

  /** The empty query is contained in every string. */
  lemma IncludesEmpty(hay: string)
    ensures Includes(hay, "")
  {
  }
}
