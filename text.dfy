/** Case-insensitive substring matching, as the ORM's `icontains` lookup
    performs it (ASCII case folding only). */
module Text {

  function LowerChar(c: char): char
  {
    if 'A' <= c <= 'Z' then (c as int + 32) as char else c
  }

  /** ASCII lower-casing of a whole string, character by character. */
  function Lower(s: string): (r: string)
    ensures |r| == |s|
  {
    seq(|s|, i requires 0 <= i < |s| => LowerChar(s[i]))
  }

  predicate IsPrefix(p: string, s: string)
  {
    |p| <= |s| && s[..|p|] == p
  }

  /** Scans `hay` from the left for an occurrence of `needle`. */
  function Contains(hay: string, needle: string): bool
    decreases |hay|
  {
    IsPrefix(needle, hay) || (|hay| > 0 && Contains(hay[1..], needle))
  }

  /** Reference definition: `needle` occurs in `hay` starting at index `i`. */
  ghost predicate OccursAt(hay: string, needle: string, i: int)
  {
    0 <= i && i + |needle| <= |hay| && hay[i..i + |needle|] == needle
  }

  /** `q__icontains` on a field value. */
  function ContainsCI(field: string, q: string): bool
  {
    Contains(Lower(field), Lower(q))
  }

  /** Every occurrence the reference definition admits is found by the scan. */
  lemma {:induction false} OccursImpliesContains(hay: string, needle: string, i: int)
    requires OccursAt(hay, needle, i)
    ensures Contains(hay, needle)
    decreases i
  {
    if i == 0 {
      assert IsPrefix(needle, hay);
    } else {
      assert hay[1..][i - 1..i - 1 + |needle|] == hay[i..i + |needle|];
      OccursImpliesContains(hay[1..], needle, i - 1);
    }
  }

  /** Whatever the scan finds is an occurrence by the reference definition. */
  lemma {:induction false} ContainsImpliesOccurs(hay: string, needle: string)
    requires Contains(hay, needle)
    ensures exists i :: OccursAt(hay, needle, i)
    decreases |hay|
  {
    if IsPrefix(needle, hay) {
      assert OccursAt(hay, needle, 0);
    } else {
      ContainsImpliesOccurs(hay[1..], needle);
      var i :| OccursAt(hay[1..], needle, i);
      assert hay[1..][i..i + |needle|] == hay[i + 1..i + 1 + |needle|];
      assert OccursAt(hay, needle, i + 1);
    }
  }

  /** The scan agrees with the reference definition, in both directions. */
  lemma ContainsIffOccurs(hay: string, needle: string)
    ensures Contains(hay, needle) <==> exists i :: OccursAt(hay, needle, i)
  {
    if Contains(hay, needle) {
      ContainsImpliesOccurs(hay, needle);
    }
    if exists i :: OccursAt(hay, needle, i) {
      var i :| OccursAt(hay, needle, i);
      OccursImpliesContains(hay, needle, i);
    }
  }

  /** An empty query matches every field value. */
  lemma EmptyQueryMatchesAll(field: string)
    ensures ContainsCI(field, "")
  {
    assert Lower("") == "";
  }

  lemma LowerIdempotent(s: string)
    ensures Lower(Lower(s)) == Lower(s)
  {
  }

  /** Folding the query's case first changes nothing. */
  lemma QueryCaseIrrelevant(field: string, q: string)
    ensures ContainsCI(field, Lower(q)) == ContainsCI(field, q)
  {
    LowerIdempotent(q);
  }

  /** An exact (case-sensitive) occurrence is also a case-insensitive one. */
  lemma ExactMatchIsCaseInsensitiveMatch(field: string, q: string)
    requires Contains(field, q)
    ensures ContainsCI(field, q)
  {
    ContainsImpliesOccurs(field, q);
    var i :| OccursAt(field, q, i);
    assert Lower(field)[i..i + |q|] == Lower(q);
    OccursImpliesContains(Lower(field), Lower(q), i);
  }
}
