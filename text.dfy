/** String operations the search relies on: lower-casing, substring containment
    and suffix tests, as Python's `str.lower`, `in` and `str.endswith` behave on
    ASCII text. */
module Text {

  /** `s` holds `t` starting at position `i`. */
  predicate OccursAt(s: string, t: string, i: nat)
  {
    i + |t| <= |s| && s[i..i + |t|] == t
  }

  /** Python's `s.endswith(suffix)`: case-sensitive, character for character. */
  predicate EndsWith(s: string, suffix: string)
  {
    |suffix| <= |s| && s[|s| - |suffix|..] == suffix
  }

  predicate IsUpper(c: char)
  {
    'A' <= c <= 'Z'
  }

  /** Lower-casing of one character; letters outside A-Z are left alone. */
  function LowerChar(c: char): (d: char)
    ensures IsUpper(c) ==> d as int == c as int + 32
    ensures !IsUpper(c) ==> d == c
    ensures !IsUpper(d)
  {
    if IsUpper(c) then (c as int + 32) as char else c
  }

  /** `s.lower()`: every character lower-cased in place, length unchanged. */
  function Lower(s: string): (r: string)
    ensures |r| == |s|
    ensures forall i :: 0 <= i < |s| ==> r[i] == LowerChar(s[i])
  {
    if s == [] then [] else [LowerChar(s[0])] + Lower(s[1..])
  }

  /** Lower-casing twice is lower-casing once. */
  lemma LowerIdempotent(s: string)
    ensures Lower(Lower(s)) == Lower(s)
  {
  }

  /** Two characters are the same letter up to ASCII case. */
  predicate SameUpToCase(c: char, d: char)
  {
    c == d || (IsUpper(c) && d as int == c as int + 32) || (IsUpper(d) && c as int == d as int + 32)
  }

  /** `p` and `q` spell the same text, each letter possibly in the other case
      (`"TEST"`, `"Test"` and `"tEsT"` are case variants of each other). */
  predicate CaseVariants(p: string, q: string)
  {
    |p| == |q| && forall i :: 0 <= i < |p| ==> SameUpToCase(p[i], q[i])
  }

  lemma CaseVariantsLowerEqual(p: string, q: string)
    requires CaseVariants(p, q)
    ensures Lower(p) == Lower(q)
  {
    forall i | 0 <= i < |p|
      ensures Lower(p)[i] == Lower(q)[i]
    {
      LowerCharSameUpToCase(p[i], q[i]);
    }
  }

  lemma LowerCharSameUpToCase(c: char, d: char)
    requires SameUpToCase(c, d)
    ensures LowerChar(c) == LowerChar(d)
  {
  }

  /** Python's `needle in hay` on strings: `needle` is a prefix of `hay` or of one
      of its suffixes.  The empty needle is contained in every string. */
  function Contains(hay: string, needle: string): bool
    decreases |hay|
  {
    if OccursAt(hay, needle, 0) then true
    else if hay == [] then false
    else Contains(hay[1..], needle)
  }

  /** `Contains` holds exactly when some position of `hay` starts a copy of `needle`. */
  lemma {:induction false} ContainsIffOccurs(hay: string, needle: string)
    ensures Contains(hay, needle) <==> exists i: nat :: OccursAt(hay, needle, i)
    decreases |hay|
  {
    if !OccursAt(hay, needle, 0) && hay != [] {
      ContainsIffOccurs(hay[1..], needle);
      forall i: nat ensures OccursAt(hay[1..], needle, i) <==> OccursAt(hay, needle, i + 1) {
        if i + |needle| <= |hay[1..]| {
          assert hay[1..][i..i + |needle|] == hay[i + 1..i + 1 + |needle|];
        }
      }
      forall i: nat | OccursAt(hay, needle, i)
        ensures OccursAt(hay[1..], needle, i - 1)
      {
        assert i != 0;
        assert OccursAt(hay[1..], needle, i - 1) <==> OccursAt(hay, needle, i - 1 + 1);
      }
    }
  }
}
