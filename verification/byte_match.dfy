/** The bounded substring search every parser relies on:
    memmem(haystack, hay_len, needle, needle_len). The firmware declares it
    and leaves its body empty, so it is given here by its specification: the
    first offset at which the needle occurs inside the haystack. */
module ByteMatch {
  import opened Common

  /** The needle occurs in the haystack starting at offset i. */
  predicate MatchesAt<T(==)>(hay: seq<T>, needle: seq<T>, i: nat)
  {
    i + |needle| <= |hay| && hay[i..i + |needle|] == needle
  }

  /** First offset at or after `from` where the needle matches. */
  function FindFrom<T(==)>(hay: seq<T>, needle: seq<T>, from: nat): (r: Option<nat>)
    requires from <= |hay| + 1
    decreases |hay| + 1 - from
    ensures r.Some? ==> from <= r.value && MatchesAt(hay, needle, r.value)
    ensures r.Some? ==> forall j :: from <= j < r.value ==> !MatchesAt(hay, needle, j)
    ensures r.None? ==> forall j :: from <= j ==> !MatchesAt(hay, needle, j)
  {
    if from + |needle| > |hay| then None
    else if hay[from..from + |needle|] == needle then Some(from)
    else FindFrom(hay, needle, from + 1)
  }

  /** memmem: the first offset i with i + |needle| <= |hay| where the bytes
      match, otherwise none. An empty needle matches at 0; a needle longer
      than the haystack is never found. */
  function Find<T(==)>(hay: seq<T>, needle: seq<T>): (r: Option<nat>)
    ensures r.Some? ==> MatchesAt(hay, needle, r.value)
    ensures r.Some? ==> forall j :: 0 <= j < r.value ==> !MatchesAt(hay, needle, j)
    ensures r.None? ==> forall j :: 0 <= j ==> !MatchesAt(hay, needle, j)
    ensures |needle| == 0 ==> r == Some(0)
    ensures |needle| > |hay| ==> r.None?
  {
    FindFrom(hay, needle, 0)
  }

  /** Find is determined by its contract: if the needle matches at p and at no
      earlier offset, Find answers p. */
  lemma FindIsFirstMatch<T>(hay: seq<T>, needle: seq<T>, p: nat)
    requires MatchesAt(hay, needle, p)
    requires forall j :: 0 <= j < p ==> !MatchesAt(hay, needle, j)
    ensures Find(hay, needle) == Some(p)
  {
  }

  /** A haystack that starts with the needle is matched at offset 0. */
  lemma FindAtStart<T>(hay: seq<T>, needle: seq<T>)
    requires |needle| <= |hay| && hay[..|needle|] == needle
    ensures Find(hay, needle) == Some(0)
  {
    assert hay[0..|needle|] == needle;
    FindIsFirstMatch(hay, needle, 0);
  }

  /** A match found in a prefix of the haystack is the match in the whole
      haystack, when the prefix already holds the first occurrence. */
  lemma FindInPrefix<T>(hay: seq<T>, needle: seq<T>, n: nat)
    requires n <= |hay|
    requires Find(hay[..n], needle).Some?
    ensures Find(hay, needle) == Find(hay[..n], needle)
  {
    var p := Find(hay[..n], needle).value;
    assert hay[..n][p..p + |needle|] == hay[p..p + |needle|];
    forall j | 0 <= j < p ensures !MatchesAt(hay, needle, j) {
      if MatchesAt(hay, needle, j) {
        assert hay[..n][j..j + |needle|] == hay[j..j + |needle|];
        assert MatchesAt(hay[..n], needle, j);
      }
    }
    FindIsFirstMatch(hay, needle, p);
  }
}
