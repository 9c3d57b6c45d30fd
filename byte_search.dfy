/** Exact byte-pattern search over a container buffer: the `findBytes`
    helper of `decodeFsbToAudioBuffer`. */
module ByteSearch {

  /** True when `needle` occurs in `buf` starting at index `i`. */
  predicate MatchesAt(buf: seq<bv8>, needle: seq<bv8>, i: int)
  {
    0 <= i && i + |needle| <= |buf| && buf[i..i + |needle|] == needle
  }

  /** True when `i` is the lowest index at which `needle` occurs in `buf`. */
  predicate IsFirstMatch(buf: seq<bv8>, needle: seq<bv8>, i: int)
  {
    MatchesAt(buf, needle, i) && forall k :: 0 <= k < i ==> !MatchesAt(buf, needle, k)
  }

  /** True when `needle` occurs somewhere in `buf`. */
  ghost predicate Occurs(buf: seq<bv8>, needle: seq<bv8>)
  {
    exists i :: MatchesAt(buf, needle, i)
  }

  /** Left-to-right scan for `needle` starting at candidate index `from`;
      -1 when no candidate index at or after `from` matches. */
  function FindFrom(buf: seq<bv8>, needle: seq<bv8>, from: nat): (r: int)
    ensures r == -1 || (from <= r && MatchesAt(buf, needle, r))
    ensures r >= 0 ==> forall k :: from <= k < r ==> !MatchesAt(buf, needle, k)
    ensures r == -1 ==> forall k :: from <= k ==> !MatchesAt(buf, needle, k)
    decreases |buf| + 1 - from
  {
    if from + |needle| > |buf| then -1
    else if buf[from..from + |needle|] == needle then from
    else FindFrom(buf, needle, from + 1)
  }

  /** The specification of `findBytes`: the first occurrence of `needle`
      in `buf`, or -1 when there is none. */
  function Find(buf: seq<bv8>, needle: seq<bv8>): (r: int)
    ensures r == -1 || 0 <= r <= |buf| - |needle|
    ensures r >= 0 <==> Occurs(buf, needle)
    ensures r >= 0 ==> IsFirstMatch(buf, needle, r)
    ensures |needle| > |buf| ==> r == -1
  {
    FindFrom(buf, needle, 0)
  }

  /** `Find` is exactly the first occurrence: it returns `i` if and only if
      `i` is the lowest index where `needle` matches. */
  lemma FindIsFirstMatch(buf: seq<bv8>, needle: seq<bv8>, i: nat)
    ensures Find(buf, needle) == i <==> IsFirstMatch(buf, needle, i)
  {
    var r := Find(buf, needle);
    if IsFirstMatch(buf, needle, i) {
      assert MatchesAt(buf, needle, i);
      assert r >= 0;
      assert MatchesAt(buf, needle, r);
      assert !(r < i) && !(i < r);
    }
  }

  /** `Find` returns -1 exactly when `needle` occurs nowhere in `buf`. */
  lemma FindMissing(buf: seq<bv8>, needle: seq<bv8>)
    ensures Find(buf, needle) == -1 <==> forall i :: !MatchesAt(buf, needle, i)
  {
  }

  /** A match at `w` is a match at `w - s` in the suffix that starts at `s`. */
  lemma MatchInSuffix(buf: seq<bv8>, needle: seq<bv8>, s: nat, w: int)
    requires s <= w && MatchesAt(buf, needle, w)
    ensures MatchesAt(buf[s..], needle, w - s)
  {
    assert buf[s..][w - s..w - s + |needle|] == buf[w..w + |needle|];
  }

  /** The nested loop of `findBytes`: an outer scan over candidate start
      indices and an inner comparison loop that abandons a candidate at the
      first differing byte. The buffer is only read. */
  method FindBytes(buf: array<bv8>, needle: seq<bv8>) returns (r: int)
    ensures r == Find(buf[..], needle)
  {
    var i := 0;
    label outer:
    while i <= buf.Length - |needle|
      invariant 0 <= i
      invariant forall k :: 0 <= k < i ==> !MatchesAt(buf[..], needle, k)
      decreases buf.Length - |needle| + 1 - i
    {
      for j := 0 to |needle|
        invariant 0 <= i <= buf.Length - |needle|
        invariant forall k :: 0 <= k < i ==> !MatchesAt(buf[..], needle, k)
        invariant buf[i..i + j] == needle[..j]
      {
        if buf[i + j] != needle[j] {
          assert buf[..][i..i + |needle|][j] != needle[j];
          i := i + 1;
          continue outer;
        }
      }
      assert buf[..][i..i + |needle|] == needle;
      FindIsFirstMatch(buf[..], needle, i);
      return i;
    }
    FindMissing(buf[..], needle);
    return -1;
  }
}
