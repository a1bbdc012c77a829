/**
  The cap on the length of a pool's free list, and the truncation that
  enforces it (`cleanUpPool` in src/Pool.ts, on the list alone).
 */
module Limits {

  /** The limit of a pool: JavaScript `Infinity` (the default) or a natural number. */
  datatype Limit = Unbounded | Bounded(n: nat)

  /** True iff a list of this length is not over the limit. */
  predicate Fits<T>(s: seq<T>, limit: Limit) {
    limit.Unbounded? || |s| <= limit.n
  }

  /** The smaller of a length and a limit. */
  function MinLen(len: nat, limit: Limit): nat {
    match limit
    case Unbounded => len
    case Bounded(n) => if n < len then n else len
  }

  /** Assigning `length := limit` when the limit is below the length: keeps the
      first `limit` entries in their order and drops the rest. */
  function Trim<T>(s: seq<T>, limit: Limit): (r: seq<T>)
    ensures Fits(r, limit)
    ensures r <= s
    ensures |r| == MinLen(|s|, limit)
    ensures Fits(s, limit) <==> r == s
  {
    match limit
    case Unbounded => s
    case Bounded(n) => if n < |s| then s[..n] else s
  }

  /** Trimming keeps the longest prefix that fits: no longer prefix of `s` fits. */
  lemma TrimIsLongestFittingPrefix<T>(s: seq<T>, limit: Limit, q: seq<T>)
    requires q <= s && Fits(q, limit)
    ensures |q| <= |Trim(s, limit)|
    ensures q <= Trim(s, limit)
  {
    var r := Trim(s, limit);
    assert |q| <= |r| by {
      if !Fits(s, limit) {
        assert |q| <= limit.n;
      }
    }
    assert q == r[..|q|] by {
      assert q == s[..|q|] && r == s[..|r|];
    }
  }

  /** Trimming before appending more and trimming again is the same as trimming
      once after appending: a batch of appends followed by one trim equals a trim
      after every append. */
  lemma TrimAppendTrim<T>(s: seq<T>, t: seq<T>, limit: Limit)
    ensures Trim(Trim(s, limit) + t, limit) == Trim(s + t, limit)
  {
    match limit
    case Unbounded =>
    case Bounded(n) =>
      if n < |s| {
        assert Trim(s, limit) == s[..n];
        assert (s[..n] + t)[..n] == s[..n];
        assert (s + t)[..n] == s[..n];
      } else {
        assert Trim(s, limit) == s;
      }
  }
}
