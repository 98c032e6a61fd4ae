/**
 The slug disambiguation of the public write form: starting from the slug of
 the title, `base`, the candidates are `base`, `base-1`, `base-2`, ... and the
 first one no stored article holds is taken.
 */
module Slugs {
  import opened Text

  /** The `k`-th candidate: `base` itself, then `base-k`. */
  function Candidate(base: string, k: nat): string {
    if k == 0 then base else base + "-" + NatToString(k)
  }

  /** Distinct attempts produce distinct candidates. */
  lemma CandidateInjective(base: string, i: nat, j: nat)
    requires Candidate(base, i) == Candidate(base, j)
    ensures i == j
  {
    var p := base + "-";
    if i != 0 && j != 0 {
      assert NatToString(i) == Candidate(base, i)[|p|..];
      assert NatToString(j) == Candidate(base, j)[|p|..];
      NatToStringInjective(i, j);
    }
  }

  /** The first `n` candidates. */
  function Candidates(base: string, n: nat): set<string> {
    set j | 0 <= j < n :: Candidate(base, j)
  }

  /** The first `n` candidates are `n` different strings. */
  lemma {:induction false} CandidatesCount(base: string, n: nat)
    ensures |Candidates(base, n)| == n
  {
    if n > 0 {
      CandidatesCount(base, n - 1);
      assert Candidates(base, n) == Candidates(base, n - 1) + {Candidate(base, n - 1)};
      if Candidate(base, n - 1) in Candidates(base, n - 1) {
        var j :| 0 <= j < n - 1 && Candidate(base, j) == Candidate(base, n - 1);
        CandidateInjective(base, j, n - 1);
      }
    }
  }

  /** If the first `n` candidates are all taken, at least `n` slugs are taken. */
  lemma CandidatesBounded(base: string, n: nat, taken: set<string>)
    requires forall j :: 0 <= j < n ==> Candidate(base, j) in taken
    ensures n <= |taken|
  {
    CandidatesCount(base, n);
    SubsetSize(Candidates(base, n), taken);
  }

  lemma {:induction false} SubsetSize<T>(a: set<T>, b: set<T>)
    requires a <= b
    ensures |a| <= |b|
  {
    if a != {} {
      var x :| x in a;
      SubsetSize(a - {x}, b - {x});
    }
  }

  /** Candidate `k` is free and every earlier one is taken. */
  predicate FirstFree(taken: set<string>, base: string, k: nat) {
    Candidate(base, k) !in taken && forall j :: 0 <= j < k ==> Candidate(base, j) in taken
  }

  /** The index of the first free candidate at or after attempt `j`, when every
      earlier attempt is taken: the reference definition of the slug loop. */
  function FirstFreeFrom(taken: set<string>, base: string, j: nat): (k: nat)
    requires forall i :: 0 <= i < j ==> Candidate(base, i) in taken
    ensures FirstFree(taken, base, k)
    ensures j <= k <= |taken|
    decreases |taken| - j
  {
    CandidatesBounded(base, j, taken);
    if Candidate(base, j) !in taken then j
    else
      CandidatesBounded(base, j + 1, taken);
      FirstFreeFrom(taken, base, j + 1)
  }

  /** The index of the first free candidate. */
  function FirstFreeIndex(taken: set<string>, base: string): (k: nat)
    ensures FirstFree(taken, base, k) && k <= |taken|
  {
    FirstFreeFrom(taken, base, 0)
  }

  /** The first free candidate is reached within `|taken|` attempts, and there is only one. */
  lemma FirstFreeBound(taken: set<string>, base: string, k: nat, k': nat)
    requires FirstFree(taken, base, k) && FirstFree(taken, base, k')
    ensures k == k'
    ensures k <= |taken|
  {
    CandidatesBounded(base, k, taken);
  }

  /** Two submissions with the same title, when no candidate for its slug is
      taken yet: the first gets `base`, the second, seeing `base` taken, gets `base-1`. */
  lemma SameTitleTwice(taken: set<string>, base: string)
    requires forall j :: 0 <= j ==> Candidate(base, j) !in taken
    ensures FirstFree(taken, base, 0) && Candidate(base, 0) == base
    ensures FirstFree(taken + {base}, base, 1) && Candidate(base, 1) == base + "-1"
  {
    assert Candidate(base, 1) !in taken;
    if Candidate(base, 1) == base {
      CandidateInjective(base, 0, 1);
    }
    assert NatToString(1) == "1";
  }
}
