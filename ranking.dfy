/** The ranked read of GET /leaderboard (src/index.js): copy the store, sort
    the copy by finalScore, highest first, and keep the first 100 entries. */
module Ranking {
  import opened Entries

  /** How many entries a ranked read returns at most. */
  const TopLimit: nat := 100

  /** Scores never increase from one position to any later one. */
  predicate Sorted(s: seq<Entry>)
  {
    forall i, j :: 0 <= i < j < |s| ==> s[i].finalScore >= s[j].finalScore
  }

  /** Inserts `x` in front of the first entry that scores no more than `x`,
      so `x` follows every entry with a strictly higher score and precedes
      later entries with an equal one. */
  function InsertByScore(x: Entry, t: seq<Entry>): (r: seq<Entry>)
    ensures |r| == |t| + 1
    ensures multiset(r) == multiset(t) + multiset{x}
  {
    if t == [] || x.finalScore >= t[0].finalScore then [x] + t
    else
      assert t == [t[0]] + t[1..];
      [t[0]] + InsertByScore(x, t[1..])
  }

  /** The comparator sort `(a, b) => b.finalScore - a.finalScore`, as a
      stable insertion sort. Entries of equal score keep their store order. */
  function SortByScore(s: seq<Entry>): (r: seq<Entry>)
    ensures |r| == |s|
    ensures multiset(r) == multiset(s)
  {
    if s == [] then []
    else
      assert s == [s[0]] + s[1..];
      InsertByScore(s[0], SortByScore(s[1..]))
  }

  function Min(a: int, b: int): (m: int)
  {
    if a <= b then a else b
  }

  /** The ranked read: the sorted copy cut to its first TopLimit entries. */
  function TopList(s: seq<Entry>): (r: seq<Entry>)
  {
    var sorted := SortByScore(s);
    sorted[..Min(|sorted|, TopLimit)]
  }

  lemma {:induction false} InsertKeepsSorted(x: Entry, t: seq<Entry>)
    requires Sorted(t)
    ensures Sorted(InsertByScore(x, t))
  {
    if t == [] || x.finalScore >= t[0].finalScore {
    } else {
      var rest := InsertByScore(x, t[1..]);
      InsertKeepsSorted(x, t[1..]);
      forall j | 0 <= j < |rest| ensures t[0].finalScore >= rest[j].finalScore {
        assert rest[j] in multiset(rest);
        if rest[j] != x {
          assert rest[j] in multiset(t[1..]);
          var k :| 0 <= k < |t[1..]| && t[1..][k] == rest[j];
          assert t[k + 1] == rest[j];
        }
      }
    }
  }

  /** The sort orders by score, highest first. */
  lemma {:induction false} SortByScoreSorted(s: seq<Entry>)
    ensures Sorted(SortByScore(s))
  {
    if s != [] {
      SortByScoreSorted(s[1..]);
      InsertKeepsSorted(s[0], SortByScore(s[1..]));
    }
  }

  /** Position k of a sequence taken out. */
  function Without(b: seq<Entry>, k: nat): (b': seq<Entry>)
    requires k < |b|
    ensures |b'| == |b| - 1
    ensures forall i :: 0 <= i < |b'| ==> b'[i] == if i < k then b[i] else b[i + 1]
  {
    b[..k] + b[k + 1..]
  }

  /** Taking one position out removes exactly that entry from the multiset. */
  lemma WithoutMultiset(b: seq<Entry>, k: nat)
    requires k < |b|
    ensures multiset(Without(b, k)) == multiset(b) - multiset{b[k]}
  {
    assert b == b[..k] + [b[k]] + b[k + 1..];
  }

  /** Taking one position out of a sorted sequence leaves it sorted. */
  lemma WithoutSorted(b: seq<Entry>, k: nat)
    requires k < |b| && Sorted(b)
    ensures Sorted(Without(b, k))
  {
  }

  /** The first entries of two sorted sequences holding the same entries
      have the same score: both hold the highest score present. */
  lemma SortedHeadScore(a: seq<Entry>, b: seq<Entry>)
    requires Sorted(a) && Sorted(b) && multiset(a) == multiset(b) && a != []
    ensures b != [] && a[0].finalScore == b[0].finalScore
  {
    assert a[0] in multiset(b);
    assert b != [] && b[0] in multiset(a);
    var j :| 0 <= j < |a| && a[j] == b[0];
    var k :| 0 <= k < |b| && b[k] == a[0];
  }

  /** Scores agree position by position when the tail of `a` agrees with
      `b` less position k, and `a[0]`, `b[0]` and `b[k]` share one score. */
  lemma ScoresAfterRemoval(a: seq<Entry>, b: seq<Entry>, k: nat)
    requires Sorted(b) && 0 < |a| == |b| && k < |b|
    requires a[0].finalScore == b[0].finalScore == b[k].finalScore
    requires forall i :: 0 <= i < |a| - 1 ==> a[1..][i].finalScore == Without(b, k)[i].finalScore
    ensures forall i :: 0 <= i < |a| ==> a[i].finalScore == b[i].finalScore
  {
    var b' := Without(b, k);
    forall i | 0 < i < |a| ensures a[i].finalScore == b[i].finalScore {
      assert a[i] == a[1..][i - 1];
      if i <= k {
        assert b[i].finalScore <= b[0].finalScore;
        assert b[i].finalScore >= b[k].finalScore;
        assert b'[i - 1] == b[i - 1];
      } else {
        assert b'[i - 1] == b[i];
      }
    }
  }

  /** Two sorted sequences holding the same entries have the same score at
      every position: only the order among equal scores can differ. */
  lemma {:induction false} SortedPermutationScores(a: seq<Entry>, b: seq<Entry>)
    requires Sorted(a) && Sorted(b) && multiset(a) == multiset(b)
    ensures |a| == |b|
    ensures forall i :: 0 <= i < |a| ==> a[i].finalScore == b[i].finalScore
    decreases |a|
  {
    assert |a| == |multiset(a)| == |multiset(b)| == |b|;
    if a != [] {
      SortedHeadScore(a, b);
      assert a[0] in multiset(b);
      var k :| 0 <= k < |b| && b[k] == a[0];
      WithoutMultiset(b, k);
      WithoutSorted(b, k);
      assert a == [a[0]] + a[1..];
      assert multiset(a[1..]) == multiset(Without(b, k));
      SortedPermutationScores(a[1..], Without(b, k));
      ScoresAfterRemoval(a, b, k);
    }
  }

  /** The ranked read holds min(n, TopLimit) of the n stored entries, in
      score order (every entry scores at least as much as the next), all
      taken from the store, and with TopLimit or fewer stored it holds all
      of them. */
  lemma {:induction false} TopListSpec(s: seq<Entry>)
    ensures |TopList(s)| == Min(|s|, TopLimit)
    ensures Sorted(TopList(s))
    ensures forall i :: 0 <= i < |TopList(s)| - 1 ==> TopList(s)[i].finalScore >= TopList(s)[i + 1].finalScore
    ensures multiset(TopList(s)) <= multiset(s)
    ensures |s| <= TopLimit ==> multiset(TopList(s)) == multiset(s)
  {
    var sorted := SortByScore(s);
    var n := Min(|sorted|, TopLimit);
    SortByScoreSorted(s);
    assert sorted == sorted[..n] + sorted[n..];
    assert multiset(sorted) == multiset(sorted[..n]) + multiset(sorted[n..]);
    if |s| <= TopLimit {
      assert sorted[..n] == sorted;
    }
  }

  /** In a sorted sequence, nothing after position n - 1 scores more than it. */
  lemma TailBelow(t: seq<Entry>, n: nat)
    requires Sorted(t) && 0 < n <= |t|
    ensures forall e :: e in t[n..] ==> e.finalScore <= t[n - 1].finalScore
  {
  }

  /** What a prefix leaves out of a sequence's multiset is the rest. */
  lemma SplitMultiset(t: seq<Entry>, n: nat)
    requires n <= |t|
    ensures multiset(t) - multiset(t[..n]) == multiset(t[n..])
  {
    assert t == t[..n] + t[n..];
  }

  /** No entry the ranked read leaves out scores more than the last entry
      it returns. */
  lemma {:induction false} TopListOmitted(s: seq<Entry>)
    ensures forall e :: e in multiset(s) - multiset(TopList(s)) ==>
      0 < |TopList(s)| && e.finalScore <= TopList(s)[|TopList(s)| - 1].finalScore
  {
    var sorted := SortByScore(s);
    var n := Min(|sorted|, TopLimit);
    SplitMultiset(sorted, n);
    if s != [] {
      SortByScoreSorted(s);
      TailBelow(sorted, n);
      assert TopList(s)[n - 1] == sorted[n - 1];
    }
  }

  /** Whatever order a sort gives to entries of equal score, the ranked read
      has the same score at every position. */
  lemma TopListScoresUnique(s: seq<Entry>, t: seq<Entry>)
    requires Sorted(t) && multiset(t) == multiset(s)
    ensures |TopList(s)| == Min(|t|, TopLimit)
    ensures forall i :: 0 <= i < |TopList(s)| ==> TopList(s)[i].finalScore == t[i].finalScore
  {
    SortByScoreSorted(s);
    SortedPermutationScores(SortByScore(s), t);
  }

  /** An entry is visible in the ranked read as soon as it is stored while
      fewer than TopLimit entries were there before it. */
  lemma NewEntryVisible(s: seq<Entry>, e: Entry)
    requires |s| < TopLimit
    ensures e in TopList(s + [e])
  {
    TopListSpec(s + [e]);
    assert e in multiset(s + [e]);
    assert e in multiset(TopList(s + [e]));
  }
}
