/** Facts about sequences of keys under `<`: the in-order key sequence of an ordering is what the
    bound, count and neighbour checks are specified against. */
module SortedSeq {

  /** Non-decreasing: what an ordering that admits equal keys keeps. */
  ghost predicate Sorted(ks: seq<int>)
  {
    forall i, j :: 0 <= i < j < |ks| ==> ks[i] <= ks[j]
  }

  /** Increasing: what a unique ordering keeps. */
  ghost predicate StrictlySorted(ks: seq<int>)
  {
    forall i, j :: 0 <= i < j < |ks| ==> ks[i] < ks[j]
  }

  /** Sorted, except possibly for the entry at position `i`: every pair not involving `i` is in
      order. This is the state after a record's key was changed in place. */
  ghost predicate SortedExcept(ks: seq<int>, i: nat)
  {
    forall a, b :: 0 <= a < b < |ks| && a != i && b != i ==> ks[a] <= ks[b]
  }

  /** The position of the first key not less than `k` (|ks| when there is none). */
  function FirstAtLeast(ks: seq<int>, k: int): (p: nat)
    ensures p <= |ks|
  {
    if ks == [] then 0 else if k <= ks[0] then 0 else 1 + FirstAtLeast(ks[1..], k)
  }

  /** The position of the first key greater than `k` (|ks| when there is none). */
  function FirstGreater(ks: seq<int>, k: int): (p: nat)
    ensures p <= |ks|
  {
    if ks == [] then 0 else if k < ks[0] then 0 else 1 + FirstGreater(ks[1..], k)
  }

  /** How many keys equal `k`. */
  function Occurrences(ks: seq<int>, k: int): nat
  {
    if ks == [] then 0 else (if ks[0] == k then 1 else 0) + Occurrences(ks[1..], k)
  }

  /** `p` is the first position with a key not less than `k` exactly when every key before it
      is less than `k` and the key at `p`, if any, is not. */
  lemma {:induction false} FirstAtLeastIs(ks: seq<int>, k: int, p: nat)
    ensures p == FirstAtLeast(ks, k) <==>
      p <= |ks| && (forall j :: 0 <= j < p ==> ks[j] < k) && (p < |ks| ==> k <= ks[p])
  {
    if ks != [] && ks[0] < k && p > 0 {
      var t := ks[1..];
      FirstAtLeastIs(t, k, p - 1);
      if p <= |ks| {
        assert forall j :: 0 <= j < p - 1 ==> t[j] == ks[j + 1];
        assert (forall j :: 0 <= j < p ==> ks[j] < k) <==> (forall j :: 0 <= j < p - 1 ==> t[j] < k);
      }
    }
  }

  /** `p` is the first position with a key greater than `k` exactly when every key before it
      is at most `k` and the key at `p`, if any, is greater. */
  lemma {:induction false} FirstGreaterIs(ks: seq<int>, k: int, p: nat)
    ensures p == FirstGreater(ks, k) <==>
      p <= |ks| && (forall j :: 0 <= j < p ==> ks[j] <= k) && (p < |ks| ==> k < ks[p])
  {
    if ks != [] && ks[0] <= k && p > 0 {
      var t := ks[1..];
      FirstGreaterIs(t, k, p - 1);
      if p <= |ks| {
        assert forall j :: 0 <= j < p - 1 ==> t[j] == ks[j + 1];
        assert (forall j :: 0 <= j < p ==> ks[j] <= k) <==> (forall j :: 0 <= j < p - 1 ==> t[j] <= k);
      }
    }
  }

  /** The first key greater than `k` never comes before the first key not less than `k`. */
  lemma {:induction false} BoundsOrdered(ks: seq<int>, k: int)
    ensures FirstAtLeast(ks, k) <= FirstGreater(ks, k) <= |ks|
  {
    if ks != [] {
      BoundsOrdered(ks[1..], k);
    }
  }

  /** In a sorted sequence the keys equal to `k` form one run, from the first key not less than
      `k` up to the first key greater than `k`. */
  lemma {:induction false} OccurrencesRun(ks: seq<int>, k: int)
    requires Sorted(ks)
    ensures Occurrences(ks, k) == FirstGreater(ks, k) - FirstAtLeast(ks, k)
  {
    if ks != [] {
      var rest := ks[1..];
      assert Sorted(rest) by {
        forall i, j | 0 <= i < j < |rest| ensures rest[i] <= rest[j] {
          assert rest[i] == ks[i + 1] && rest[j] == ks[j + 1];
        }
      }
      OccurrencesRun(rest, k);
      BoundsOrdered(rest, k);
      if k < ks[0] {
        FirstAtLeastIs(rest, k, 0);
        FirstGreaterIs(rest, k, 0);
      } else if k == ks[0] {
        FirstAtLeastIs(rest, k, 0);
      }
    }
  }

  /** A key occurs nowhere exactly when it is counted zero times. */
  lemma {:induction false} OccurrencesZero(ks: seq<int>, k: int)
    ensures Occurrences(ks, k) == 0 <==> k !in ks
  {
    if ks != [] {
      OccurrencesZero(ks[1..], k);
      assert ks == [ks[0]] + ks[1..];
    }
  }

  /** In an increasing sequence every key occurs at most once. */
  lemma {:induction false} OccurrencesAtMostOne(ks: seq<int>, k: int)
    requires StrictlySorted(ks)
    ensures Occurrences(ks, k) <= 1
  {
    if ks != [] {
      var rest := ks[1..];
      assert StrictlySorted(rest) by {
        forall i, j | 0 <= i < j < |rest| ensures rest[i] < rest[j] {
          assert rest[i] == ks[i + 1] && rest[j] == ks[j + 1];
        }
      }
      OccurrencesAtMostOne(rest, k);
      if ks[0] == k {
        OccurrencesZero(rest, k);
        forall x | x in rest ensures x != k {
          var j :| 0 <= j < |rest| && rest[j] == x;
          assert ks[j + 1] == x;
        }
      }
    }
  }

  /** When only the key at `i` may be out of place, the whole sequence is sorted exactly when
      that key is not less than its predecessor and not greater than its successor. */
  lemma NeighboursDecide(ks: seq<int>, i: nat)
    requires i < |ks| && SortedExcept(ks, i)
    ensures Sorted(ks) <==>
      (i == 0 || ks[i - 1] <= ks[i]) && (i + 1 == |ks| || ks[i] <= ks[i + 1])
  {
    if (i == 0 || ks[i - 1] <= ks[i]) && (i + 1 == |ks| || ks[i] <= ks[i + 1]) {
      forall a, b | 0 <= a < b < |ks| ensures ks[a] <= ks[b] {
        if a == i {
          if b > i + 1 { assert ks[i + 1] <= ks[b]; }
        } else if b == i {
          if a < i - 1 { assert ks[a] <= ks[i - 1]; }
        }
      }
    }
  }

  /** Putting `k` at the first position whose key is greater than `k` keeps the sequence sorted,
      and increasing if it was increasing and did not hold `k`. */
  lemma InsertSorted(ks: seq<int>, k: int, g: nat)
    requires Sorted(ks) && g == FirstGreater(ks, k)
    ensures g <= |ks|
    ensures Sorted(ks[..g] + [k] + ks[g..])
    ensures StrictlySorted(ks) && k !in ks ==> StrictlySorted(ks[..g] + [k] + ks[g..])
  {
    FirstGreaterIs(ks, k, g);
    var r := ks[..g] + [k] + ks[g..];
    forall i, j | 0 <= i < j < |r| ensures r[i] <= r[j] {
      InsertedAt(ks, k, g, i);
      InsertedAt(ks, k, g, j);
    }
    if StrictlySorted(ks) && k !in ks {
      forall i, j | 0 <= i < j < |r| ensures r[i] < r[j] {
        InsertedAt(ks, k, g, i);
        InsertedAt(ks, k, g, j);
        if i < g && j == g {
          assert ks[i] in ks;
        } else if i == g {
          assert ks[j - 1] in ks;
        }
      }
    }
  }

  lemma InsertedAt(ks: seq<int>, k: int, g: nat, i: nat)
    requires g <= |ks| && i <= |ks|
    ensures var r := ks[..g] + [k] + ks[g..];
      |r| == |ks| + 1 && r[i] == (if i < g then ks[i] else if i == g then k else ks[i - 1])
  {
  }

  /** In a sorted sequence the key at `m` is at most every later key and at least every earlier
      one. */
  lemma SortedAround(ks: seq<int>, m: nat)
    requires Sorted(ks) && m < |ks|
    ensures forall j :: m <= j < |ks| ==> ks[m] <= ks[j]
    ensures forall j :: 0 <= j <= m ==> ks[j] <= ks[m]
  {
  }

  /** In a sorted sequence, a key at `j` not less than `k` puts the first such key at or before
      `j`, and a key at `j` less than `k` puts it after `j`. */
  lemma FirstAtLeastVs(ks: seq<int>, k: int, j: nat)
    requires Sorted(ks) && j < |ks|
    ensures k <= ks[j] ==> FirstAtLeast(ks, k) <= j
    ensures ks[j] < k ==> j < FirstAtLeast(ks, k)
  {
    FirstAtLeastIs(ks, k, FirstAtLeast(ks, k));
  }

  /** In a sorted sequence, a key at `j` greater than `k` puts the first such key at or before
      `j`, and a key at `j` not greater than `k` puts it after `j`. */
  lemma FirstGreaterVs(ks: seq<int>, k: int, j: nat)
    requires Sorted(ks) && j < |ks|
    ensures k < ks[j] ==> FirstGreater(ks, k) <= j
    ensures ks[j] <= k ==> j < FirstGreater(ks, k)
  {
    FirstGreaterIs(ks, k, FirstGreater(ks, k));
  }
}
