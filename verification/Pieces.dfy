/** Where one sequence occurs inside another. */
module Pieces {
  /** `p` occurs in `s` at `i`; false when `s` is too short. */
  predicate OccursAt<T(==)>(s: seq<T>, i: nat, p: seq<T>) {
    i + |p| <= |s| && forall k :: 0 <= k < |p| ==> s[i + k] == p[k]
  }

  lemma OccursSplit<T>(s: seq<T>, i: nat, a: seq<T>, b: seq<T>)
    requires OccursAt(s, i, a + b)
    ensures OccursAt(s, i, a) && OccursAt(s, i + |a|, b)
    ensures s[i..i + |a|] == a
  {
    forall k | 0 <= k < |a| ensures s[i + k] == a[k] { assert s[i + k] == (a + b)[k]; }
    forall k | 0 <= k < |b| ensures s[i + |a| + k] == b[k] { assert s[i + (|a| + k)] == (a + b)[|a| + k]; }
  }

  lemma OccursJoin<T>(s: seq<T>, i: nat, a: seq<T>, b: seq<T>)
    requires OccursAt(s, i, a) && OccursAt(s, i + |a|, b)
    ensures OccursAt(s, i, a + b)
  {
    forall k | 0 <= k < |a + b| ensures s[i + k] == (a + b)[k] {
      if k >= |a| { assert s[i + |a| + (k - |a|)] == b[k - |a|]; }
    }
  }

  lemma OccursOne<T>(s: seq<T>, i: nat, x: T)
    requires OccursAt(s, i, [x])
    ensures i < |s| && s[i] == x
  {
    assert s[i + 0] == [x][0];
  }

  lemma OccursSlice<T>(s: seq<T>, i: nat, a: seq<T>)
    requires OccursAt(s, i, a)
    ensures i + |a| <= |s| && s[i..i + |a|] == a
  {
  }

  lemma OccursHere<T>(s: seq<T>, i: nat, e: nat, t: seq<T>)
    requires i <= e <= |s| && s[i..e] == t
    ensures OccursAt(s, i, t)
  {
  }

  /** How a loop that appends regroups its output. */
  lemma Regroup<T>(done: seq<T>, next: seq<T>, rest: seq<T>)
    ensures done + (next + rest) == (done + next) + rest
  {
  }
}
