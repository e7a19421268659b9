/** Ordering of the signing history: newest first, records without a
    signing time last, and a stable sort so that records that tie keep the
    order in which the manifests were visited. */
module HistoryOrder {
  import opened Wrappers
  import opened C2paModel
  import opened VerifyResponseDto

  /** The comparator `comparing(getSignedAt, nullsLast(reverseOrder()))`:
      negative when `a` sorts first, zero on a tie, positive when `b` sorts
      first. */
  function CompareSignedAt(a: Option<Instant>, b: Option<Instant>): int {
    match (a, b)
    case (None, None) => 0
    case (None, Some(_)) => 1
    case (Some(_), None) => -1
    case (Some(x), Some(y)) => if y < x then -1 else if y == x then 0 else 1
  }

  /** `a` may come before `b` in a sorted history. */
  predicate Precedes(a: Option<Instant>, b: Option<Instant>) {
    CompareSignedAt(a, b) <= 0
  }

  /** Sorted by the comparator above. */
  predicate NewestFirst(hs: seq<ManifestHistory>) {
    forall i, j :: 0 <= i < j < |hs| ==> Precedes(hs[i].signedAt, hs[j].signedAt)
  }

  /** The records of `hs` whose signing time is `t`, in their order in `hs`.
      A sort is stable exactly when it keeps every such subsequence. */
  function WithSignedAt(hs: seq<ManifestHistory>, t: Option<Instant>): seq<ManifestHistory> {
    if |hs| == 0 then []
    else (if hs[0].signedAt == t then [hs[0]] else []) + WithSignedAt(hs[1..], t)
  }

  /** The comparator obeys the contract of `java.util.Comparator`: it is
      antisymmetric in sign, transitive, and zero only on equal keys. */
  lemma ComparatorContract(a: Option<Instant>, b: Option<Instant>, c: Option<Instant>)
    ensures CompareSignedAt(a, b) == -CompareSignedAt(b, a)
    ensures CompareSignedAt(a, b) == 0 <==> a == b
    ensures Precedes(a, b) && Precedes(b, c) ==> Precedes(a, c)
    ensures Precedes(a, b) || Precedes(b, a)
  {
  }

  /** Sorted by the comparator means: present times never increase along the
      history, and a record without a time is followed only by records
      without a time. */
  lemma NewestFirstMeaning(hs: seq<ManifestHistory>)
    ensures NewestFirst(hs) <==>
      && (forall i, j :: 0 <= i < j < |hs| && hs[i].signedAt.Some? && hs[j].signedAt.Some? ==>
            hs[i].signedAt.value >= hs[j].signedAt.value)
      && (forall i, j :: 0 <= i < j < |hs| && hs[i].signedAt.None? ==> hs[j].signedAt.None?)
  {
    if NewestFirst(hs) {
      forall i, j | 0 <= i < j < |hs| && hs[i].signedAt.None?
        ensures hs[j].signedAt.None?
      {
        assert Precedes(hs[i].signedAt, hs[j].signedAt);
      }
    }
  }

  /** Inserts `h` in front of the first record it may precede. Ahead of a
      record with an equal time it goes first, which is what makes the sort
      below stable. */
  function Insert(h: ManifestHistory, hs: seq<ManifestHistory>): (r: seq<ManifestHistory>)
    ensures |r| == |hs| + 1
    ensures multiset(r) == multiset(hs) + multiset{h}
    ensures NewestFirst(hs) ==> NewestFirst(r)
    ensures forall t :: WithSignedAt(r, t) == (if h.signedAt == t then [h] else []) + WithSignedAt(hs, t)
  {
    if |hs| == 0 then
      assert [h][1..] == [];
      [h]
    else if Precedes(h.signedAt, hs[0].signedAt) then
      InsertFrontFacts(h, hs);
      [h] + hs
    else
      var rest := Insert(h, hs[1..]);
      InsertBehindFacts(h, hs, rest);
      [hs[0]] + rest
  }

  /** The case of `Insert` where `h` goes to the front. */
  lemma InsertFrontFacts(h: ManifestHistory, hs: seq<ManifestHistory>)
    requires |hs| > 0 && Precedes(h.signedAt, hs[0].signedAt)
    ensures multiset([h] + hs) == multiset(hs) + multiset{h}
    ensures NewestFirst(hs) ==> NewestFirst([h] + hs)
    ensures forall t :: WithSignedAt([h] + hs, t) == (if h.signedAt == t then [h] else []) + WithSignedAt(hs, t)
  {
    var r := [h] + hs;
    assert r[1..] == hs;
    if NewestFirst(hs) {
      forall i, j | 0 <= i < j < |r|
        ensures Precedes(r[i].signedAt, r[j].signedAt)
      {
        if i == 0 {
          ComparatorContract(h.signedAt, hs[0].signedAt, hs[j - 1].signedAt);
        } else {
          assert r[i] == hs[i - 1] && r[j] == hs[j - 1];
        }
      }
    }
  }

  /** The case of `Insert` where `hs[0]` stays in front of `h`. */
  lemma InsertBehindFacts(h: ManifestHistory, hs: seq<ManifestHistory>, rest: seq<ManifestHistory>)
    requires |hs| > 0 && !Precedes(h.signedAt, hs[0].signedAt)
    requires multiset(rest) == multiset(hs[1..]) + multiset{h}
    requires NewestFirst(hs[1..]) ==> NewestFirst(rest)
    requires forall t :: WithSignedAt(rest, t) == (if h.signedAt == t then [h] else []) + WithSignedAt(hs[1..], t)
    ensures multiset([hs[0]] + rest) == multiset(hs) + multiset{h}
    ensures NewestFirst(hs) ==> NewestFirst([hs[0]] + rest)
    ensures forall t :: WithSignedAt([hs[0]] + rest, t) == (if h.signedAt == t then [h] else []) + WithSignedAt(hs, t)
  {
    assert hs == [hs[0]] + hs[1..];
    if NewestFirst(hs) {
      TailNewestFirst(hs);
      InsertBehindSorted(h, hs, rest);
    }
    forall t
      ensures WithSignedAt([hs[0]] + rest, t) == (if h.signedAt == t then [h] else []) + WithSignedAt(hs, t)
    {
      InsertBehindStable(h, hs, rest, t);
    }
  }

  /** Stability in the case of `Insert` where `hs[0]` stays in front: `h` and
      `hs[0]` have different times, so their swap is invisible per time. */
  lemma InsertBehindStable(h: ManifestHistory, hs: seq<ManifestHistory>, rest: seq<ManifestHistory>, t: Option<Instant>)
    requires |hs| > 0 && !Precedes(h.signedAt, hs[0].signedAt)
    requires WithSignedAt(rest, t) == (if h.signedAt == t then [h] else []) + WithSignedAt(hs[1..], t)
    ensures WithSignedAt([hs[0]] + rest, t) == (if h.signedAt == t then [h] else []) + WithSignedAt(hs, t)
  {
    var r := [hs[0]] + rest;
    assert r[0] == hs[0] && r[1..] == rest;
    var front := if hs[0].signedAt == t then [hs[0]] else [];
    assert WithSignedAt(r, t) == front + WithSignedAt(rest, t);
    assert WithSignedAt(hs, t) == front + WithSignedAt(hs[1..], t);
    if h.signedAt == t {
      assert hs[0].signedAt != t;
      assert front == [];
    } else {
      assert WithSignedAt(rest, t) == WithSignedAt(hs[1..], t);
    }
  }

  /** Dropping the first record keeps a history sorted. */
  lemma TailNewestFirst(hs: seq<ManifestHistory>)
    requires |hs| > 0 && NewestFirst(hs)
    ensures NewestFirst(hs[1..])
  {
    forall i, j | 0 <= i < j < |hs[1..]|
      ensures Precedes(hs[1..][i].signedAt, hs[1..][j].signedAt)
    {
      assert hs[1..][i] == hs[i + 1] && hs[1..][j] == hs[j + 1];
    }
  }

  /** Sortedness in the case of `Insert` where `hs[0]` stays in front. */
  lemma InsertBehindSorted(h: ManifestHistory, hs: seq<ManifestHistory>, rest: seq<ManifestHistory>)
    requires |hs| > 0 && !Precedes(h.signedAt, hs[0].signedAt)
    requires NewestFirst(hs) && NewestFirst(rest)
    requires multiset(rest) == multiset(hs[1..]) + multiset{h}
    ensures NewestFirst([hs[0]] + rest)
  {
    var r := [hs[0]] + rest;
    forall i, j | 0 <= i < j < |r|
      ensures Precedes(r[i].signedAt, r[j].signedAt)
    {
      if i == 0 {
        var x := rest[j - 1];
        assert x in multiset(rest);
        if x == h {
          ComparatorContract(h.signedAt, hs[0].signedAt, hs[0].signedAt);
        } else {
          assert x in multiset(hs[1..]);
          var k :| 0 <= k < |hs[1..]| && hs[1..][k] == x;
          assert hs[k + 1] == x;
        }
      } else {
        assert r[i] == rest[i - 1] && r[j] == rest[j - 1];
      }
    }
  }

  /** Stable insertion sort by `CompareSignedAt`. */
  function SortBySignedAt(hs: seq<ManifestHistory>): (r: seq<ManifestHistory>)
    ensures |r| == |hs|
    ensures multiset(r) == multiset(hs)
    ensures NewestFirst(r)
    ensures forall t :: WithSignedAt(r, t) == WithSignedAt(hs, t)
  {
    if |hs| == 0 then []
    else
      assert hs == [hs[0]] + hs[1..];
      Insert(hs[0], SortBySignedAt(hs[1..]))
  }

  /** The first record of a sorted history sorts no later than any other. */
  lemma FirstIsEarliest(hs: seq<ManifestHistory>, x: ManifestHistory)
    requires NewestFirst(hs) && |hs| > 0 && x in hs
    ensures Precedes(hs[0].signedAt, x.signedAt)
  {
    var j :| 0 <= j < |hs| && hs[j] == x;
    if j == 0 {
      ComparatorContract(x.signedAt, x.signedAt, x.signedAt);
    }
  }

  /** A record occurs in `hs` exactly when it occurs in the subsequence of
      its own signing time. */
  lemma {:induction false} InWithSignedAt(hs: seq<ManifestHistory>, x: ManifestHistory)
    ensures x in hs <==> x in WithSignedAt(hs, x.signedAt)
  {
    if |hs| > 0 {
      InWithSignedAt(hs[1..], x);
      assert hs == [hs[0]] + hs[1..];
    }
  }

  /** Two sorted histories that agree on every signing-time subsequence are
      equal: sortedness and stability determine the order completely. */
  lemma {:induction false} SortedAndStableIsUnique(a: seq<ManifestHistory>, b: seq<ManifestHistory>)
    requires NewestFirst(a) && NewestFirst(b)
    requires forall t :: WithSignedAt(a, t) == WithSignedAt(b, t)
    ensures a == b
  {
    if |a| == 0 && |b| == 0 {
    } else if |a| == 0 {
      InWithSignedAt(b, b[0]);
    } else if |b| == 0 {
      InWithSignedAt(a, a[0]);
    } else {
      var t := a[0].signedAt;
      InWithSignedAt(a, a[0]);
      InWithSignedAt(b, b[0]);
      InWithSignedAt(a, b[0]);
      InWithSignedAt(b, a[0]);
      FirstIsEarliest(a, b[0]);
      FirstIsEarliest(b, a[0]);
      ComparatorContract(t, b[0].signedAt, t);
      assert b[0].signedAt == t;
      assert WithSignedAt(a, t) == WithSignedAt(b, t);
      assert WithSignedAt(a, t) == [a[0]] + WithSignedAt(a[1..], t);
      assert WithSignedAt(b, t) == [b[0]] + WithSignedAt(b[1..], t);
      assert WithSignedAt(a, t)[0] == a[0];
      assert WithSignedAt(b, t)[0] == b[0];
      forall u
        ensures WithSignedAt(a[1..], u) == WithSignedAt(b[1..], u)
      {
        assert WithSignedAt(a, u) == WithSignedAt(b, u);
        if u == t {
          assert WithSignedAt(a, u) == [a[0]] + WithSignedAt(a[1..], u);
          assert WithSignedAt(b, u) == [b[0]] + WithSignedAt(b[1..], u);
          assert WithSignedAt(a, u)[1..] == WithSignedAt(a[1..], u);
          assert WithSignedAt(b, u)[1..] == WithSignedAt(b[1..], u);
        } else {
          assert WithSignedAt(a, u) == WithSignedAt(a[1..], u);
          assert WithSignedAt(b, u) == WithSignedAt(b[1..], u);
        }
      }
      TailNewestFirst(a);
      TailNewestFirst(b);
      SortedAndStableIsUnique(a[1..], b[1..]);
      assert a == [a[0]] + a[1..] && b == [b[0]] + b[1..];
    }
  }

  /** `SortBySignedAt` is THE stable sort: any sorted arrangement of `hs` that
      keeps the order of records with equal signing times is its result. So
      any stable sort with this comparator, such as `List.sort`, agrees with it. */
  lemma StableSortIsSortBySignedAt(hs: seq<ManifestHistory>, r: seq<ManifestHistory>)
    requires NewestFirst(r)
    requires forall t :: WithSignedAt(r, t) == WithSignedAt(hs, t)
    ensures r == SortBySignedAt(hs)
  {
    SortedAndStableIsUnique(r, SortBySignedAt(hs));
  }
}
