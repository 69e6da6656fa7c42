/**
 * The three comparators the side panel hands to `Array.prototype.sort`, and a
 * stable in-place sort driven by them. A stable sort keeps every group of
 * elements that compare equal in its input order; here that is stated as
 * "each key class is the same subsequence before and after".
 */
module Ordering {
  import opened Wrappers
  import opened Events

  /** Which comparator is in use. */
  datatype Order =
    | ByPriority(now: int)   // "today": urgent, warn, safe, done
    | ByDeadlineUndatedLast  // "all": deadline ascending, undated last
    | ByDeadline             // Gantt rows: deadline ascending (all are dated)

  /** Position of a status in the "today" sort; the `?? 2` fallback is
   *  unreachable because every status has an entry. */
  function Priority(st: Status): (p: nat)
    ensures p <= 3
  {
    match st
    case Urgent => 0
    case Warn => 1
    case Safe => 2
    case Done => 3
  }

  lemma PriorityOrder()
    ensures Priority(Urgent) < Priority(Warn) < Priority(Safe) < Priority(Done)
    ensures forall a: Status, b: Status :: Priority(a) == Priority(b) ==> a == b
  {
  }

  /** The deadline, or 0 where a Gantt row could have none (it never does). */
  function DeadlineOrZero(e: Event): int
  {
    if e.deadline.Some? then e.deadline.value else 0
  }

  /** The comparators as written: negative, zero or positive. */
  function Compare(o: Order, a: Event, b: Event): (r: int)
    ensures r == 0 <==> SortKey(o, a) == SortKey(o, b)
  {
    match o
    case ByPriority(now) =>
      Priority(EventStatus(a, now)) - Priority(EventStatus(b, now))
    case ByDeadlineUndatedLast =>
      if a.deadline.None? && b.deadline.None? then 0
      else if a.deadline.None? then 1
      else if b.deadline.None? then -1
      else a.deadline.value - b.deadline.value
    case ByDeadline =>
      DeadlineOrZero(a) - DeadlineOrZero(b)
  }

  /** A sort key, ordered lexicographically. */
  datatype Key = Key(band: int, at: int)

  predicate KeyLe(x: Key, y: Key)
  {
    x.band < y.band || (x.band == y.band && x.at <= y.at)
  }

  function SortKey(o: Order, e: Event): Key
  {
    match o
    case ByPriority(now) => Key(Priority(EventStatus(e, now)), 0)
    case ByDeadlineUndatedLast =>
      if e.deadline.Some? then Key(0, e.deadline.value) else Key(1, 0)
    case ByDeadline => Key(DeadlineOrZero(e), 0)
  }

  /** Each comparator is a total preorder: it orders exactly as its key does,
   *  and it reports a tie exactly when the keys are equal. */
  lemma CompareAgreesWithKey(o: Order, a: Event, b: Event)
    ensures Compare(o, a, b) <= 0 <==> KeyLe(SortKey(o, a), SortKey(o, b))
    ensures Compare(o, a, b) == 0 <==> SortKey(o, a) == SortKey(o, b)
    ensures Compare(o, a, b) == -Compare(o, b, a)
  {
  }

  ghost predicate Sorted(o: Order, s: seq<Event>)
  {
    forall i, j :: 0 <= i < j < |s| ==> KeyLe(SortKey(o, s[i]), SortKey(o, s[j]))
  }

  /** The elements of `s` whose key is `k`, in order. */
  function WithKey(o: Order, s: seq<Event>, k: Key): seq<Event>
  {
    if s == [] then []
    else if SortKey(o, s[0]) == k then [s[0]] + WithKey(o, s[1..], k)
    else WithKey(o, s[1..], k)
  }

  /** `t` holds the elements of `s`, and elements that compare equal keep
   *  their relative order. */
  ghost predicate StablePermutation(o: Order, t: seq<Event>, s: seq<Event>)
  {
    && multiset(t) == multiset(s)
    && forall k :: WithKey(o, t, k) == WithKey(o, s, k)
  }

  lemma {:induction false} WithKeyAppend(o: Order, s: seq<Event>, t: seq<Event>, k: Key)
    ensures WithKey(o, s + t, k) == WithKey(o, s, k) + WithKey(o, t, k)
  {
    if s == [] {
      assert s + t == t;
    } else {
      assert (s + t)[1..] == s[1..] + t;
      WithKeyAppend(o, s[1..], t, k);
    }
  }

  /** Swapping two neighbours with different keys leaves every key class as it was. */
  lemma SwapKeepsClasses(o: Order, s: seq<Event>, j: int, orig: seq<Event>)
    requires 0 < j < |s|
    requires SortKey(o, s[j - 1]) != SortKey(o, s[j])
    requires StablePermutation(o, s, orig)
    ensures StablePermutation(o, s[j - 1 := s[j]][j := s[j - 1]], orig)
  {
    var t := s[j - 1 := s[j]][j := s[j - 1]];
    var pre, post := s[..j - 1], s[j + 1..];
    assert s == pre + ([s[j - 1]] + ([s[j]] + post));
    assert t == pre + ([s[j]] + ([s[j - 1]] + post));
    forall k
      ensures WithKey(o, t, k) == WithKey(o, s, k)
    {
      WithKeyAppend(o, pre, [s[j - 1]] + ([s[j]] + post), k);
      WithKeyAppend(o, [s[j - 1]], [s[j]] + post, k);
      WithKeyAppend(o, [s[j]], post, k);
      WithKeyAppend(o, pre, [s[j]] + ([s[j - 1]] + post), k);
      WithKeyAppend(o, [s[j]], [s[j - 1]] + post, k);
      WithKeyAppend(o, [s[j - 1]], post, k);
    }
    assert multiset(t) == multiset(s);
  }

  /** Positions `lo..hi` of `s` are in key order. */
  ghost predicate SortedBetween(o: Order, s: seq<Event>, lo: int, hi: int)
    requires 0 <= lo <= hi <= |s|
  {
    forall p, q :: lo <= p < q < hi ==> KeyLe(SortKey(o, s[p]), SortKey(o, s[q]))
  }

  /** While `s[j]` moves left through the sorted prefix `s[..i + 1]`: the
   *  prefix is sorted apart from position `j`, and `s[j]` is at or below
   *  everything it has passed. */
  ghost predicate Inserting(o: Order, s: seq<Event>, i: int, j: int)
  {
    && 0 <= j <= i < |s|
    && (forall p, q :: 0 <= p < q <= i && p != j && q != j ==>
          KeyLe(SortKey(o, s[p]), SortKey(o, s[q])))
    && (forall q :: j < q <= i ==> KeyLe(SortKey(o, s[j]), SortKey(o, s[q])))
    && (0 < j < i ==> KeyLe(SortKey(o, s[j - 1]), SortKey(o, s[j + 1])))
  }

  lemma InsertingStarts(o: Order, s: seq<Event>, i: int)
    requires 0 <= i < |s| && SortedBetween(o, s, 0, i)
    ensures Inserting(o, s, i, i)
  {
  }

  lemma InsertingSwaps(o: Order, s: seq<Event>, i: int, j: int)
    requires Inserting(o, s, i, j) && 0 < j && Compare(o, s[j - 1], s[j]) > 0
    ensures Inserting(o, s[j - 1 := s[j]][j := s[j - 1]], i, j - 1)
  {
    CompareAgreesWithKey(o, s[j - 1], s[j]);
  }

  lemma InsertingStops(o: Order, s: seq<Event>, i: int, j: int)
    requires Inserting(o, s, i, j) && (j == 0 || Compare(o, s[j - 1], s[j]) <= 0)
    ensures SortedBetween(o, s, 0, i + 1)
  {
    if 0 < j {
      CompareAgreesWithKey(o, s[j - 1], s[j]);
    }
  }

  /** `Array.prototype.sort(cmp)` as a stable insertion sort: an element moves
   *  left past a neighbour only while the comparator puts it strictly first. */
  method SortInPlace(a: array<Event>, o: Order)
    modifies a
    ensures Sorted(o, a[..])
    ensures StablePermutation(o, a[..], old(a[..]))
  {
    var i := 0;
    while i < a.Length
      invariant 0 <= i <= a.Length
      invariant SortedBetween(o, a[..], 0, i)
      invariant StablePermutation(o, a[..], old(a[..]))
    {
      InsertingStarts(o, a[..], i);
      var j := i;
      while 0 < j && Compare(o, a[j - 1], a[j]) > 0
        invariant Inserting(o, a[..], i, j)
        invariant StablePermutation(o, a[..], old(a[..]))
      {
        ghost var s := a[..];
        CompareAgreesWithKey(o, s[j - 1], s[j]);
        SwapKeepsClasses(o, s, j, old(a[..]));
        InsertingSwaps(o, s, i, j);
        a[j - 1], a[j] := a[j], a[j - 1];
        assert a[..] == s[j - 1 := s[j]][j := s[j - 1]];
        j := j - 1;
      }
      InsertingStops(o, a[..], i, j);
      i := i + 1;
    }
  }
}
