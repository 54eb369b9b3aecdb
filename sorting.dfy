/**
 * `finalMessageList.sort(key=sSort)`: Python's list sort is stable, so the
 * result is the one ordering of the messages that is non-decreasing in
 * `created_at` and keeps the fetch order among messages created at the same
 * time.  StableSort is that ordering as a function; SortByCreatedAt is an
 * in-place insertion sort proved to produce it.
 */
module Sorting {
  import opened Messages

  ghost predicate Sorted(s: seq<Message>) {
    forall p, q :: 0 <= p < q < |s| ==> SortKey(s[p]) <= SortKey(s[q])
  }

  /** The messages of `s` created at time `k`, in their order in `s`. */
  function SameTime(s: seq<Message>, k: int): seq<Message>
  {
    if s == [] then []
    else (if SortKey(s[0]) == k then [s[0]] else []) + SameTime(s[1..], k)
  }

  /** `t` orders `s` stably: for every creation time, the messages created then appear in the same order. */
  ghost predicate KeepsTies(t: seq<Message>, s: seq<Message>) {
    forall k :: SameTime(t, k) == SameTime(s, k)
  }

  /** Inserts `x` in front of the first element whose key is not smaller. */
  function Insert(x: Message, t: seq<Message>): seq<Message>
  {
    if t == [] || SortKey(x) <= SortKey(t[0]) then [x] + t
    else [t[0]] + Insert(x, t[1..])
  }

  /** The stable sort by `sSort`. */
  function StableSort(s: seq<Message>): seq<Message>
  {
    if s == [] then [] else Insert(s[0], StableSort(s[1..]))
  }

  lemma {:induction false} SameTimeAppend(a: seq<Message>, b: seq<Message>, k: int)
    ensures SameTime(a + b, k) == SameTime(a, k) + SameTime(b, k)
  {
    if a == [] {
      assert a + b == b;
    } else {
      var h := if SortKey(a[0]) == k then [a[0]] else [];
      SameTimeAppend(a[1..], b, k);
      assert (a + b)[0] == a[0];
      assert (a + b)[1..] == a[1..] + b;
      calc {
        SameTime(a + b, k);
        h + SameTime(a[1..] + b, k);
        h + (SameTime(a[1..], k) + SameTime(b, k));
        (h + SameTime(a[1..], k)) + SameTime(b, k);
        SameTime(a, k) + SameTime(b, k);
      }
    }
  }

  lemma {:induction false} InsertPermutes(x: Message, t: seq<Message>)
    ensures multiset(Insert(x, t)) == multiset(t) + multiset{x}
  {
    if !(t == [] || SortKey(x) <= SortKey(t[0])) {
      InsertPermutes(x, t[1..]);
      assert t == [t[0]] + t[1..];
    }
  }

  lemma {:induction false} InsertKeepsTies(x: Message, t: seq<Message>, k: int)
    ensures SameTime(Insert(x, t), k) == SameTime([x], k) + SameTime(t, k)
  {
    if t == [] || SortKey(x) <= SortKey(t[0]) {
      SameTimeAppend([x], t, k);
    } else {
      InsertKeepsTies(x, t[1..], k);
      SameTimeAppend([t[0]], Insert(x, t[1..]), k);
      SameTimeAppend([t[0]], t[1..], k);
      assert t == [t[0]] + t[1..];
      // t[0] and x have different keys, so at most one of them is created at k.
    }
  }

  lemma {:induction false} InsertSorted(x: Message, t: seq<Message>)
    requires Sorted(t)
    ensures Sorted(Insert(x, t))
  {
    if !(t == [] || SortKey(x) <= SortKey(t[0])) {
      InsertSorted(x, t[1..]);
      InsertPermutes(x, t[1..]);
      var r := Insert(x, t[1..]);
      assert Insert(x, t) == [t[0]] + r;
      // Every element of r is x or an element of t[1..], so none is below t[0].
      forall i | 0 <= i < |r| ensures SortKey(t[0]) <= SortKey(r[i]) {
        assert r[i] in multiset(r);
        if r[i] != x {
          assert r[i] in multiset(t[1..]);
          var j :| 0 <= j < |t[1..]| && t[1..][j] == r[i];
          assert t[j + 1] == r[i];
        }
      }
    }
  }

  /** StableSort is sorted, a permutation of its input, and keeps ties in input order. */
  lemma {:induction false} StableSortCorrect(s: seq<Message>)
    ensures Sorted(StableSort(s))
    ensures multiset(StableSort(s)) == multiset(s)
    ensures KeepsTies(StableSort(s), s)
  {
    if s != [] {
      StableSortCorrect(s[1..]);
      InsertSorted(s[0], StableSort(s[1..]));
      InsertPermutes(s[0], StableSort(s[1..]));
      assert s == [s[0]] + s[1..];
      forall k ensures SameTime(StableSort(s), k) == SameTime(s, k) {
        InsertKeepsTies(s[0], StableSort(s[1..]), k);
        SameTimeAppend([s[0]], s[1..], k);
      }
    }
  }

  lemma SameTimeHead(t: seq<Message>)
    requires t != []
    ensures SameTime(t, SortKey(t[0])) == [t[0]] + SameTime(t[1..], SortKey(t[0]))
  {
  }

  /** A sorted sequence with a message created at `k` starts no later than `k`. */
  lemma {:induction false} SortedStartsNoLater(t: seq<Message>, k: int)
    requires t != [] && Sorted(t) && SameTime(t, k) != []
    ensures SortKey(t[0]) <= k
  {
    if SortKey(t[0]) != k {
      assert SameTime(t, k) == SameTime(t[1..], k);
      assert t[1..] != [];
      SortedStartsNoLater(t[1..], k);
    }
  }

  /** Dropping a common first message keeps the tie classes equal. */
  lemma TailKeepsTies(s: seq<Message>, t: seq<Message>)
    requires s != [] && t != [] && s[0] == t[0] && KeepsTies(t, s)
    ensures KeepsTies(t[1..], s[1..])
  {
    forall j ensures SameTime(t[1..], j) == SameTime(s[1..], j) {
      var h := if SortKey(s[0]) == j then [s[0]] else [];
      assert SameTime(t, j) == h + SameTime(t[1..], j);
      assert SameTime(s, j) == h + SameTime(s[1..], j);
      assert SameTime(t, j) == SameTime(s, j);
      assert (h + SameTime(t[1..], j))[|h|..] == SameTime(t[1..], j);
      assert (h + SameTime(s[1..], j))[|h|..] == SameTime(s[1..], j);
    }
  }

  /** Sequences with the same tie classes are empty together. */
  lemma EmptyTogether(s: seq<Message>, t: seq<Message>)
    requires KeepsTies(t, s)
    ensures s == [] <==> t == []
  {
    if s != [] {
      SameTimeHead(s);
      assert SameTime(t, SortKey(s[0])) == SameTime(s, SortKey(s[0]));
    }
    if t != [] {
      SameTimeHead(t);
      assert SameTime(t, SortKey(t[0])) == SameTime(s, SortKey(t[0]));
    }
  }

  /** Two sorted non-empty sequences with the same tie classes start with the same message. */
  lemma HeadsAgree(s: seq<Message>, t: seq<Message>)
    requires s != [] && t != [] && Sorted(s) && Sorted(t) && KeepsTies(t, s)
    ensures s[0] == t[0]
  {
    var k := SortKey(s[0]);
    SameTimeHead(s);
    SameTimeHead(t);
    assert SameTime(t, k) == SameTime(s, k);
    assert SameTime(t, SortKey(t[0])) == SameTime(s, SortKey(t[0]));
    SortedStartsNoLater(t, k);
    SortedStartsNoLater(s, SortKey(t[0]));
    assert SameTime(t, k)[0] == t[0];
  }

  /** There is only one stable sorted ordering: two sorted sequences with the same ties are equal. */
  lemma {:induction false} StableOrderUnique(s: seq<Message>, t: seq<Message>)
    requires Sorted(s) && Sorted(t) && KeepsTies(t, s)
    ensures s == t
    decreases |s|
  {
    EmptyTogether(s, t);
    if s != [] {
      HeadsAgree(s, t);
      TailKeepsTies(s, t);
      assert Sorted(s[1..]) && Sorted(t[1..]);
      StableOrderUnique(s[1..], t[1..]);
      assert s == [s[0]] + s[1..] && t == [t[0]] + t[1..];
    }
  }

  /** Swapping two neighbours created at different times keeps every tie class. */
  lemma SwapKeepsTies(s: seq<Message>, j: int)
    requires 0 < j < |s| && SortKey(s[j - 1]) != SortKey(s[j])
    ensures KeepsTies(s[j - 1 := s[j]][j := s[j - 1]], s)
  {
    var t := s[j - 1 := s[j]][j := s[j - 1]];
    assert s == s[..j - 1] + [s[j - 1], s[j]] + s[j + 1..];
    assert t == s[..j - 1] + [s[j], s[j - 1]] + s[j + 1..];
    forall k ensures SameTime(t, k) == SameTime(s, k) {
      SameTimeAppend(s[..j - 1] + [s[j - 1], s[j]], s[j + 1..], k);
      SameTimeAppend(s[..j - 1], [s[j - 1], s[j]], k);
      SameTimeAppend(s[..j - 1] + [s[j], s[j - 1]], s[j + 1..], k);
      SameTimeAppend(s[..j - 1], [s[j], s[j - 1]], k);
      SameTimeAppend([s[j - 1]], [s[j]], k);
      SameTimeAppend([s[j]], [s[j - 1]], k);
      assert [s[j - 1], s[j]] == [s[j - 1]] + [s[j]];
      assert [s[j], s[j - 1]] == [s[j]] + [s[j - 1]];
    }
  }

  /** A sorted ordering that keeps ties is the stable sort. */
  lemma IsTheStableSort(t: seq<Message>, s: seq<Message>)
    requires Sorted(t) && KeepsTies(t, s)
    ensures t == StableSort(s)
  {
    StableSortCorrect(s);
    StableOrderUnique(t, StableSort(s));
  }

  /** Tie classes kept on a prefix are kept when the same suffix follows. */
  lemma ConcatKeepsTies(t: seq<Message>, s: seq<Message>, rest: seq<Message>)
    requires KeepsTies(t, s)
    ensures KeepsTies(t + rest, s + rest)
  {
    forall k ensures SameTime(t + rest, k) == SameTime(s + rest, k) {
      SameTimeAppend(t, rest, k);
      SameTimeAppend(s, rest, k);
    }
  }

  /** What the insertion of the message at index `n` leaves, stated on sequences. */
  lemma InsertionResult(t: seq<Message>, s: seq<Message>, n: int)
    requires |t| == |s| && 0 <= n < |t|
    requires forall p, q :: 0 <= p < q <= n ==> SortKey(t[p]) <= SortKey(t[q])
    requires KeepsTies(t[..n + 1], s[..n + 1])
    requires forall m :: n < m < |t| ==> t[m] == s[m]
    ensures t[..n + 1] == StableSort(s[..n + 1])
    ensures t[n + 1..] == s[n + 1..]
    ensures KeepsTies(t, s)
  {
    assert t[n + 1..] == s[n + 1..];
    assert Sorted(t[..n + 1]);
    IsTheStableSort(t[..n + 1], s[..n + 1]);
    assert t == t[..n + 1] + t[n + 1..] && s == s[..n + 1] + s[n + 1..];
    ConcatKeepsTies(t[..n + 1], s[..n + 1], t[n + 1..]);
  }

  /**
   * One step of the insertion: the message at `j` changes place with its
   * strictly later left neighbour, which keeps the ties of any prefix `a[..n]`
   * holding both.
   */
  method SwapDown(a: array<Message>, j: int, ghost n: int)
    requires 0 < j < n <= a.Length && SortKey(a[j - 1]) > SortKey(a[j])
    modifies a
    ensures a[j - 1] == old(a[j]) && a[j] == old(a[j - 1])
    ensures forall m :: 0 <= m < a.Length && m != j - 1 && m != j ==> a[m] == old(a[m])
    ensures KeepsTies(a[..n], old(a[..n]))
  {
    ghost var prefix := a[..n];
    SwapKeepsTies(prefix, j);
    a[j - 1], a[j] := a[j], a[j - 1];
    assert a[..n] == prefix[j - 1 := prefix[j]][j := prefix[j - 1]];
  }

  /**
   * The inner `while` loop of the insertion: moves `a[i]` left past every
   * strictly later message before it, leaving the rest of the array alone.
   */
  method ShiftDown(a: array<Message>, i: int)
    requires 0 <= i < a.Length
    requires forall p, q :: 0 <= p < q < i ==> SortKey(a[p]) <= SortKey(a[q])
    modifies a
    ensures forall p, q :: 0 <= p < q <= i ==> SortKey(a[p]) <= SortKey(a[q])
    ensures KeepsTies(a[..i + 1], old(a[..i + 1]))
    ensures forall m :: i < m < a.Length ==> a[m] == old(a[m])
  {
    var j := i;
    while j > 0 && SortKey(a[j - 1]) > SortKey(a[j])
      invariant 0 <= j <= i
      invariant forall p, q :: 0 <= p < q <= i && p != j && q != j ==> SortKey(a[p]) <= SortKey(a[q])
      invariant forall q :: j < q <= i ==> SortKey(a[j]) < SortKey(a[q])
      invariant forall m :: i < m < a.Length ==> a[m] == old(a[m])
      invariant KeepsTies(a[..i + 1], old(a[..i + 1]))
    {
      SwapDown(a, j, i + 1);
      j := j - 1;
    }
  }

  /**
   * One round of the insertion sort: the prefix `a[..i + 1]` becomes the
   * stable sort of what it held and the rest of the array is left as it was.
   */
  method InsertInto(a: array<Message>, i: int)
    requires 0 <= i < a.Length
    requires forall p, q :: 0 <= p < q < i ==> SortKey(a[p]) <= SortKey(a[q])
    modifies a
    ensures forall p, q :: 0 <= p < q <= i ==> SortKey(a[p]) <= SortKey(a[q])
    ensures a[..i + 1] == StableSort(old(a[..i + 1]))
    ensures a[i + 1..] == old(a[i + 1..])
    ensures KeepsTies(a[..], old(a[..]))
  {
    ShiftDown(a, i);
    InsertionResult(a[..], old(a[..]), i);
  }

  /**
   * `list.sort(key=sSort)` in place: insertion sort that moves each message
   * left past strictly later ones only, which is what makes it stable.
   */
  method SortByCreatedAt(a: array<Message>)
    modifies a
    ensures Sorted(a[..])
    ensures KeepsTies(a[..], old(a[..]))
    ensures a[..] == StableSort(old(a[..]))
  {
    ghost var original := a[..];
    for i := 0 to a.Length
      invariant forall p, q :: 0 <= p < q < i ==> SortKey(a[p]) <= SortKey(a[q])
      invariant KeepsTies(a[..], original)
    {
      InsertInto(a, i);
    }
    IsTheStableSort(a[..], original);
  }
}
