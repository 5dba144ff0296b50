/**
 * The bookmark list: offsets kept in ascending order without duplicates,
 * toggled at the cursor and visited cyclically.
 */
module Bookmarks {
  import opened Options

  /** Strictly ascending, hence free of duplicates. */
  predicate Ascending(s: seq<int>) {
    forall i, j :: 0 <= i < j < |s| ==> s[i] < s[j]
  }

  /** Non-decreasing: what `list.sort()` produces. */
  predicate Sorted(s: seq<int>) {
    forall i, j :: 0 <= i < j < |s| ==> s[i] <= s[j]
  }

  /** `list.remove(x)`: drop the first occurrence of `x`. */
  function Remove(s: seq<int>, x: int): (r: seq<int>)
    requires x in s
    ensures multiset(r) == multiset(s) - multiset{x}
  {
    assert s == [s[0]] + s[1..];
    if s[0] == x then s[1..] else [s[0]] + Remove(s[1..], x)
  }

  /** Removing from an ascending list keeps it ascending and drops `x` for good. */
  lemma {:induction false} RemoveAscending(s: seq<int>, x: int)
    requires x in s && Ascending(s)
    ensures Ascending(Remove(s, x))
    ensures forall y :: y in Remove(s, x) <==> y in s && y != x
  {
    assert s == [s[0]] + s[1..];
    if s[0] != x {
      RemoveAscending(s[1..], x);
      AscendingCons(s[0], Remove(s[1..], x));
    }
  }

  /** The ascending list with `x` added in its place. */
  function Insert(s: seq<int>, x: int): (r: seq<int>)
    ensures multiset(r) == multiset(s) + multiset{x}
    ensures Ascending(s) && x !in s ==> Ascending(r)
    ensures forall y :: y in r <==> y in s || y == x
  {
    if s == [] || x < s[0] then
      if Ascending(s) then AscendingCons(x, s); [x] + s else [x] + s
    else
      assert s == [s[0]] + s[1..];
      var r := Insert(s[1..], x);
      if Ascending(s) && x !in s then AscendingCons(s[0], r); [s[0]] + r else [s[0]] + r
  }

  /** An ascending list extended in front by an element below all of it. */
  lemma AscendingCons(h: int, t: seq<int>)
    requires Ascending(t) && forall y :: y in t ==> h < y
    ensures Ascending([h] + t)
  {
    var s := [h] + t;
    forall i, j | 0 <= i < j < |s| ensures s[i] < s[j] {
      assert s[j] == t[j - 1] && t[j - 1] in t;
      if i > 0 { assert s[i] == t[i - 1]; }
    }
  }

  /** Toggling `x`: removed when present, otherwise added in order. */
  function Toggle(s: seq<int>, x: int): (r: seq<int>)
    ensures x in s ==> multiset(r) == multiset(s) - multiset{x}
    ensures x !in s ==> multiset(r) == multiset(s) + multiset{x}
  {
    if x in s then Remove(s, x) else Insert(s, x)
  }

  /** Two sorted lists holding the same elements are the same list. */
  lemma {:induction false} SortedUnique(a: seq<int>, b: seq<int>)
    requires Sorted(a) && Sorted(b) && multiset(a) == multiset(b)
    ensures a == b
  {
    if a == [] {
      assert |b| == |multiset(b)| == 0;
    } else {
      assert |b| == |multiset(b)| == |a|;
      HeadIsLeast(b, a[0]);
      HeadIsLeast(a, b[0]);
      TailsAgree(a, b);
      SortedUnique(a[1..], b[1..]);
      assert a == [a[0]] + a[1..] && b == [b[0]] + b[1..];
    }
  }

  lemma HeadIsLeast(s: seq<int>, x: int)
    requires Sorted(s) && x in multiset(s)
    ensures s[0] <= x
  {
    var j :| 0 <= j < |s| && s[j] == x;
  }

  lemma TailsAgree(a: seq<int>, b: seq<int>)
    requires a != [] && b != [] && a[0] == b[0] && multiset(a) == multiset(b)
    ensures multiset(a[1..]) == multiset(b[1..])
  {
    var h := a[0];
    assert multiset(a) == multiset{h} + multiset(a[1..]) by { assert a == [h] + a[1..]; }
    assert multiset(b) == multiset{h} + multiset(b[1..]) by { assert b == [h] + b[1..]; }
    forall y ensures multiset(a[1..])[y] == multiset(b[1..])[y] {
      assert multiset(a)[y] == multiset{h}[y] + multiset(a[1..])[y];
      assert multiset(b)[y] == multiset{h}[y] + multiset(b[1..])[y];
    }
  }

  /**
   * `append(x)` followed by `sort()` yields the list `Insert` builds, and
   * `remove(x)` followed by `sort()` the list `Remove` builds: whatever
   * sorted permutation Python's sort returns is one of these.
   */
  lemma ToggleIsSort(s: seq<int>, x: int, sorted: seq<int>)
    requires Ascending(s) && Sorted(sorted)
    requires x in s ==> multiset(sorted) == multiset(s) - multiset{x}
    requires x !in s ==> multiset(sorted) == multiset(s + [x])
    ensures sorted == Toggle(s, x)
  {
    ToggleKeepsOrder(s, x);
    SortedUnique(sorted, Toggle(s, x));
  }

  /** Toggling keeps the list ascending and flips membership of `x` alone. */
  lemma ToggleKeepsOrder(s: seq<int>, x: int)
    requires Ascending(s)
    ensures Ascending(Toggle(s, x))
    ensures forall y :: y in Toggle(s, x) <==> (y in s <==> y != x)
  {
    if x in s {
      RemoveAscending(s, x);
    }
  }

  /** Toggling the same offset twice gives back the original list. */
  lemma ToggleTwice(s: seq<int>, x: int)
    requires Ascending(s)
    ensures Toggle(Toggle(s, x), x) == s
  {
    if x in s {
      var t := Remove(s, x);
      RemoveThenInsert(s, x);
      assert Toggle(t, x) == Insert(t, x);
    } else {
      var t := Insert(s, x);
      InsertThenRemove(s, x);
      assert Toggle(t, x) == Remove(t, x);
    }
  }

  lemma RemoveThenInsert(s: seq<int>, x: int)
    requires Ascending(s) && x in s
    ensures x !in Remove(s, x) && Insert(Remove(s, x), x) == s
  {
    var t := Remove(s, x);
    RemoveAscending(s, x);
    var u := Insert(t, x);
    assert multiset(u) == multiset(s) by {
      assert x in multiset(s);
      forall y ensures multiset(u)[y] == multiset(s)[y] { }
    }
    SortedUnique(u, s);
  }

  lemma InsertThenRemove(s: seq<int>, x: int)
    requires Ascending(s) && x !in s
    ensures x in Insert(s, x) && Remove(Insert(s, x), x) == s
  {
    var t := Insert(s, x);
    var u := Remove(t, x);
    RemoveAscending(t, x);
    assert multiset(u) == multiset(s) by {
      forall y ensures multiset(u)[y] == multiset(s)[y] { }
    }
    SortedUnique(u, s);
  }

  /** The first entry of the list greater than `c`, in list order. */
  function FirstAbove(s: seq<int>, c: int): (r: Option<int>)
    ensures r.Some? ==> r.value in s && r.value > c
    ensures r.None? <==> forall i :: 0 <= i < |s| ==> s[i] <= c
  {
    if s == [] then None
    else if s[0] > c then Some(s[0])
    else FirstAbove(s[1..], c)
  }

  /** `jump_to_next_bookmark` on a non-empty list: the first entry after `c`, else the first entry. */
  function NextAfter(s: seq<int>, c: int): (r: int)
    requires s != []
    ensures r in s
    ensures r > c || forall i :: 0 <= i < |s| ==> s[i] <= c
  {
    match FirstAbove(s, c)
    case Some(b) => b
    case None => s[0]
  }

  /**
   * On an ascending list the entry found is the smallest bookmark greater
   * than `c`, and when there is none the smallest bookmark overall: the
   * jump always lands on a bookmark.
   */
  lemma {:induction false} FirstAboveIsLeast(s: seq<int>, c: int)
    requires Ascending(s)
    ensures FirstAbove(s, c).Some? ==> forall y :: y in s && y > c ==> FirstAbove(s, c).value <= y
  {
    if s != [] && s[0] <= c {
      assert forall y :: y in s && y > c ==> y in s[1..];
      FirstAboveIsLeast(s[1..], c);
    }
  }

  lemma NextAfterSpec(s: seq<int>, c: int)
    requires Ascending(s) && s != []
    ensures NextAfter(s, c) in s
    ensures (exists y :: y in s && y > c) ==>
      NextAfter(s, c) > c && forall y :: y in s && y > c ==> NextAfter(s, c) <= y
    ensures (forall y :: y in s ==> y <= c) ==> forall y :: y in s ==> NextAfter(s, c) <= y
  {
    FirstAboveIsLeast(s, c);
  }

  /** With bookmarks 5, 20 and 40: from 25 the jump goes to 40, from 40 back to 5. */
  lemma NextAfterExample()
    ensures NextAfter([5, 20, 40], 25) == 40
    ensures NextAfter([5, 20, 40], 40) == 5
  {
  }
}
