/** Ranking of autocomplete candidates: Python's stable `sorted` keyed on the
    frequency (ascending, or with `reverse=True`), `reversed`, and the `[:3]`
    slice, with the facts about them that the dictionaries' autocomplete
    promises rest on. */
module Ranking {
  import opened Words

  /** The sort key: the frequency, negated when sorting with `reverse=True`
      (Python's reverse sort is stable, so it is an ascending sort on this key). */
  function Key(e: WordFrequency, descending: bool): int {
    if descending then -e.frequency else e.frequency
  }

  ghost predicate SortedBy(s: seq<WordFrequency>, descending: bool) {
    forall i, j :: 0 <= i < j < |s| ==> Key(s[i], descending) <= Key(s[j], descending)
  }

  /** Inserts x in front of the first element whose key is not smaller, so x
      stays ahead of the elements with its key. */
  function InsertByKey(x: WordFrequency, s: seq<WordFrequency>, descending: bool): seq<WordFrequency> {
    if s == [] || Key(x, descending) <= Key(s[0], descending) then [x] + s
    else [s[0]] + InsertByKey(x, s[1..], descending)
  }

  /** Inserting into a sorted sequence keeps it sorted and adds exactly x. */
  lemma {:induction false} InsertByKeySorted(x: WordFrequency, s: seq<WordFrequency>, descending: bool)
    requires SortedBy(s, descending)
    ensures SortedBy(InsertByKey(x, s, descending), descending)
    ensures multiset(InsertByKey(x, s, descending)) == multiset(s) + multiset{x}
  {
    if s == [] || Key(x, descending) <= Key(s[0], descending) {
      ConsSorted(x, s, descending);
    } else {
      assert s == [s[0]] + s[1..];
      SortedTail(s, descending);
      InsertByKeySorted(x, s[1..], descending);
      var rest := InsertByKey(x, s[1..], descending);
      BoundedByHead(s, x, rest, descending);
      ConsSorted(s[0], rest, descending);
    }
  }

  lemma ConsSorted(h: WordFrequency, t: seq<WordFrequency>, descending: bool)
    requires SortedBy(t, descending)
    requires forall j :: 0 <= j < |t| ==> Key(h, descending) <= Key(t[j], descending)
    ensures SortedBy([h] + t, descending)
  {
    var r := [h] + t;
    forall i, j | 0 <= i < j < |r| ensures Key(r[i], descending) <= Key(r[j], descending) {
      assert r[j] == t[j - 1];
      if i > 0 { assert r[i] == t[i - 1]; }
    }
  }

  /** Every element of a sorted s, and an x ranked after its head, is ranked
      no earlier than the head. */
  lemma BoundedByHead(s: seq<WordFrequency>, x: WordFrequency, rest: seq<WordFrequency>, descending: bool)
    requires s != [] && SortedBy(s, descending)
    requires Key(s[0], descending) <= Key(x, descending)
    requires multiset(rest) == multiset(s[1..]) + multiset{x}
    ensures forall j :: 0 <= j < |rest| ==> Key(s[0], descending) <= Key(rest[j], descending)
  {
    forall j | 0 <= j < |rest| ensures Key(s[0], descending) <= Key(rest[j], descending) {
      var e := rest[j];
      assert e in multiset(rest);
      if e != x {
        assert e in multiset(s[1..]);
        var k :| 0 <= k < |s[1..]| && s[1..][k] == e;
        assert s[k + 1] == e;
      }
    }
  }

  /** `sorted(s, key=frequency, reverse=descending)`: a stable insertion sort. */
  function SortByFrequency(s: seq<WordFrequency>, descending: bool): (r: seq<WordFrequency>)
    ensures SortedBy(r, descending)
    ensures multiset(r) == multiset(s) && |r| == |s|
  {
    if s == [] then []
    else
      assert s == [s[0]] + s[1..];
      var sorted := SortByFrequency(s[1..], descending);
      InsertByKeySorted(s[0], sorted, descending);
      InsertByKey(s[0], sorted, descending)
  }

  /** The elements of s with frequency f, in the order of s. */
  function WithFrequency(s: seq<WordFrequency>, f: int): seq<WordFrequency> {
    if s == [] then [] else (if s[0].frequency == f then [s[0]] else []) + WithFrequency(s[1..], f)
  }

  lemma {:induction false} WithFrequencyConcat(a: seq<WordFrequency>, b: seq<WordFrequency>, f: int)
    ensures WithFrequency(a + b, f) == WithFrequency(a, f) + WithFrequency(b, f)
  {
    if a == [] {
      assert a + b == b;
    } else {
      assert a + b == [a[0]] + (a[1..] + b);
      WithFrequencyCons(a[0], a[1..] + b, f);
      WithFrequencyConcat(a[1..], b, f);
      assert a == [a[0]] + a[1..];
      WithFrequencyCons(a[0], a[1..], f);
    }
  }

  /** Taking a prefix keeps a prefix of every tie group. */
  lemma {:induction false} WithFrequencyOfPrefix(s: seq<WordFrequency>, n: nat, f: int)
    requires n <= |s|
    ensures WithFrequency(s[..n], f) <= WithFrequency(s, f)
  {
    assert s == s[..n] + s[n..];
    WithFrequencyConcat(s[..n], s[n..], f);
  }

  lemma SortedTail(s: seq<WordFrequency>, descending: bool)
    requires s != [] && SortedBy(s, descending)
    ensures SortedBy(s[1..], descending)
  {
    var t := s[1..];
    forall i, j | 0 <= i < j < |t| ensures Key(t[i], descending) <= Key(t[j], descending) {
      assert t[i] == s[i + 1] && t[j] == s[j + 1];
    }
  }

  lemma WithFrequencyCons(h: WordFrequency, t: seq<WordFrequency>, f: int)
    ensures WithFrequency([h] + t, f) == (if h.frequency == f then [h] else []) + WithFrequency(t, f)
  {
    assert ([h] + t)[0] == h;
    assert ([h] + t)[1..] == t;
  }

  /** Inserting keeps the order of x ahead of the elements of its frequency. */
  lemma {:induction false} InsertByKeyIsStable(x: WordFrequency, s: seq<WordFrequency>, descending: bool, f: int)
    ensures WithFrequency(InsertByKey(x, s, descending), f)
            == (if x.frequency == f then [x] else []) + WithFrequency(s, f)
  {
    if s == [] || Key(x, descending) <= Key(s[0], descending) {
      WithFrequencyCons(x, s, f);
    } else {
      var rest := InsertByKey(x, s[1..], descending);
      InsertByKeyIsStable(x, s[1..], descending, f);
      WithFrequencyCons(s[0], rest, f);
      assert s == [s[0]] + s[1..];
      WithFrequencyCons(s[0], s[1..], f);
      assert x.frequency != s[0].frequency;
    }
  }

  /** Stability: sorting does not reorder elements of equal frequency. */
  lemma {:induction false} SortIsStable(s: seq<WordFrequency>, descending: bool, f: int)
    ensures WithFrequency(SortByFrequency(s, descending), f) == WithFrequency(s, f)
  {
    if s != [] {
      SortIsStable(s[1..], descending, f);
      InsertByKeyIsStable(s[0], SortByFrequency(s[1..], descending), descending, f);
    }
  }

  /** `reversed(s)` */
  function Reverse(s: seq<WordFrequency>): (r: seq<WordFrequency>)
    ensures |r| == |s|
    ensures forall i {:trigger r[i]} :: 0 <= i < |s| ==> r[i] == s[|s| - 1 - i]
  {
    if s == [] then [] else Reverse(s[1..]) + [s[0]]
  }

  lemma {:induction false} ReverseMultiset(s: seq<WordFrequency>)
    ensures multiset(Reverse(s)) == multiset(s)
  {
    if s != [] {
      ReverseMultiset(s[1..]);
      assert s == [s[0]] + s[1..];
    }
  }

  /** Reversing an ascending sort gives a non-increasing sequence. */
  lemma ReverseOfAscending(s: seq<WordFrequency>)
    requires SortedBy(s, false)
    ensures SortedBy(Reverse(s), true)
  {
    var r := Reverse(s);
    forall i, j | 0 <= i < j < |r| ensures Key(r[i], true) <= Key(r[j], true) {
      assert Key(s[|s| - 1 - j], false) <= Key(s[|s| - 1 - i], false);
    }
  }

  /** Reversing reverses every tie group. */
  lemma {:induction false} WithFrequencyReverse(s: seq<WordFrequency>, f: int)
    ensures WithFrequency(Reverse(s), f) == Reverse(WithFrequency(s, f))
  {
    if s != [] {
      var head := if s[0].frequency == f then [s[0]] else [];
      var tail := WithFrequency(s[1..], f);
      WithFrequencyReverse(s[1..], f);
      WithFrequencyConcat(Reverse(s[1..]), [s[0]], f);
      WithFrequencyCons(s[0], [], f);
      assert [s[0]] + [] == [s[0]];
      assert WithFrequency(s, f) == head + tail;
      ReverseConcat(head, tail);
      assert Reverse(head) == head;
    }
  }

  lemma ReverseConcat(a: seq<WordFrequency>, b: seq<WordFrequency>)
    ensures Reverse(a + b) == Reverse(b) + Reverse(a)
  {
    var l, r := Reverse(a + b), Reverse(b) + Reverse(a);
    forall i | 0 <= i < |l| ensures l[i] == r[i] {
      if i < |b| {
        assert l[i] == (a + b)[|a| + |b| - 1 - i] == b[|b| - 1 - i];
      } else {
        assert l[i] == (a + b)[|a| + |b| - 1 - i] == a[|a| + |b| - 1 - i];
      }
    }
  }

  /** `s[:n]` */
  function Take(s: seq<WordFrequency>, n: nat): (r: seq<WordFrequency>)
    ensures |r| == if |s| < n then |s| else n
    ensures r <= s
  {
    if |s| <= n then s else s[..n]
  }

  /** Cutting a non-increasing sequence keeps its highest frequencies: no
      element left out has a higher frequency than any element kept. */
  lemma TakeOfDescending(s: seq<WordFrequency>, n: nat)
    requires SortedBy(s, true)
    ensures var r := Take(s, n);
            && multiset(r) <= multiset(s)
            && (forall i, j :: 0 <= i < j < |r| ==> r[i].frequency >= r[j].frequency)
            && forall e, j :: e in multiset(s) - multiset(r) && 0 <= j < |r| ==> e.frequency <= r[j].frequency
  {
    var r := Take(s, n);
    var m := |r|;
    assert r == s[..m];
    PrefixOfDescending(s, m);
    assert s == s[..m] + s[m..];
    assert multiset(s) - multiset(r) == multiset(s[m..]);
    LeftOutRankLower(s, m);
  }

  lemma PrefixOfDescending(s: seq<WordFrequency>, m: nat)
    requires SortedBy(s, true) && m <= |s|
    ensures forall i, j :: 0 <= i < j < |s[..m]| ==> s[..m][i].frequency >= s[..m][j].frequency
  {
    forall i, j | 0 <= i < j < |s[..m]| ensures s[..m][i].frequency >= s[..m][j].frequency {
      assert Key(s[i], true) <= Key(s[j], true);
    }
  }

  lemma LeftOutRankLower(s: seq<WordFrequency>, m: nat)
    requires SortedBy(s, true) && m <= |s|
    ensures forall e, j :: e in multiset(s[m..]) && 0 <= j < m ==> e.frequency <= s[j].frequency
  {
    forall e: WordFrequency, j | e in multiset(s[m..]) && 0 <= j < m ensures e.frequency <= s[j].frequency {
      var k :| 0 <= k < |s[m..]| && s[m..][k] == e;
      assert Key(s[j], true) <= Key(s[m + k], true);
    }
  }
}
