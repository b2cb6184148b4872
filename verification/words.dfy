/** Vocabulary shared by the three dictionary backends: the (word, frequency)
    record, Python's `str.startswith` and `str.strip()`, and first-match
    search, removal and prefix filtering over a sequence of records. */
module Words {

  datatype Option<T> = None | Some(value: T)

  /** A word with its frequency. The list backend keeps `[word, frequency]`
      pairs and the hash backend keeps dict items; both hold exactly these two
      values, so all three backends use this one record. */
  datatype WordFrequency = WordFrequency(word: string, frequency: int)

  /** `w.startswith(p)`; the empty prefix matches every word. */
  predicate StartsWith(w: string, p: string)
    ensures StartsWith(w, p) <==> |p| <= |w| && forall i :: 0 <= i < |p| ==> w[i] == p[i]
  {
    |p| <= |w| && w[..|p|] == p
  }

  /** The characters for which Python's `str.isspace()` holds. */
  predicate IsSpace(c: char) {
    || ('\U{9}' <= c <= '\U{D}')
    || ('\U{1C}' <= c <= '\U{20}')
    || c == '\U{85}' || c == '\U{A0}' || c == '\U{1680}'
    || ('\U{2000}' <= c <= '\U{200A}')
    || c == '\U{2028}' || c == '\U{2029}' || c == '\U{202F}' || c == '\U{205F}' || c == '\U{3000}'
  }

  /** `s.lstrip()`: drops leading whitespace and nothing else. */
  function TrimStart(s: string): (r: string)
    ensures |r| <= |s| && r == s[|s| - |r|..]
    ensures forall i :: 0 <= i < |s| - |r| ==> IsSpace(s[i])
    ensures r != [] ==> !IsSpace(r[0])
  {
    if s != [] && IsSpace(s[0]) then TrimStart(s[1..]) else s
  }

  /** `s.rstrip()`: drops trailing whitespace and nothing else. */
  function TrimEnd(s: string): (r: string)
    ensures |r| <= |s| && r == s[..|r|]
    ensures forall i :: |r| <= i < |s| ==> IsSpace(s[i])
    ensures r != [] ==> !IsSpace(r[|r| - 1])
  {
    if s != [] && IsSpace(s[|s| - 1]) then TrimEnd(s[..|s| - 1]) else s
  }

  /** r is the slice of s starting at i, and every character of s outside
      that slice is whitespace. */
  predicate SliceBetweenSpaces(s: string, i: nat, r: string) {
    && i + |r| <= |s| && r == s[i..i + |r|]
    && (forall k :: 0 <= k < i ==> IsSpace(s[k]))
    && (forall k :: i + |r| <= k < |s| ==> IsSpace(s[k]))
  }

  /** `s.strip()`: the slice of s left after removing whitespace at both ends. */
  function Strip(s: string): (r: string)
    ensures |r| <= |s|
    ensures r != [] ==> !IsSpace(r[0]) && !IsSpace(r[|r| - 1])
    ensures (forall i :: 0 <= i < |s| ==> !IsSpace(s[i])) ==> r == s
    ensures exists i :: SliceBetweenSpaces(s, i, r)
  {
    var t := TrimStart(s);
    var r := TrimEnd(t);
    var i := |s| - |t|;
    assert r == s[i..i + |r|];
    assert forall k :: i + |r| <= k < |s| ==> s[k] == t[k - i];
    assert SliceBetweenSpaces(s, i, r);
    r
  }

  /** Index of the first record whose word is w, if there is one. */
  function FindWord(s: seq<WordFrequency>, w: string): (r: Option<nat>)
    ensures r.Some? ==> r.value < |s| && s[r.value].word == w
    ensures forall j :: 0 <= j < |s| && (r.None? || j < r.value) ==> s[j].word != w
  {
    if s == [] then None
    else if s[0].word == w then Some(0)
    else match FindWord(s[1..], w)
      case None => None
      case Some(k) => Some(k + 1)
  }

  /** What a linear `search` returns: the frequency of the first record for w, or 0. */
  function Lookup(s: seq<WordFrequency>, w: string): (r: int)
    ensures (forall j :: 0 <= j < |s| ==> s[j].word != w) ==> r == 0
    ensures forall j :: 0 <= j < |s| && s[j].word == w && (forall i :: 0 <= i < j ==> s[i].word != w) ==>
                          r == s[j].frequency
  {
    match FindWord(s, w)
    case Some(k) => s[k].frequency
    case None => 0
  }

  /** The sequence without its k-th record; the others keep their order. */
  function RemoveAt(s: seq<WordFrequency>, k: nat): (r: seq<WordFrequency>)
    requires k < |s|
    ensures |r| == |s| - 1
    ensures multiset(r) + multiset{s[k]} == multiset(s)
    ensures forall i :: 0 <= i < k ==> r[i] == s[i]
    ensures forall i :: k <= i < |r| ==> r[i] == s[i + 1]
  {
    assert s == s[..k] + [s[k]] + s[k + 1..];
    s[..k] + s[k + 1..]
  }

  /** The records whose word starts with p, in their original order. */
  function MatchesPrefix(s: seq<WordFrequency>, p: string): (r: seq<WordFrequency>)
    ensures forall e :: multiset(r)[e] == if StartsWith(e.word, p) then multiset(s)[e] else 0
  {
    if s == [] then []
    else
      var init, last := s[..|s| - 1], s[|s| - 1];
      assert s == init + [last];
      if StartsWith(last.word, p) then MatchesPrefix(init, p) + [last] else MatchesPrefix(init, p)
  }

  /** The filter works record by record: filtering a concatenation
      concatenates the filtered parts, so the kept records stay in order. */
  lemma {:induction false} MatchesPrefixConcat(a: seq<WordFrequency>, b: seq<WordFrequency>, p: string)
    ensures MatchesPrefix(a + b, p) == MatchesPrefix(a, p) + MatchesPrefix(b, p)
    decreases |b|
  {
    if b == [] {
      assert a + b == a;
    } else {
      var init, last := b[..|b| - 1], b[|b| - 1];
      assert (a + b)[..|a + b| - 1] == a + init;
      MatchesPrefixConcat(a, init, p);
    }
  }

  /** Every record the filter keeps starts with the prefix and comes from s. */
  lemma MatchesPrefixMembers(s: seq<WordFrequency>, p: string)
    ensures forall e :: e in multiset(MatchesPrefix(s, p)) ==> StartsWith(e.word, p) && e in s
  {
    forall e | e in multiset(MatchesPrefix(s, p)) ensures StartsWith(e.word, p) && e in s {
      assert e in multiset(s);
    }
  }

  /** The records of a sub-multiset of such a filter result start with the
      prefix and come from s. */
  lemma MembersOfSubMultiset(r: seq<WordFrequency>, m: seq<WordFrequency>, s: seq<WordFrequency>, p: string)
    requires multiset(r) <= multiset(m)
    requires forall e :: e in multiset(m) ==> StartsWith(e.word, p) && e in s
    ensures forall j :: 0 <= j < |r| ==> StartsWith(r[j].word, p) && r[j] in s
  {
    forall j | 0 <= j < |r| ensures StartsWith(r[j].word, p) && r[j] in s {
      assert r[j] in multiset(r);
    }
  }

  /** First-match search over a concatenation looks in the second part only
      when the first part has no match. */
  lemma {:induction false} FindWordConcat(a: seq<WordFrequency>, b: seq<WordFrequency>, w: string)
    ensures FindWord(a + b, w) == match FindWord(a, w)
                                  case Some(i) => Some(i)
                                  case None => match FindWord(b, w)
                                               case Some(j) => Some(|a| + j)
                                               case None => None
  {
    if a == [] {
      assert a + b == b;
    } else if a[0].word == w {
      assert (a + b)[0] == a[0];
    } else {
      assert (a + b)[0] == a[0];
      assert (a + b)[1..] == a[1..] + b;
      FindWordConcat(a[1..], b, w);
    }
  }

  lemma LookupConcat(a: seq<WordFrequency>, b: seq<WordFrequency>, w: string)
    ensures Lookup(a + b, w) == if FindWord(a, w).Some? then Lookup(a, w) else Lookup(b, w)
  {
    FindWordConcat(a, b, w);
    match FindWord(a, w)
    case Some(i) => assert (a + b)[i] == a[i];
    case None =>
      match FindWord(b, w)
      case Some(j) => assert (a + b)[|a| + j] == b[j];
      case None =>
  }

  /** Appending a record is seen by `search` exactly when its word was absent. */
  lemma LookupAfterAppend(s: seq<WordFrequency>, x: WordFrequency)
    ensures Lookup(s + [x], x.word) == if FindWord(s, x.word).Some? then Lookup(s, x.word) else x.frequency
    ensures forall w :: w != x.word ==> Lookup(s + [x], w) == Lookup(s, w)
  {
    LookupConcat(s, [x], x.word);
    forall w | w != x.word ensures Lookup(s + [x], w) == Lookup(s, w) {
      LookupConcat(s, [x], w);
    }
  }

  /** Removing the first record for w makes `search` see the next one; lookups
      of every other word are unaffected. */
  lemma LookupAfterRemoveFirst(s: seq<WordFrequency>, w: string)
    requires FindWord(s, w).Some?
    ensures var k := FindWord(s, w).value;
            Lookup(RemoveAt(s, k), w) == Lookup(s[k + 1..], w)
            && forall v :: v != w ==> Lookup(RemoveAt(s, k), v) == Lookup(s, v)
  {
    var k := FindWord(s, w).value;
    var before, after := s[..k], s[k + 1..];
    RemoveAtSplit(s, k);
    NoMatchBefore(s, w, k);
    LookupConcat(before, after, w);
    forall v | v != w ensures Lookup(RemoveAt(s, k), v) == Lookup(s, v) {
      LookupSkipsOther(before, s[k], after, v);
    }
  }

  lemma RemoveAtSplit(s: seq<WordFrequency>, k: nat)
    requires k < |s|
    ensures RemoveAt(s, k) == s[..k] + s[k + 1..]
    ensures s == s[..k] + ([s[k]] + s[k + 1..])
  {
    assert s == s[..k] + [s[k]] + s[k + 1..];
  }

  lemma NoMatchBefore(s: seq<WordFrequency>, w: string, k: nat)
    requires k <= |s|
    requires forall j :: 0 <= j < k ==> s[j].word != w
    ensures FindWord(s[..k], w).None?
  {
  }

  /** A record for another word does not affect `search`. */
  lemma LookupSkipsOther(before: seq<WordFrequency>, x: WordFrequency, after: seq<WordFrequency>, v: string)
    requires x.word != v
    ensures Lookup(before + after, v) == Lookup(before + ([x] + after), v)
  {
    LookupConcat(before, after, v);
    LookupConcat(before, [x] + after, v);
    LookupConcat([x], after, v);
  }
}
