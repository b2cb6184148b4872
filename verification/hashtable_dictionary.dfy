/** The hash-table backend (dictionary/hashtable_dictionary.py): `thisDict`,
    a Python dict from word to frequency. A dict iterates in insertion order,
    so it is modelled as a sequence of records with pairwise distinct words. */
module HashTableDictionaries {
  import opened Words
  import opened Ranking

  ghost predicate DistinctWords(d: seq<WordFrequency>) {
    forall i, j :: 0 <= i < j < |d| ==> d[i].word != d[j].word
  }

  /** Two sequences with the same words position by position have the same
      first matches. */
  lemma {:induction false} FindWordSameWords(a: seq<WordFrequency>, b: seq<WordFrequency>, w: string)
    requires |a| == |b| && forall i :: 0 <= i < |a| ==> a[i].word == b[i].word
    ensures FindWord(a, w) == FindWord(b, w)
  {
    if a != [] {
      FindWordSameWords(a[1..], b[1..], w);
    }
  }

  /** `d.update({w: f})`: an existing key keeps its place and takes the new
      frequency; a new key goes to the end. */
  function Update(d: seq<WordFrequency>, w: string, f: int): (r: seq<WordFrequency>)
    requires DistinctWords(d)
    ensures DistinctWords(r)
    ensures FindWord(r, w).Some? && Lookup(r, w) == f
    ensures forall v :: v != w ==> FindWord(r, v) == FindWord(d, v) && Lookup(r, v) == Lookup(d, v)
    ensures FindWord(d, w).Some? ==> FindWord(r, w) == FindWord(d, w)
    ensures |r| == if FindWord(d, w).Some? then |d| else |d| + 1
  {
    match FindWord(d, w)
    case Some(k) =>
      var r := d[k := WordFrequency(w, f)];
      forall v ensures FindWord(r, v) == FindWord(d, v) {
        FindWordSameWords(r, d, v);
      }
      r
    case None =>
      var r := d + [WordFrequency(w, f)];
      forall v ensures FindWord(r, v) == if v == w then Some(|d|) else FindWord(d, v) {
        FindWordConcat(d, [WordFrequency(w, f)], v);
      }
      forall v | v != w ensures Lookup(r, v) == Lookup(d, v) {
        LookupConcat(d, [WordFrequency(w, f)], v);
      }
      r
  }

  /** The dict that build_dictionary leaves: the pairs of wfs `update`d in
      order into an empty dict. */
  function Built(wfs: seq<WordFrequency>): (d: seq<WordFrequency>)
    ensures DistinctWords(d)
  {
    if wfs == [] then []
    else
      var last := wfs[|wfs| - 1];
      Update(Built(wfs[..|wfs| - 1]), last.word, last.frequency)
  }

  /** After build_dictionary, exactly the input words are keys, and each maps
      to the frequency of its last occurrence in the input. */
  lemma {:induction false} BuiltKeepsLastFrequency(wfs: seq<WordFrequency>, w: string)
    ensures FindWord(Built(wfs), w).Some? <==> FindWord(wfs, w).Some?
    ensures FindWord(Built(wfs), w).Some? ==>
              exists i :: 0 <= i < |wfs| && wfs[i].word == w && Lookup(Built(wfs), w) == wfs[i].frequency
                          && forall j :: i < j < |wfs| ==> wfs[j].word != w
  {
    if wfs != [] {
      var init, last := wfs[..|wfs| - 1], wfs[|wfs| - 1];
      assert wfs == init + [last];
      FindWordConcat(init, [last], w);
      if last.word == w {
        BuiltAppendSame(init, last);
        assert wfs[|wfs| - 1] == last;
      } else {
        BuiltKeepsLastFrequency(init, w);
        BuiltAppendOther(init, last, w);
        assert FindWord([last], w).None?;
        if FindWord(Built(init), w).Some? {
          LastOccurrenceKept(init, last, w, Lookup(Built(init), w));
        }
      }
    }
  }

  /** Building with one more record stores that record's frequency. */
  lemma BuiltAppendSame(init: seq<WordFrequency>, last: WordFrequency)
    ensures FindWord(Built(init + [last]), last.word).Some?
    ensures Lookup(Built(init + [last]), last.word) == last.frequency
  {
    assert (init + [last])[..|init|] == init;
  }

  /** Building with one more record leaves the other words as they were. */
  lemma BuiltAppendOther(init: seq<WordFrequency>, last: WordFrequency, w: string)
    requires last.word != w
    ensures FindWord(Built(init + [last]), w) == FindWord(Built(init), w)
    ensures Lookup(Built(init + [last]), w) == Lookup(Built(init), w)
  {
    assert (init + [last])[..|init|] == init;
  }

  /** A last occurrence of w in init stays the last one after appending a
      record for another word. */
  lemma LastOccurrenceKept(init: seq<WordFrequency>, last: WordFrequency, w: string, f: int)
    requires last.word != w
    requires exists i :: 0 <= i < |init| && init[i].word == w && f == init[i].frequency
                         && forall j :: i < j < |init| ==> init[j].word != w
    ensures exists i :: 0 <= i < |init + [last]| && (init + [last])[i].word == w && f == (init + [last])[i].frequency
                        && forall j :: i < j < |init + [last]| ==> (init + [last])[j].word != w
  {
    var wfs := init + [last];
    var i :| 0 <= i < |init| && init[i].word == w && f == init[i].frequency
             && forall j :: i < j < |init| ==> init[j].word != w;
    assert wfs[i] == init[i];
    forall j | i < j < |wfs| ensures wfs[j].word != w {
      if j < |init| { assert wfs[j] == init[j]; }
    }
  }

  /** The keys of d are in the order of their first occurrence in wfs. */
  ghost predicate InFirstOccurrenceOrder(d: seq<WordFrequency>, wfs: seq<WordFrequency>) {
    && (forall i :: 0 <= i < |d| ==> FindWord(wfs, d[i].word).Some?)
    && (forall i, j :: 0 <= i < j < |d| && FindWord(wfs, d[i].word).Some? && FindWord(wfs, d[j].word).Some?
          ==> FindWord(wfs, d[i].word).value < FindWord(wfs, d[j].word).value)
  }

  /** After build_dictionary, the keys are in the order of their first
      occurrence in the input. */
  lemma {:induction false} BuiltKeyOrder(wfs: seq<WordFrequency>)
    ensures InFirstOccurrenceOrder(Built(wfs), wfs)
  {
    if wfs != [] {
      var init, last := wfs[..|wfs| - 1], wfs[|wfs| - 1];
      assert wfs == init + [last];
      var d0 := Built(init);
      BuiltKeyOrder(init);
      FirstMatchesKept(init, last);
      assert FindWord(d0, last.word).Some? <==> FindWord(init, last.word).Some? by {
        BuiltKeepsLastFrequency(init, last.word);
      }
      if FindWord(d0, last.word).Some? {
        BuiltAppendKnown(init, last);
        OrderAfterOverwrite(d0, Built(wfs), init, wfs);
      } else {
        FindWordConcat(init, [last], last.word);
        BuiltAppendNew(init, last);
        OrderAfterAppend(d0, WordFrequency(last.word, last.frequency), init, wfs);
      }
    }
  }

  /** Appending a record does not move the first match of a word already present. */
  lemma FirstMatchesKept(init: seq<WordFrequency>, x: WordFrequency)
    ensures forall v :: FindWord(init, v).Some? ==> FindWord(init + [x], v) == FindWord(init, v)
  {
    forall v | FindWord(init, v).Some? ensures FindWord(init + [x], v) == FindWord(init, v) {
      FindWordConcat(init, [x], v);
    }
  }

  /** A record for a word already in the dict keeps every key in its place. */
  lemma BuiltAppendKnown(init: seq<WordFrequency>, last: WordFrequency)
    requires FindWord(Built(init), last.word).Some?
    ensures |Built(init + [last])| == |Built(init)|
    ensures forall i :: 0 <= i < |Built(init)| ==> Built(init + [last])[i].word == Built(init)[i].word
  {
    assert (init + [last])[..|init|] == init;
  }

  /** A record for a new word is appended to the dict. */
  lemma BuiltAppendNew(init: seq<WordFrequency>, last: WordFrequency)
    requires FindWord(Built(init), last.word).None?
    ensures Built(init + [last]) == Built(init) + [WordFrequency(last.word, last.frequency)]
  {
    assert (init + [last])[..|init|] == init;
  }

  lemma OrderAfterOverwrite(d0: seq<WordFrequency>, d: seq<WordFrequency>, init: seq<WordFrequency>, wfs: seq<WordFrequency>)
    requires |d| == |d0| && forall i :: 0 <= i < |d| ==> d[i].word == d0[i].word
    requires InFirstOccurrenceOrder(d0, init)
    requires forall v :: FindWord(init, v).Some? ==> FindWord(wfs, v) == FindWord(init, v)
    ensures InFirstOccurrenceOrder(d, wfs)
  {
    forall i | 0 <= i < |d| ensures FindWord(wfs, d[i].word) == FindWord(init, d0[i].word) {
      assert FindWord(init, d0[i].word).Some?;
    }
  }

  lemma OrderAfterAppend(d0: seq<WordFrequency>, x: WordFrequency, init: seq<WordFrequency>, wfs: seq<WordFrequency>)
    requires InFirstOccurrenceOrder(d0, init)
    requires forall v :: FindWord(init, v).Some? ==> FindWord(wfs, v) == FindWord(init, v)
    requires FindWord(wfs, x.word) == Some(|init|)
    ensures InFirstOccurrenceOrder(d0 + [x], wfs)
  {
    var d := d0 + [x];
    forall i | 0 <= i < |d0| ensures d[i] == d0[i] && FindWord(wfs, d[i].word).Some?
                                  && FindWord(wfs, d[i].word).value < |init| {
      assert FindWord(init, d0[i].word).Some?;
    }
    assert d[|d0|] == x;
  }

  /** Deleting the key of a dict removes it and nothing else. */
  lemma DeleteRemovesOnlyThatKey(d: seq<WordFrequency>, w: string)
    requires DistinctWords(d) && FindWord(d, w).Some?
    ensures var r := RemoveAt(d, FindWord(d, w).value);
            && DistinctWords(r)
            && FindWord(r, w).None?
            && forall v :: v != w ==> Lookup(r, v) == Lookup(d, v)
  {
    var k := FindWord(d, w).value;
    var r := RemoveAt(d, k);
    LookupAfterRemoveFirst(d, w);
    assert forall i :: 0 <= i < k ==> r[i] == d[i];
    assert forall i :: k <= i < |r| ==> r[i] == d[i + 1];
  }

  /** What `autocomplete` returns for the dict d: the entries whose word starts
      with the prefix, in dict order, sorted ascending by frequency (stable),
      reversed, cut to three. */
  function Completions(d: seq<WordFrequency>, prefix: string): (r: seq<WordFrequency>)
    ensures |r| == if |MatchesPrefix(d, prefix)| < 3 then |MatchesPrefix(d, prefix)| else 3
  {
    Take(Reverse(SortByFrequency(MatchesPrefix(d, prefix), false)), 3)
  }

  /** The completions are at most three matching entries of d, in
      non-increasing frequency, no left-out match is more frequent than any
      returned one, and entries of equal frequency come out in the reverse of
      their dict (insertion) order. */
  lemma CompletionsAreTopThree(d: seq<WordFrequency>, prefix: string)
    ensures var m := MatchesPrefix(d, prefix);
            var r := Completions(d, prefix);
            && |r| == (if |m| < 3 then |m| else 3)
            && (forall j :: 0 <= j < |r| ==> StartsWith(r[j].word, prefix) && r[j] in d)
            && multiset(r) <= multiset(m)
            && (forall i, j :: 0 <= i < j < |r| ==> r[i].frequency >= r[j].frequency)
            && (forall e, j :: e in multiset(m) - multiset(r) && 0 <= j < |r| ==> e.frequency <= r[j].frequency)
            && (forall f :: WithFrequency(r, f) <= Reverse(WithFrequency(m, f)))
  {
    var m := MatchesPrefix(d, prefix);
    var ascending := SortByFrequency(m, false);
    var sorted := Reverse(ascending);
    var r := Take(sorted, 3);
    AscendingReversed(m);
    assert |r| == (if |m| < 3 then |m| else 3);
    TakeOfDescending(sorted, 3);
    MatchesPrefixMembers(d, prefix);
    MembersOfSubMultiset(r, m, d, prefix);
    forall f ensures WithFrequency(r, f) <= Reverse(WithFrequency(m, f)) {
      TiesReversed(m, f);
    }
  }

  /** Sorting ascending and reversing ranks the entries by non-increasing frequency. */
  lemma AscendingReversed(m: seq<WordFrequency>)
    ensures SortedBy(Reverse(SortByFrequency(m, false)), true)
    ensures multiset(Reverse(SortByFrequency(m, false))) == multiset(m)
  {
    ReverseOfAscending(SortByFrequency(m, false));
    ReverseMultiset(SortByFrequency(m, false));
  }

  lemma TiesReversed(m: seq<WordFrequency>, f: int)
    ensures WithFrequency(Take(Reverse(SortByFrequency(m, false)), 3), f) <= Reverse(WithFrequency(m, f))
  {
    var ascending := SortByFrequency(m, false);
    var sorted := Reverse(ascending);
    var r := Take(sorted, 3);
    SortIsStable(m, false, f);
    WithFrequencyReverse(ascending, f);
    WithFrequencyOfPrefix(sorted, |r|, f);
    assert r == sorted[..|r|];
  }

  class HashTableDictionary {
    var thisDict: seq<WordFrequency>

    /** A dict never holds a key twice. */
    ghost predicate Valid()
      reads this
    {
      DistinctWords(thisDict)
    }

    constructor ()
      ensures Valid() && thisDict == []
    {
      thisDict := [];
    }

    /** build_dictionary: `update`s the pairs in order into an empty dict. */
    method BuildDictionary(wordsFrequencies: seq<WordFrequency>)
      modifies this
      ensures Valid() && thisDict == Built(wordsFrequencies)
    {
      thisDict := [];
      for i := 0 to |wordsFrequencies|
        invariant thisDict == Built(wordsFrequencies[..i])
      {
        assert wordsFrequencies[..i + 1][..i] == wordsFrequencies[..i];
        thisDict := Update(thisDict, wordsFrequencies[i].word, wordsFrequencies[i].frequency);
      }
      assert wordsFrequencies[..|wordsFrequencies|] == wordsFrequencies;
    }

    /** search: the stored frequency when word is a key, otherwise 0. */
    method Search(word: string) returns (f: int)
      ensures f == Lookup(thisDict, word)
    {
      for i := 0 to |thisDict|
        invariant forall j :: 0 <= j < i ==> thisDict[j].word != word
      {
        if thisDict[i].word == word {
          return thisDict[i].frequency;
        }
      }
      return 0;
    }

    /** add_word_frequency: the source's loop returns in its first iteration, so
        only the first key is compared. An empty dict gives false; otherwise,
        unless the first key is the word, `update` stores the pair, overwriting
        the frequency of a later existing key. */
    method AddWordFrequency(wordFrequency: WordFrequency) returns (added: bool)
      requires Valid()
      modifies this
      ensures Valid()
      ensures added == (old(thisDict) != [] && old(thisDict)[0].word != wordFrequency.word)
      ensures thisDict == if added then Update(old(thisDict), wordFrequency.word, wordFrequency.frequency)
                          else old(thisDict)
    {
      if thisDict == [] {
        return false;
      }
      if thisDict[0].word == wordFrequency.word {
        return false;
      }
      thisDict := Update(thisDict, wordFrequency.word, wordFrequency.frequency);
      return true;
    }

    /** delete_word: `del` of the key when present. */
    method DeleteWord(word: string) returns (deleted: bool)
      requires Valid()
      modifies this
      ensures Valid()
      ensures deleted == FindWord(old(thisDict), word).Some?
      ensures thisDict == if deleted then RemoveAt(old(thisDict), FindWord(old(thisDict), word).value)
                          else old(thisDict)
    {
      for i := 0 to |thisDict|
        invariant thisDict == old(thisDict)
        invariant forall j :: 0 <= j < i ==> thisDict[j].word != word
      {
        if thisDict[i].word == word {
          DeleteRemovesOnlyThatKey(thisDict, word);
          thisDict := RemoveAt(thisDict, i);
          return true;
        }
      }
      return false;
    }

    /** autocomplete: collects the matching keys into a new dict in dict order
        (each `update` adds a key not yet present, so it appends), sorts the
        items ascending by frequency, reverses, and keeps the first three. */
    method Autocomplete(prefixWord: string) returns (r: seq<WordFrequency>)
      ensures r == Completions(thisDict, prefixWord)
    {
      var newDict: seq<WordFrequency> := [];
      for i := 0 to |thisDict|
        invariant newDict == MatchesPrefix(thisDict[..i], prefixWord)
      {
        assert thisDict[..i + 1][..i] == thisDict[..i];
        if StartsWith(thisDict[i].word, prefixWord) {
          newDict := newDict + [thisDict[i]];
        }
      }
      assert thisDict[..|thisDict|] == thisDict;
      newDict := SortByFrequency(newDict, false);
      r := Take(Reverse(newDict), 3);
    }
  }
}
