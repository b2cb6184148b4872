/** The list backend (dictionary/list_dictionary.py): `dictList`, a Python
    list of (word, frequency) pairs in insertion order, searched linearly. */
module ListDictionaries {
  import opened Words
  import opened Ranking

  /** What `autocomplete` returns for the entries s: the entries whose word
      starts with the prefix, stably sorted by descending frequency, cut to three. */
  function Completions(s: seq<WordFrequency>, prefix: string): (r: seq<WordFrequency>)
    ensures |r| == if |MatchesPrefix(s, prefix)| < 3 then |MatchesPrefix(s, prefix)| else 3
  {
    Take(SortByFrequency(MatchesPrefix(s, prefix), true), 3)
  }

  /** The completions are at most three matching entries of s, in non-increasing
      frequency, no left-out match is more frequent than any returned one, and
      entries of equal frequency keep their order in s. */
  lemma CompletionsAreTopThree(s: seq<WordFrequency>, prefix: string)
    ensures var m := MatchesPrefix(s, prefix);
            var r := Completions(s, prefix);
            && |r| == (if |m| < 3 then |m| else 3)
            && (forall j :: 0 <= j < |r| ==> StartsWith(r[j].word, prefix) && r[j] in s)
            && multiset(r) <= multiset(m)
            && (forall i, j :: 0 <= i < j < |r| ==> r[i].frequency >= r[j].frequency)
            && (forall e, j :: e in multiset(m) - multiset(r) && 0 <= j < |r| ==> e.frequency <= r[j].frequency)
            && (forall f :: WithFrequency(r, f) <= WithFrequency(m, f))
  {
    var m := MatchesPrefix(s, prefix);
    var sorted := SortByFrequency(m, true);
    var r := Take(sorted, 3);
    assert |r| == (if |m| < 3 then |m| else 3);
    TakeOfDescending(sorted, 3);
    MatchesPrefixMembers(s, prefix);
    MembersOfSubMultiset(r, m, s, prefix);
    forall f ensures WithFrequency(r, f) <= WithFrequency(m, f) {
      TiesKept(m, f);
    }
  }

  lemma TiesKept(m: seq<WordFrequency>, f: int)
    ensures WithFrequency(Take(SortByFrequency(m, true), 3), f) <= WithFrequency(m, f)
  {
    var sorted := SortByFrequency(m, true);
    var r := Take(sorted, 3);
    SortIsStable(m, true, f);
    WithFrequencyOfPrefix(sorted, |r|, f);
    assert r == sorted[..|r|];
  }

  class ListDictionary {
    var dictList: seq<WordFrequency>

    constructor ()
      ensures dictList == []
    {
      dictList := [];
    }

    /** build_dictionary: the list becomes exactly the input pairs, in input
        order, duplicates included. */
    method BuildDictionary(wordsFrequencies: seq<WordFrequency>)
      modifies this
      ensures dictList == wordsFrequencies
    {
      dictList := [];
      for i := 0 to |wordsFrequencies|
        invariant dictList == wordsFrequencies[..i]
      {
        dictList := dictList + [wordsFrequencies[i]];
      }
    }

    /** search: the frequency of the first entry whose word is `word.strip()`,
        or 0 when there is none. */
    method Search(word: string) returns (f: int)
      ensures f == Lookup(dictList, Strip(word))
    {
      var key := Strip(word);
      for i := 0 to |dictList|
        invariant forall j :: 0 <= j < i ==> dictList[j].word != key
      {
        if dictList[i].word == key {
          return dictList[i].frequency;
        }
      }
      return 0;
    }

    /** add_word_frequency: the source's loop returns in its first iteration, so
        only the first entry is compared (without strip). An empty list is left
        empty and the call yields None, read here as false. */
    method AddWordFrequency(wordFrequency: WordFrequency) returns (added: bool)
      modifies this
      ensures added == (old(dictList) != [] && old(dictList)[0].word != wordFrequency.word)
      ensures dictList == if added then old(dictList) + [wordFrequency] else old(dictList)
    {
      if dictList == [] {
        return false;
      }
      if dictList[0].word == wordFrequency.word {
        return false;
      }
      dictList := dictList + [wordFrequency];
      return true;
    }

    /** delete_word: removes the first entry whose word is `word.strip()`.
        `list.remove(pair)` drops the first element equal to the pair, and no
        earlier element has that word, so it is the element at the found index. */
    method DeleteWord(word: string) returns (deleted: bool)
      modifies this
      ensures deleted == FindWord(old(dictList), Strip(word)).Some?
      ensures dictList == if deleted then RemoveAt(old(dictList), FindWord(old(dictList), Strip(word)).value)
                          else old(dictList)
    {
      var key := Strip(word);
      for i := 0 to |dictList|
        invariant dictList == old(dictList)
        invariant forall j :: 0 <= j < i ==> dictList[j].word != key
      {
        if dictList[i].word == key {
          dictList := RemoveAt(dictList, i);
          return true;
        }
      }
      return false;
    }

    /** autocomplete: filters by prefix in list order, sorts with the stable
        `sorted(..., reverse=True)` on the frequency and keeps the first three. */
    method Autocomplete(prefixWord: string) returns (r: seq<WordFrequency>)
      ensures r == Completions(dictList, prefixWord)
    {
      var shortList: seq<WordFrequency> := [];
      for i := 0 to |dictList|
        invariant shortList == MatchesPrefix(dictList[..i], prefixWord)
      {
        assert dictList[..i + 1][..i] == dictList[..i];
        if StartsWith(dictList[i].word, prefixWord) {
          shortList := shortList + [dictList[i]];
        }
      }
      assert dictList[..|dictList|] == dictList;
      shortList := SortByFrequency(shortList, true);
      r := Take(shortList, 3);
    }
  }
}
