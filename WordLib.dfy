/**
 * The word library: a table of entries indexed twice, by a numeric id
 * handed out from a counter and by the lower-cased word. Both indexes are
 * maps the operations update in place; `Valid` is the invariant that keeps
 * them in step.
 */
module WordLibs {
  import opened Wrappers
  import opened CaseFold

  /** The library's own part-of-speech tags (`WordLib.Category`). */
  datatype PartOfSpeech =
    N | V | ADJ | ADV | PRON | PREP | CONJ | ART | NUM | INTERJ | AUX_V | ONOMATOPOEIA

  /**
   * One entry of the library (`WordLib.WordItem`). The example and the
   * tags are optional: the two-argument constructor leaves them unset.
   */
  datatype Entry = Entry(word: string, meaning: string,
                         example: Option<string>, category: Option<seq<PartOfSpeech>>)

  /**
   * The two indexes agree: every id is found again under its folded word,
   * every folded word leads to a live id, and no two folded words lead to
   * the same id.
   */
  predicate Indexed(wordMap: map<int, Entry>, wordToIdMap: map<string, int>)
  {
    (forall id {:trigger wordMap[id]} :: id in wordMap ==>
       Lower(wordMap[id].word) in wordToIdMap && wordToIdMap[Lower(wordMap[id].word)] == id) &&
    (forall k :: k in wordToIdMap ==> wordToIdMap[k] in wordMap) &&
    (forall k1, k2 :: k1 in wordToIdMap && k2 in wordToIdMap && wordToIdMap[k1] == wordToIdMap[k2] ==> k1 == k2)
  }

  /** Under agreeing indexes, each folded word leads to the entry whose word folds to it. */
  lemma IndexedKey(wordMap: map<int, Entry>, wordToIdMap: map<string, int>, k: string)
    requires Indexed(wordMap, wordToIdMap) && k in wordToIdMap
    ensures wordToIdMap[k] in wordMap && Lower(wordMap[wordToIdMap[k]].word) == k
  {
    var id := wordToIdMap[k];
    assert wordToIdMap[Lower(wordMap[id].word)] == id;
  }

  /** Two indexes that agree have the same number of entries. */
  lemma {:induction false} IndexedSameSize(wordMap: map<int, Entry>, wordToIdMap: map<string, int>)
    requires Indexed(wordMap, wordToIdMap)
    ensures |wordMap| == |wordToIdMap|
    decreases |wordMap|
  {
    if wordMap != map[] {
      var id := SomeId(wordMap);
      var key := Lower(wordMap[id].word);
      var wm := wordMap - {id};
      var wi := wordToIdMap - {key};
      forall k | k in wi
        ensures wi[k] in wm && Lower(wm[wi[k]].word) == k
      {
        assert wi[k] != id;
      }
      IndexedSameSize(wm, wi);
      assert wordMap.Keys == wm.Keys + {id};
      assert wordToIdMap.Keys == wi.Keys + {key};
    } else {
      assert wordToIdMap.Keys == {};
    }
  }

  /** Some live id of a non-empty table. */
  lemma SomeId(wordMap: map<int, Entry>) returns (id: int)
    requires wordMap != map[]
    ensures id in wordMap
  {
    if forall k :: k !in wordMap {
      assert false;
    }
    id :| id in wordMap;
  }

  /** The first entry of each folded word among the pairs `addAllWords` is given. */
  predicate FirstOfItsCase(pairs: seq<(string, string)>, i: int)
    requires 0 <= i < |pairs|
  {
    forall j :: 0 <= j < i ==> Lower(pairs[j].0) != Lower(pairs[i].0)
  }

  /** The words of a `Map<String, String>`: no word occurs twice. */
  predicate DistinctWords(pairs: seq<(string, string)>)
  {
    forall a, b :: 0 <= a < b < |pairs| ==> pairs[a].0 != pairs[b].0
  }

  /** The folded words indexed once the first i pairs have been added to a library indexing `known`. */
  function SeenKeys(pairs: seq<(string, string)>, i: nat, known: set<string>): set<string>
    requires i <= |pairs|
  {
    if i == 0 then known else SeenKeys(pairs, i - 1, known) + {Lower(pairs[i - 1].0)}
  }

  /** The words of the first i pairs that `addWord` accepts: those whose folded word is not yet indexed. */
  function NewWords(pairs: seq<(string, string)>, i: nat, known: set<string>): set<string>
    requires i <= |pairs|
  {
    if i == 0 then {}
    else if Lower(pairs[i - 1].0) in SeenKeys(pairs, i - 1, known) then NewWords(pairs, i - 1, known)
    else NewWords(pairs, i - 1, known) + {pairs[i - 1].0}
  }

  /** The indexed keys are the known ones and the folded words of the pairs seen. */
  lemma {:induction false} SeenKeysAre(pairs: seq<(string, string)>, i: nat, known: set<string>, k: string)
    requires i <= |pairs|
    ensures k in SeenKeys(pairs, i, known) <==> k in known || exists j :: 0 <= j < i && Lower(pairs[j].0) == k
  {
    if i > 0 {
      SeenKeysAre(pairs, i - 1, known, k);
      if k == Lower(pairs[i - 1].0) {
        assert Lower(pairs[i - 1].0) == k;
      }
    }
  }

  /** Every accepted word's folded word is indexed afterwards. */
  lemma {:induction false} NewWordsSeen(pairs: seq<(string, string)>, i: nat, known: set<string>, k: string)
    requires i <= |pairs|
    requires k in NewWords(pairs, i, known)
    ensures Lower(k) in SeenKeys(pairs, i, known) && Lower(k) !in known
  {
    if k in NewWords(pairs, i - 1, known) {
      NewWordsSeen(pairs, i - 1, known, k);
    } else {
      assert k == pairs[i - 1].0;
      SeenKeysAre(pairs, i - 1, known, Lower(k));
    }
  }

  /**
   * `addAllWords` accepts exactly the words that are the first of their
   * folded word among the pairs and whose folded word was not indexed before.
   */
  lemma {:induction false} NewWordsAre(pairs: seq<(string, string)>, i: nat, known: set<string>, k: string)
    requires i <= |pairs|
    ensures k in NewWords(pairs, i, known) <==>
            exists j :: 0 <= j < i && pairs[j].0 == k && FirstOfItsCase(pairs, j) && Lower(k) !in known
  {
    if i > 0 {
      NewWordsAre(pairs, i - 1, known, k);
      var w := pairs[i - 1].0;
      SeenKeysAre(pairs, i - 1, known, Lower(w));
      if k == w && Lower(w) !in SeenKeys(pairs, i - 1, known) {
        assert FirstOfItsCase(pairs, i - 1);
      }
      if k == w && FirstOfItsCase(pairs, i - 1) && Lower(k) !in known {
        assert Lower(w) !in SeenKeys(pairs, i - 1, known);
      }
    }
  }

  /**
   * What the result's ids hold after the first i pairs: each new word's
   * entry with its meaning, under a fresh id, the counter having moved on
   * once per new word.
   */
  ghost predicate StoredSoFar(pairs: seq<(string, string)>, i: int, wm: map<int, Entry>,
                              result: map<string, int>, next0: int, next: int)
    requires 0 <= i <= |pairs|
  {
    (forall j :: 0 <= j < i && pairs[j].0 in result ==>
       result[pairs[j].0] in wm && wm[result[pairs[j].0]] == Entry(pairs[j].0, pairs[j].1, None, None)) &&
    (forall k :: k in result ==> next0 <= result[k] < next) &&
    next == next0 + |result|
  }

  /**
   * One more pair whose folded word is already indexed: `addWord` refuses
   * it, and the bookkeeping carries over unchanged.
   */
  lemma RefusedStep(pairs: seq<(string, string)>, i: nat, known: set<string>,
                    wi: map<string, int>, wm: map<int, Entry>, result: map<string, int>, next0: int, next: int)
    requires i < |pairs| && DistinctWords(pairs)
    requires Lower(pairs[i].0) in wi
    requires wi.Keys == SeenKeys(pairs, i, known) && result.Keys == NewWords(pairs, i, known)
    requires StoredSoFar(pairs, i, wm, result, next0, next)
    ensures wi.Keys == SeenKeys(pairs, i + 1, known) && result.Keys == NewWords(pairs, i + 1, known)
    ensures StoredSoFar(pairs, i + 1, wm, result, next0, next)
  {
    NewWordsAre(pairs, i, known, pairs[i].0);
    assert pairs[i].0 !in result;
  }

  /**
   * One more pair whose folded word is new: `addWord` accepts it, so its
   * folded word becomes indexed and the result gains the word.
   */
  lemma AcceptedStep(pairs: seq<(string, string)>, i: nat, known: set<string>,
                     wi: map<string, int>, result: map<string, int>, id: int)
    requires i < |pairs| && DistinctWords(pairs)
    requires Lower(pairs[i].0) !in wi
    requires wi.Keys == SeenKeys(pairs, i, known) && result.Keys == NewWords(pairs, i, known)
    ensures pairs[i].0 !in result
    ensures wi[Lower(pairs[i].0) := id].Keys == SeenKeys(pairs, i + 1, known)
    ensures result[pairs[i].0 := id].Keys == NewWords(pairs, i + 1, known)
  {
    NewWordsAre(pairs, i, known, pairs[i].0);
  }

  /** The accepted pair's entry goes under the counter, which moves on. */
  lemma StoredStep(pairs: seq<(string, string)>, i: nat,
                   wm: map<int, Entry>, result: map<string, int>, next0: int, next: int)
    requires i < |pairs| && DistinctWords(pairs)
    requires pairs[i].0 !in result
    requires StoredSoFar(pairs, i, wm, result, next0, next)
    ensures StoredSoFar(pairs, i + 1, wm[next := Entry(pairs[i].0, pairs[i].1, None, None)],
                        result[pairs[i].0 := next], next0, next + 1)
  {
    var result' := result[pairs[i].0 := next];
    assert |result'| == |result| + 1;
  }

  /** `wm` keeps every entry of `wm0` under the same id. */
  ghost predicate Keeps(wm: map<int, Entry>, wm0: map<int, Entry>)
  {
    forall id :: id in wm0 ==> id in wm && wm[id] == wm0[id]
  }

  /** Adding under an id not in use keeps every entry. */
  lemma KeepsStep(wm: map<int, Entry>, wm0: map<int, Entry>, next: int, e: Entry)
    requires Keeps(wm, wm0) && next !in wm
    ensures Keeps(wm[next := e], wm0)
  {
  }

  /**
   * Where `addAllWords` stands after the first i pairs, having started from
   * a library with keys `known`, entries `wm0` and counter `next0`: the
   * index holds the keys seen, the old entries stay, the result holds the
   * words accepted so far, and their entries and ids are as `StoredSoFar` says.
   */
  ghost predicate AddedAll(pairs: seq<(string, string)>, i: nat, known: set<string>,
                           wm0: map<int, Entry>, next0: int,
                           wm: map<int, Entry>, wi: map<string, int>, next: int, result: map<string, int>)
    requires i <= |pairs|
  {
    wi.Keys == SeenKeys(pairs, i, known) && Keeps(wm, wm0) &&
    result.Keys == NewWords(pairs, i, known) && StoredSoFar(pairs, i, wm, result, next0, next)
  }

  class WordLib {
    var wordMap: map<int, Entry>
    var wordToIdMap: map<string, int>
    var nextId: int

    /** Both indexes agree, and every live id lies below the counter. */
    ghost predicate Valid()
      reads this
    {
      Indexed(wordMap, wordToIdMap) &&
      1 <= nextId &&
      forall id :: id in wordMap ==> 1 <= id < nextId
    }

    /** `WordLib()`: an empty library whose first id will be 1. */
    constructor ()
      ensures Valid()
      ensures wordMap == map[] && wordToIdMap == map[] && nextId == 1
    {
      wordMap := map[];
      wordToIdMap := map[];
      nextId := 1;
    }

    /**
     * `WordLib(initialCapacity)`: the capacity only sizes the hash tables,
     * so the library is the same as the one the plain constructor makes.
     */
    constructor WithCapacity(initialCapacity: int)
      requires initialCapacity >= 0
      ensures Valid()
      ensures wordMap == map[] && wordToIdMap == map[] && nextId == 1
    {
      wordMap := map[];
      wordToIdMap := map[];
      nextId := 1;
    }

    /** `containsWord(word)`: some entry's word equals `word` ignoring case. */
    function ContainsWord(word: string): (r: bool)
      reads this
      requires Valid()
      ensures r <==> exists id :: id in wordMap && SameIgnoringCase(wordMap[id].word, word)
    {
      var found := Lower(word) in wordToIdMap;
      if found then
        var id := wordToIdMap[Lower(word)];
        assert id in wordMap && SameIgnoringCase(wordMap[id].word, word);
        found
      else
        found
    }

    /** `containsId(id)`: the id is live, which is when `getById` finds an entry. */
    function ContainsId(id: int): (r: bool)
      reads this
      requires Valid()
      ensures r <==> GetById(id).Some?
      ensures r ==> 1 <= id < nextId
    {
      id in wordMap
    }

    /** `getById(id)`: the entry under that id, or none (Java's null). */
    function GetById(id: int): (r: Option<Entry>)
      reads this
      requires Valid()
      ensures r.Some? <==> id in wordMap
      ensures r.Some? ==> ContainsWord(r.value.word) && wordToIdMap[Lower(r.value.word)] == id
    {
      if id in wordMap then Some(wordMap[id]) else None
    }

    /** `getByWord(word)`: the entry whose word equals `word` ignoring case, or none. */
    function GetByWord(word: string): (r: Option<Entry>)
      reads this
      requires Valid()
      ensures r.Some? <==> ContainsWord(word)
      ensures r.Some? ==> SameIgnoringCase(r.value.word, word)
      ensures forall id :: id in wordMap && SameIgnoringCase(wordMap[id].word, word) ==>
                r == Some(wordMap[id])
    {
      var key := Lower(word);
      if key in wordToIdMap && wordToIdMap[key] in wordMap then Some(wordMap[wordToIdMap[key]])
      else None
    }

    /** `getMeaning(int id)`: the meaning of the entry under that id, or none. */
    function GetMeaning(id: int): (r: Option<string>)
      reads this
      requires Valid()
      ensures r.Some? <==> ContainsId(id)
      ensures r.Some? ==> r.value == GetById(id).value.meaning
    {
      var item := GetById(id);
      if item.Some? then Some(item.value.meaning) else None
    }

    /** `getMeaning(String word)`: the meaning of the entry found by word, or none. */
    function GetMeaningOf(word: string): (r: Option<string>)
      reads this
      requires Valid()
      ensures r.Some? <==> ContainsWord(word)
      ensures r.Some? ==> r.value == GetByWord(word).value.meaning
    {
      var item := GetByWord(word);
      if item.Some? then Some(item.value.meaning) else None
    }

    /** `size()`: the number of entries, which is also the number of indexed words. */
    function Size(): (n: nat)
      reads this
      requires Valid()
      ensures n == |wordToIdMap|
    {
      IndexedSameSize(wordMap, wordToIdMap);
      |wordMap|
    }

    /** `isEmpty()` */
    function IsEmpty(): (r: bool)
      reads this
      requires Valid()
      ensures r <==> Size() == 0
      ensures r <==> forall w :: !ContainsWord(w)
    {
      if wordMap == map[] then true
      else
        SomeWordPresent();
        false
    }

    /** A non-empty library contains some word. */
    lemma SomeWordPresent()
      requires Valid() && wordMap != map[]
      ensures exists w :: ContainsWord(w)
    {
      var id := SomeId(wordMap);
      assert ContainsWord(wordMap[id].word);
    }

    /** `getAllIds()`: the live ids, all issued by the counter. */
    function GetAllIds(): (r: set<int>)
      reads this
      requires Valid()
      ensures forall id :: id in r <==> ContainsId(id)
      ensures forall id :: id in r ==> 1 <= id < nextId
    {
      wordMap.Keys
    }

    /** `getAllWords()`: the entries; no two of them share a word ignoring case. */
    function GetAllWords(): (r: set<Entry>)
      reads this
      requires Valid()
      ensures forall e :: e in r ==> GetByWord(e.word) == Some(e)
      ensures forall id :: id in wordMap ==> wordMap[id] in r
    {
      wordMap.Values
    }

    /**
     * `addWordItem(item)`: the entry goes under the current counter value,
     * which then moves on by one. The caller has checked that the word is
     * not yet present.
     */
    method AddWordItem(item: Entry) returns (id: int)
      requires Valid()
      requires !ContainsWord(item.word)
      modifies this
      ensures Valid()
      ensures id == old(nextId) && nextId == old(nextId) + 1
      ensures wordMap == old(wordMap)[id := item]
      ensures wordToIdMap == old(wordToIdMap)[Lower(item.word) := id]
    {
      id := nextId;
      nextId := nextId + 1;
      wordMap := wordMap[id := item];
      wordToIdMap := wordToIdMap[Lower(item.word) := id];
    }

    /**
     * `addWord(word, meaning, example, category)`: -1 and no change when the
     * word is present ignoring case; otherwise the new entry gets a fresh id,
     * the old counter value, and the library grows by one.
     */
    method AddWordFull(word: string, meaning: string, example: Option<string>,
                       category: Option<seq<PartOfSpeech>>) returns (id: int)
      requires Valid()
      modifies this
      ensures Valid()
      ensures old(ContainsWord(word)) ==> id == -1 && unchanged(this)
      ensures !old(ContainsWord(word)) ==>
                id == old(nextId) && nextId == old(nextId) + 1 &&
                id !in old(wordMap) &&
                (forall k :: k in old(wordMap) ==> k < id) &&
                wordMap == old(wordMap)[id := Entry(word, meaning, example, category)] &&
                wordToIdMap == old(wordToIdMap)[Lower(word) := id] &&
                Size() == old(Size()) + 1
      ensures ContainsWord(word)
    {
      if ContainsWord(word) {
        return -1;
      }
      id := AddWordItem(Entry(word, meaning, example, category));
      assert Lower(word) in wordToIdMap;
    }

    /** `addWord(word, meaning)`: as above, with no example and no tags. */
    method AddWord(word: string, meaning: string) returns (id: int)
      requires Valid()
      modifies this
      ensures Valid()
      ensures old(ContainsWord(word)) ==> id == -1 && unchanged(this)
      ensures !old(ContainsWord(word)) ==>
                id == old(nextId) && nextId == old(nextId) + 1 &&
                id !in old(wordMap) &&
                wordMap == old(wordMap)[id := Entry(word, meaning, None, None)] &&
                wordToIdMap == old(wordToIdMap)[Lower(word) := id] &&
                Size() == old(Size()) + 1
      ensures ContainsWord(word)
    {
      id := AddWordFull(word, meaning, None, None);
    }

    /**
     * `updateWordItem(id, newItem)`: false and no change when the id is not
     * live or the new word already belongs to another id; otherwise the id
     * now holds the new entry, the old word's key is gone, the new key leads
     * to the id, and every other entry stays.
     */
    method UpdateWordItem(id: int, newItem: Entry) returns (ok: bool)
      requires Valid()
      modifies this
      ensures Valid()
      ensures ok <==> old(id in wordMap) &&
                      !(old(Lower(newItem.word) in wordToIdMap) && old(wordToIdMap[Lower(newItem.word)]) != id)
      ensures !ok ==> unchanged(this)
      ensures ok ==> wordMap == old(wordMap)[id := newItem] &&
                     wordToIdMap == (old(wordToIdMap) - {Lower(old(wordMap[id]).word)})[Lower(newItem.word) := id] &&
                     nextId == old(nextId) &&
                     Size() == old(Size())
    {
      if id !in wordMap {
        return false;
      }
      var key := Lower(newItem.word);
      if key in wordToIdMap && wordToIdMap[key] != id {
        return false;
      }
      var oldItem := wordMap[id];
      wordToIdMap := wordToIdMap - {Lower(oldItem.word)};
      wordMap := wordMap[id := newItem];
      wordToIdMap := wordToIdMap[key := id];
      ok := true;
      assert id in old(wordMap);
      assert old(Size()) == |old(wordMap)|;
    }

    /**
     * `removeById(id)`: the entry that was under the id, now gone from both
     * indexes; none and no change when the id was not live.
     */
    method RemoveById(id: int) returns (removed: Option<Entry>)
      requires Valid()
      modifies this
      ensures Valid()
      ensures removed == old(GetById(id))
      ensures removed.None? ==> unchanged(this)
      ensures removed.Some? ==> wordMap == old(wordMap) - {id} &&
                                wordToIdMap == old(wordToIdMap) - {Lower(removed.value.word)} &&
                                nextId == old(nextId) &&
                                !ContainsId(id) && !ContainsWord(removed.value.word)
    {
      if id in wordMap {
        var item := wordMap[id];
        wordMap := wordMap - {id};
        wordToIdMap := wordToIdMap - {Lower(item.word)};
        removed := Some(item);
      } else {
        removed := None;
      }
    }

    /**
     * `removeByWord(word)`: the entry whose word equals `word` ignoring case,
     * now gone from both indexes; none and no change when there was none.
     */
    method RemoveByWord(word: string) returns (removed: Option<Entry>)
      requires Valid()
      modifies this
      ensures Valid()
      ensures removed == old(GetByWord(word))
      ensures removed.None? ==> unchanged(this)
      ensures removed.Some? ==> wordMap == old(wordMap) - {old(wordToIdMap[Lower(word)])} &&
                                wordToIdMap == old(wordToIdMap) - {Lower(word)} &&
                                nextId == old(nextId)
      ensures !ContainsWord(word)
    {
      var key := Lower(word);
      if key in wordToIdMap {
        var id := wordToIdMap[key];
        wordToIdMap := wordToIdMap - {key};
        if id in wordMap {
          removed := Some(wordMap[id]);
          wordMap := wordMap - {id};
        } else {
          assert false;
          removed := None;
        }
      } else {
        removed := None;
      }
    }

    /**
     * `addAllWords(pairs)`: adds each (word, meaning) pair in turn, in the
     * order the pairs are given. The result maps exactly the words that were
     * new, each the first of its folded word among the pairs, to the fresh id
     * it received; the entries already there stay.
     */
    method AddAllWords(pairs: seq<(string, string)>) returns (result: map<string, int>)
      requires Valid() && DistinctWords(pairs)
      modifies this
      ensures Valid()
      ensures AddedAll(pairs, |pairs|, old(wordToIdMap).Keys, old(wordMap), old(nextId),
                       wordMap, wordToIdMap, nextId, result)
    {
      result := map[];
      var i: nat := 0;
      while i < |pairs|
        invariant i <= |pairs|
        invariant Valid()
        invariant AddedAll(pairs, i, old(wordToIdMap).Keys, old(wordMap), old(nextId),
                           wordMap, wordToIdMap, nextId, result)
      {
        var word, meaning := pairs[i].0, pairs[i].1;
        ghost var wm, wi, next := wordMap, wordToIdMap, nextId;
        var id := AddWord(word, meaning);
        if id != -1 {
          AcceptedStep(pairs, i, old(wordToIdMap).Keys, wi, result, id);
          StoredStep(pairs, i, wm, result, old(nextId), next);
          KeepsStep(wm, old(wordMap), next, Entry(word, meaning, None, None));
          result := result[word := id];
        } else {
          RefusedStep(pairs, i, old(wordToIdMap).Keys, wi, wm, result, old(nextId), next);
        }
        i := i + 1;
      }
    }

    /** `clear()`: both indexes empty and the counter back at 1. */
    method Clear()
      modifies this
      ensures Valid()
      ensures wordMap == map[] && wordToIdMap == map[] && nextId == 1
    {
      wordMap := map[];
      wordToIdMap := map[];
      nextId := 1;
    }

    /**
     * `exportIdToWordMap()`: each live id with its word. The table is
     * filled in whatever order the ids come; the result does not depend on it.
     */
    method ExportIdToWordMap() returns (result: map<int, string>)
      requires Valid()
      ensures result.Keys == GetAllIds()
      ensures forall id :: id in result ==> GetById(id).Some? && result[id] == GetById(id).value.word
    {
      result := map[];
      var rest := wordMap.Keys;
      while rest != {}
        invariant rest <= wordMap.Keys
        invariant result.Keys == wordMap.Keys - rest
        invariant forall id :: id in result ==> result[id] == wordMap[id].word
        decreases |rest|
      {
        if forall id :: id !in rest {
          assert false;
        }
        var id :| id in rest;
        result := result[id := wordMap[id].word];
        rest := rest - {id};
      }
      assert result.Keys == wordMap.Keys;
    }

    /**
     * `exportWordToMeaningMap()`: each entry's word with its meaning. Since
     * no two entries share a word, the order the entries come in does not
     * matter.
     */
    method ExportWordToMeaningMap() returns (result: map<string, string>)
      requires Valid()
      ensures forall id :: id in wordMap ==>
                wordMap[id].word in result && result[wordMap[id].word] == wordMap[id].meaning
      ensures forall w :: w in result ==> GetByWord(w).Some? && GetByWord(w).value.meaning == result[w]
      ensures result.Keys == set id | id in wordMap :: wordMap[id].word
    {
      result := map[];
      var rest := wordMap.Keys;
      while rest != {}
        invariant rest <= wordMap.Keys
        invariant forall id :: id in wordMap && id !in rest ==>
                    wordMap[id].word in result && result[wordMap[id].word] == wordMap[id].meaning
        invariant result.Keys == set id | id in wordMap && id !in rest :: wordMap[id].word
        decreases |rest|
      {
        if forall id :: id !in rest {
          assert false;
        }
        var id :| id in rest;
        var item := wordMap[id];
        result := result[item.word := item.meaning];
        rest := rest - {id};
      }
      forall w | w in result
        ensures GetByWord(w).Some? && GetByWord(w).value.meaning == result[w]
      {
        assert w in set id | id in wordMap :: wordMap[id].word;
        var id :| id in wordMap && wordMap[id].word == w;
        assert SameIgnoringCase(wordMap[id].word, w);
      }
    }
  }
}
