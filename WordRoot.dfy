/**
 * The word root: an ordered list of word items with append, removal,
 * de-duplicating merge, queries by word, keyword and category, and
 * per-category statistics. The list is changed in place.
 */
module WordRoots {
  import opened CaseFold
  import Lists
  import opened Meanings
  import opened WordItems

  /** The meaning objects of a list of items: what the category queries read. */
  ghost function MeaningObjects(items: seq<WordItem>): set<object>
    reads items
  {
    set i, m | i in items && m in i.meanings :: m
  }

  /** Some item's word equals w ignoring case. */
  predicate HasWord(items: seq<WordItem>, w: string)
    reads items
  {
    exists i :: 0 <= i < |items| && SameIgnoringCase(items[i].word, w)
  }

  /** The tests the stream filters and `removeIf` apply to one item. */
  datatype Test =
    | OtherWord(w: string)            // removeWordItem(w) keeps these
    | WordContains(keyword: string)   // search(keyword)
    | InCategory(category: Category)  // getByCategory(category)

  predicate Passes(item: WordItem, t: Test)
    reads item, item.meanings
  {
    match t
    case OtherWord(w) => !SameIgnoringCase(item.word, w)
    case WordContains(k) => Contains(Lower(item.word), Lower(k))
    case InCategory(c) => item.HasCategory(c)
  }

  /** The items that pass the test, in their original order. */
  function Select(items: seq<WordItem>, t: Test): (r: seq<WordItem>)
    reads items, MeaningObjects(items)
    ensures |r| <= |items|
    ensures forall i :: 0 <= i < |r| ==> r[i] in items && Passes(r[i], t)
  {
    if items == [] then []
    else
      var init, x := items[..|items| - 1], items[|items| - 1];
      assert MeaningObjects(init) <= MeaningObjects(items);
      assert forall m :: m in x.meanings ==> m in MeaningObjects(items);
      var rest := Select(init, t);
      if Passes(x, t) then rest + [x] else rest
  }

  /** Select keeps each passing item as often as it occurs and drops every other one. */
  lemma SelectCounts(items: seq<WordItem>, t: Test)
    ensures forall i :: 0 <= i < |items| ==>
              multiset(Select(items, t))[items[i]] ==
                if Passes(items[i], t) then multiset(items)[items[i]] else 0
  {
    forall i | 0 <= i < |items|
      ensures multiset(Select(items, t))[items[i]] ==
                if Passes(items[i], t) then multiset(items)[items[i]] else 0
    {
      SelectCount(items, t, items[i]);
    }
  }

  /** How often one item occurs in the selection. */
  lemma {:induction false} SelectCount(items: seq<WordItem>, t: Test, y: WordItem)
    ensures multiset(Select(items, t))[y] == if Passes(y, t) then multiset(items)[y] else 0
  {
    if items != [] {
      var init: seq<WordItem>, x: WordItem := items[..|items| - 1], items[|items| - 1];
      assert items == init + [x];
      assert multiset(items)[y] == multiset(init)[y] + (if x == y then 1 else 0);
      SelectCount(init, t, y);
    }
  }

  /** Select loses nothing exactly when every item passes. */
  lemma {:induction false} SelectKeepsAll(items: seq<WordItem>, t: Test)
    ensures |Select(items, t)| == |items| <==> forall i :: 0 <= i < |items| ==> Passes(items[i], t)
  {
    if items != [] {
      var init, x := items[..|items| - 1], items[|items| - 1];
      var rest := Select(init, t);
      assert Select(items, t) == if Passes(x, t) then rest + [x] else rest;
      SelectKeepsAll(init, t);
      AllPassSnoc(items, init, t);
    }
  }

  /** Every item passes exactly when every item but the last does and the last does too. */
  lemma AllPassSnoc(items: seq<WordItem>, init: seq<WordItem>, t: Test)
    requires items != [] && init == items[..|items| - 1]
    ensures (forall i :: 0 <= i < |items| ==> Passes(items[i], t)) <==>
              (forall i :: 0 <= i < |init| ==> Passes(init[i], t)) && Passes(items[|items| - 1], t)
  {
    assert forall i :: 0 <= i < |init| ==> init[i] == items[i];
  }

  /** The item at position i passes the test. */
  ghost predicate PassesAt(items: seq<WordItem>, i: int, t: Test)
    requires 0 <= i < |items|
    reads items, MeaningObjects(items)
  {
    assert forall m :: m in items[i].meanings ==> m in MeaningObjects(items);
    Passes(items[i], t)
  }

  /**
   * pos lists, in ascending order, exactly the positions of the items that
   * pass the test.
   */
  ghost predicate PositionsOf(pos: seq<nat>, items: seq<WordItem>, t: Test)
    reads items, MeaningObjects(items)
  {
    (forall k :: 0 <= k < |pos| ==> pos[k] < |items| && PassesAt(items, pos[k], t)) &&
    (forall k, l :: 0 <= k < l < |pos| ==> pos[k] < pos[l]) &&
    (forall i :: 0 <= i < |items| && PassesAt(items, i, t) ==> i in pos)
  }

  /** The positions of the items that pass the test, ascending. */
  ghost function PassingPositions(items: seq<WordItem>, t: Test): (pos: seq<nat>)
    reads items, MeaningObjects(items)
    ensures PositionsOf(pos, items, t)
  {
    if items == [] then []
    else
      var init := items[..|items| - 1];
      assert MeaningObjects(init) <= MeaningObjects(items);
      var pos := PassingPositions(init, t);
      PositionsSnoc(items, init, t, pos);
      pos + (if PassesAt(items, |items| - 1, t) then [|items| - 1] else [])
  }

  /** Adding the last position when its item passes extends the positions of the rest. */
  lemma PositionsSnoc(items: seq<WordItem>, init: seq<WordItem>, t: Test, pos: seq<nat>)
    requires items != [] && init == items[..|items| - 1]
    requires PositionsOf(pos, init, t)
    ensures PositionsOf(pos + (if PassesAt(items, |items| - 1, t) then [|items| - 1] else []), items, t)
  {
    var n := |items| - 1;
    var all := pos + (if PassesAt(items, n, t) then [n] else []);
    forall k | 0 <= k < |all|
      ensures all[k] < |items| && PassesAt(items, all[k], t)
    {
      if k < |pos| {
        PassesAtPrefix(items, init, pos[k], t);
      }
    }
    forall i | 0 <= i < |items| && PassesAt(items, i, t)
      ensures i in all
    {
      if i < n {
        PassesAtPrefix(items, init, i, t);
      }
    }
  }

  /** An item of the list without its last item passes there exactly when it passes in the list. */
  lemma PassesAtPrefix(items: seq<WordItem>, init: seq<WordItem>, i: nat, t: Test)
    requires items != [] && init == items[..|items| - 1] && i < |init|
    ensures PassesAt(init, i, t) <==> PassesAt(items, i, t)
  {
    assert init[i] == items[i];
  }

  /** r lists the items at the passing positions, in the order of the list. */
  ghost predicate KeepsInOrder(r: seq<WordItem>, items: seq<WordItem>, t: Test)
    reads items, MeaningObjects(items)
  {
    var pos := PassingPositions(items, t);
    |r| == |pos| && forall k :: 0 <= k < |r| ==> r[k] == items[pos[k]]
  }

  /** Select is the order-keeping filter: its k-th item is the item at the k-th passing position. */
  lemma {:induction false} SelectInOrder(items: seq<WordItem>, t: Test)
    ensures KeepsInOrder(Select(items, t), items, t)
  {
    if items != [] {
      var init, x := items[..|items| - 1], items[|items| - 1];
      assert MeaningObjects(init) <= MeaningObjects(items);
      SelectInOrder(init, t);
      var passes := Passes(x, t);
      assert Select(items, t) == Select(init, t) + (if passes then [x] else []);
      assert PassingPositions(items, t) == PassingPositions(init, t) + (if passes then [|items| - 1] else []);
      PicksExtend(items, PassingPositions(init, t), Select(init, t), passes);
    }
  }

  /** Picking the last item too, or not, keeps "the k-th pick is the item at the k-th position". */
  lemma PicksExtend(items: seq<WordItem>, pos: seq<nat>, picked: seq<WordItem>, last: bool)
    requires |items| > 0 && |picked| == |pos|
    requires forall k :: 0 <= k < |pos| ==> pos[k] < |items| - 1 && picked[k] == items[..|items| - 1][pos[k]]
    ensures var r := picked + (if last then [items[|items| - 1]] else []);
            var p := pos + (if last then [|items| - 1] else []);
            |r| == |p| && forall k :: 0 <= k < |r| ==> r[k] == items[p[k]]
  {
  }

  /** The words of the items, in order (`map(WordItem::getWord)`). */
  function WordsOf(items: seq<WordItem>): (r: seq<string>)
    reads items
    ensures |r| == |items|
    ensures forall i :: 0 <= i < |items| ==> r[i] == items[i].word
  {
    if items == [] then [] else WordsOf(items[..|items| - 1]) + [items[|items| - 1].word]
  }

  /**
   * What `merge` leaves in the list: acc, then each item of the other list
   * in turn unless an item already in the growing list has the same word
   * ignoring case. The existing items stay as a prefix and everything
   * after them comes from the other list.
   */
  function Merged(acc: seq<WordItem>, items: seq<WordItem>): (r: seq<WordItem>)
    reads acc, items
    ensures |r| >= |acc| && r[..|acc|] == acc
    ensures forall j :: |acc| <= j < |r| ==> r[j] in items
  {
    if items == [] then acc
    else
      var sofar, x := Merged(acc, items[..|items| - 1]), items[|items| - 1];
      assert forall j :: 0 <= j < |sofar| ==> sofar[j] in acc || sofar[j] in items by {
        forall j | 0 <= j < |sofar| ensures sofar[j] in acc || sofar[j] in items {
          if j < |acc| {
            assert sofar[j] == sofar[..|acc|][j];
          } else {
            assert sofar[j] in items[..|items| - 1];
          }
        }
      }
      if HasWord(sofar, x.word) then sofar else sofar + [x]
  }

  /** One more item of the other list is appended exactly when its word is not yet present. */
  lemma MergedStep(acc: seq<WordItem>, items: seq<WordItem>, i: nat)
    requires i < |items|
    ensures Merged(acc, items[..i + 1]) ==
              var sofar := Merged(acc, items[..i]);
              if HasWord(sofar, items[i].word) then sofar else sofar + [items[i]]
  {
    assert items[..i + 1][..i] == items[..i];
  }

  /** After merge, every word of the other root is present ignoring case. */
  lemma {:induction false} MergedCovers(acc: seq<WordItem>, items: seq<WordItem>)
    ensures forall i :: 0 <= i < |items| ==> HasWord(Merged(acc, items), items[i].word)
  {
    if items != [] {
      var init, x := items[..|items| - 1], items[|items| - 1];
      MergedCovers(acc, init);
      var sofar := Merged(acc, init);
      forall i | 0 <= i < |items|
        ensures HasWord(Merged(acc, items), items[i].word)
      {
        if i < |init| {
          assert items[i] == init[i];
          var k :| 0 <= k < |sofar| && SameIgnoringCase(sofar[k].word, items[i].word);
          if !HasWord(sofar, x.word) {
            assert Merged(acc, items)[k] == sofar[k];
          }
        } else if !HasWord(sofar, x.word) {
          assert Merged(acc, items)[|sofar|] == x;
        }
      }
    }
  }

  /**
   * The presence check sees the items appended earlier in the same merge:
   * no appended item shares its word, ignoring case, with any item before it.
   */
  lemma {:induction false} MergedAppendsOnlyNewWords(acc: seq<WordItem>, items: seq<WordItem>)
    ensures forall j :: |acc| <= j < |Merged(acc, items)| ==>
              !HasWord(Merged(acc, items)[..j], Merged(acc, items)[j].word)
  {
    if items != [] {
      var init, x := items[..|items| - 1], items[|items| - 1];
      MergedAppendsOnlyNewWords(acc, init);
      var sofar := Merged(acc, init);
      if !HasWord(sofar, x.word) {
        var r := sofar + [x];
        forall j | |acc| <= j < |r|
          ensures !HasWord(r[..j], r[j].word)
        {
          if j < |sofar| {
            assert r[..j] == sofar[..j];
          } else {
            assert r[..j] == sofar;
          }
        }
      }
    }
  }

  /** Merging a root into itself adds nothing, since each of its words is already present. */
  lemma MergedSelf(items: seq<WordItem>)
    ensures Merged(items, items) == items
  {
    MergedNoNew(items, items);
  }

  lemma {:induction false} MergedNoNew(acc: seq<WordItem>, items: seq<WordItem>)
    requires forall i :: 0 <= i < |items| ==> HasWord(acc, items[i].word)
    ensures Merged(acc, items) == acc
  {
    if items != [] {
      var init := items[..|items| - 1];
      assert forall i :: 0 <= i < |init| ==> init[i] == items[i];
      MergedNoNew(acc, init);
      assert HasWord(acc, items[|items| - 1].word);
    }
  }

  /** The non-null entries of an array, in order (the array constructor's loop). */
  function NonNull(s: seq<WordItem?>): (r: seq<WordItem>)
    ensures |r| <= |s|
    ensures forall i :: 0 <= i < |r| ==> r[i] in s
    ensures forall i :: 0 <= i < |s| && s[i] != null ==> multiset(r)[s[i]] == multiset(s)[s[i]]
    ensures |r| == |s| <==> null !in s
  {
    if s == [] then []
    else
      var init, x := s[..|s| - 1], s[|s| - 1];
      assert s == init + [x];
      if x == null then NonNull(init) else NonNull(init) + [x]
  }

  /** The filter keeps order: the non-null items of a + b are those of a, then those of b. */
  lemma {:induction false} NonNullAppend(a: seq<WordItem?>, b: seq<WordItem?>)
    ensures NonNull(a + b) == NonNull(a) + NonNull(b)
  {
    if b == [] {
      assert a + b == a;
    } else {
      var init, y := b[..|b| - 1], b[|b| - 1];
      assert (a + b)[..|a + b| - 1] == a + init;
      assert (a + b)[|a + b| - 1] == y;
      NonNullAppend(a, init);
    }
  }

  /** The category of every meaning of every item, item by item. */
  function AllCategories(items: seq<WordItem>): (r: seq<Category>)
    reads items, MeaningObjects(items)
  {
    if items == [] then []
    else
      var init, x := items[..|items| - 1], items[|items| - 1];
      assert MeaningObjects(init) <= MeaningObjects(items);
      assert forall m :: m in x.meanings ==> m in MeaningObjects(items);
      AllCategories(init) + CategoryList(x.meanings)
  }

  lemma AllCategoriesStep(items: seq<WordItem>, i: nat)
    requires i < |items|
    ensures AllCategories(items[..i + 1]) == AllCategories(items[..i]) + CategoryList(items[i].meanings)
  {
    assert items[..i + 1][..i] == items[..i];
  }

  lemma CategoryListStep(ms: seq<Meaning>, j: nat)
    requires j < |ms|
    ensures CategoryList(ms[..j + 1]) == CategoryList(ms[..j]) + [ms[j].category]
  {
    assert ms[..j + 1][..j] == ms[..j];
  }

  /** Counting the category of meaning j extends both the categories seen and their tally by it. */
  lemma CountStep(before: seq<Category>, ms: seq<Meaning>, j: nat, c: Category, seen: seq<Category>, stats: map<Category, int>)
    requires j < |ms| && c == ms[j].category
    requires seen == before + CategoryList(ms[..j]) && stats == Tally(seen)
    ensures seen + [c] == before + CategoryList(ms[..j + 1])
    ensures Tally(seen + [c]) == stats[c := (if c in stats then stats[c] else 0) + 1]
  {
    CategoryListStep(ms, j);
    TallyOneMore(seen, c);
  }

  /** removeWordItem(w) leaves no item with that word, and shrinks the list exactly when one was there. */
  lemma SelectOtherWord(items: seq<WordItem>, w: string)
    ensures !HasWord(Select(items, OtherWord(w)), w)
    ensures |Select(items, OtherWord(w))| < |items| <==> HasWord(items, w)
  {
    var r := Select(items, OtherWord(w));
    if HasWord(items, w) {
      var i :| 0 <= i < |items| && SameIgnoringCase(items[i].word, w);
      assert !Passes(items[i], OtherWord(w));
    }
  }

  /**
   * The statistics map after counting cs one category at a time: each
   * category's count goes up by one, or starts at one.
   */
  function Tally(cs: seq<Category>): map<Category, int>
  {
    if cs == [] then map[]
    else
      var counts, c := Tally(cs[..|cs| - 1]), cs[|cs| - 1];
      counts[c := (if c in counts then counts[c] else 0) + 1]
  }

  lemma TallyOneMore(cs: seq<Category>, c: Category)
    ensures Tally(cs + [c]) == Tally(cs)[c := (if c in Tally(cs) then Tally(cs)[c] else 0) + 1]
  {
    assert (cs + [c])[..|cs|] == cs;
  }

  /**
   * What the counting computes: exactly the categories that occur, each with
   * its number of occurrences.
   */
  lemma {:induction false} TallyCounts(counts: map<Category, int>, cs: seq<Category>)
    requires counts == Tally(cs)
    ensures forall c :: c in counts <==> c in cs
    ensures forall c :: c in counts ==> counts[c] == multiset(cs)[c]
  {
    if cs != [] {
      var init, x := cs[..|cs| - 1], cs[|cs| - 1];
      TallyCounts(Tally(init), init);
      assert cs == init + [x];
      assert multiset(cs) == multiset(init) + multiset{x};
      assert x !in init ==> multiset(init)[x] == 0;
    }
  }

  /**
   * The loop of `merge`: each item of the other list in turn is appended
   * unless `containsWord` finds its word among the items so far.
   */
  method AppendNewWords(acc: seq<WordItem>, items: seq<WordItem>) returns (merged: seq<WordItem>)
    ensures merged == Merged(acc, items)
  {
    merged := acc;
    var i: nat := 0;
    while i < |items|
      invariant i <= |items|
      invariant merged == Merged(acc, items[..i])
    {
      var item := items[i];
      MergedStep(acc, items, i);
      if !HasWord(merged, item.word) {
        merged := merged + [item];
      }
      i := i + 1;
    }
    assert items[..i] == items;
  }

  class WordRoot {
    var words: seq<WordItem>

    /** `new WordRoot()` */
    constructor ()
      ensures words == []
    {
      words := [];
    }

    /** `new WordRoot(other)`: a copy of the other root's list; the items are shared. */
    constructor Copy(other: WordRoot)
      ensures words == other.words
    {
      words := other.words;
    }

    /** `new WordRoot(wordItem)`: a null item gives an empty root. */
    constructor Single(item: WordItem?)
      ensures words == if item == null then [] else [item]
    {
      words := if item == null then [] else [item];
    }

    /** `new WordRoot(list)`: a copy of the list. */
    constructor FromList(items: seq<WordItem>)
      ensures words == items
    {
      words := items;
    }

    /** `new WordRoot(array)`: exactly the non-null items, in order; a null array gives an empty root. */
    constructor FromArray(items: array?<WordItem?>)
      ensures items == null ==> words == []
      ensures items != null ==> words == NonNull(items[..])
    {
      var kept: seq<WordItem> := [];
      if items != null {
        var k := 0;
        while k < items.Length
          invariant 0 <= k <= items.Length
          invariant kept == NonNull(items[..k])
        {
          assert items[..k + 1] == items[..k] + [items[k]];
          if items[k] != null {
            kept := kept + [items[k]];
          }
          k := k + 1;
        }
        assert items[..k] == items[..];
      }
      words := kept;
    }

    /** `addWordItem(item)`: appends a non-null item; null is ignored. */
    method AddWordItem(item: WordItem?)
      modifies this
      ensures words == if item == null then old(words) else old(words) + [item]
    {
      if item != null {
        words := words + [item];
      }
    }

    /**
     * `removeWordItem(WordItem)`: drops the first reference to this very
     * item (WordItem does not override equals) and says whether there was one.
     */
    method RemoveWordItem(item: WordItem) returns (removed: bool)
      modifies this
      ensures removed <==> item in old(words)
      ensures words == Lists.RemoveFirst(old(words), item)
    {
      removed := item in words;
      words := Lists.RemoveFirst(words, item);
    }

    /**
     * `removeWordItem(String)`: drops every item whose word equals w ignoring
     * case, keeping the others in order; true iff something was dropped.
     */
    method RemoveWord(w: string) returns (removed: bool)
      modifies this
      ensures removed <==> old(HasWord(words, w))
      ensures words == old(Select(words, OtherWord(w)))
      ensures !HasWord(words, w)
    {
      var kept := Select(words, OtherWord(w));
      SelectOtherWord(words, w);
      removed := |kept| < |words|;
      words := kept;
    }

    /** `getByCategory(category)`: the items that have a meaning of this category, in order. */
    function GetByCategory(category: Category): (r: seq<WordItem>)
      reads this, words, MeaningObjects(words)
      ensures forall i :: 0 <= i < |r| ==> r[i] in words && r[i].HasCategory(category)
      ensures forall i :: 0 <= i < |words| && words[i].HasCategory(category) ==>
                multiset(r)[words[i]] == multiset(words)[words[i]]
      ensures KeepsInOrder(r, words, InCategory(category))
    {
      SelectCounts(words, InCategory(category));
      SelectInOrder(words, InCategory(category));
      Select(words, InCategory(category))
    }

    /** `getAllWords()`: a copy of the list; changing the copy cannot change the root. */
    method GetAllWords() returns (r: seq<WordItem>)
      ensures r == words
    {
      r := words;
    }

    /** `getAllWordStrings()`: the word of each item, in order. */
    function GetAllWordStrings(): (r: seq<string>)
      reads this, words
      ensures |r| == |words|
      ensures forall i :: 0 <= i < |words| ==> r[i] == words[i].word
    {
      WordsOf(words)
    }

    /**
     * `search(keyword)`: the items whose lower-cased word contains the
     * lower-cased keyword, in order, each as often as it occurs.
     */
    function Search(keyword: string): (r: seq<WordItem>)
      reads this, words, MeaningObjects(words)
      ensures forall i :: 0 <= i < |r| ==> r[i] in words && Contains(Lower(r[i].word), Lower(keyword))
      ensures forall i :: 0 <= i < |words| ==>
                multiset(r)[words[i]] ==
                  if Contains(Lower(words[i].word), Lower(keyword)) then multiset(words)[words[i]] else 0
      ensures KeepsInOrder(r, words, WordContains(keyword))
    {
      SelectCounts(words, WordContains(keyword));
      SelectInOrder(words, WordContains(keyword));
      Select(words, WordContains(keyword))
    }

    function Size(): (n: nat)
      reads this
      ensures n == |words|
    {
      |words|
    }

    function IsEmpty(): (r: bool)
      reads this
      ensures r <==> words == []
    {
      |words| == 0
    }

    method Clear()
      modifies this
      ensures words == []
    {
      words := [];
    }

    /** `containsWord(w)`: some item's word equals w ignoring case. */
    function ContainsWord(w: string): (r: bool)
      reads this, words
      ensures r <==> exists i :: 0 <= i < |words| && Lower(words[i].word) == Lower(w)
      ensures r <==> Lower(w) in set i | 0 <= i < |words| :: Lower(words[i].word)
    {
      HasWord(words, w)
    }

    /**
     * `merge(other)`: appends the other root's items in order, skipping any
     * whose word is already present; a null root changes nothing.
     */
    method Merge(other: WordRoot?)
      modifies this
      ensures other == null ==> words == old(words)
      ensures other != null ==> words == old(Merged(words, other.words))
    {
      if other != null {
        words := AppendNewWords(words, other.words);
      }
    }

    /**
     * `getCategoryStatistics()`: counts the category of every meaning of
     * every item; TallyCounts says what the counts are.
     */
    method GetCategoryStatistics() returns (stats: map<Category, int>)
      ensures stats == Tally(AllCategories(words))
    {
      stats := map[];
      ghost var seen: seq<Category> := [];
      var i: nat := 0;
      while i < |words|
        invariant 0 <= i <= |words|
        invariant seen == AllCategories(words[..i])
        invariant stats == Tally(seen)
      {
        var meanings := words[i].meanings;
        ghost var before := seen;
        var j: nat := 0;
        while j < |meanings|
          invariant j <= |meanings|
          invariant before == AllCategories(words[..i]) && meanings == words[i].meanings
          invariant seen == before + CategoryList(meanings[..j])
          invariant stats == Tally(seen)
        {
          var category := meanings[j].category;
          CountStep(before, meanings, j, category, seen, stats);
          stats := stats[category := (if category in stats then stats[category] else 0) + 1];
          seen := seen + [category];
          j := j + 1;
        }
        assert meanings[..j] == meanings;
        AllCategoriesStep(words, i);
        i := i + 1;
      }
      assert words[..i] == words;
    }
  }
}
