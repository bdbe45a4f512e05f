/**
 * A vocabulary entry of the word root: the word, an optional example
 * sentence and an ordered list of meanings. The list and the fields are
 * changed in place, so an item is an object; it holds references to
 * Meaning objects, which it shares with whoever else holds them.
 */
module WordItems {
  import opened Wrappers
  import opened Lists
  import opened Meanings

  /** The category of each meaning, in list order (`map(Meaning::getCategory)`). */
  function CategoryList(ms: seq<Meaning>): (r: seq<Category>)
    reads ms
    ensures |r| == |ms|
    ensures forall i :: 0 <= i < |ms| ==> r[i] == ms[i].category
  {
    if ms == [] then [] else CategoryList(ms[..|ms| - 1]) + [ms[|ms| - 1].category]
  }

  /** A category is in the list exactly when some meaning has it. */
  lemma {:induction false} CategoryListHas(ms: seq<Meaning>, c: Category)
    ensures c in CategoryList(ms) <==> exists i :: 0 <= i < |ms| && ms[i].category == c
  {
    if ms != [] {
      var init := ms[..|ms| - 1];
      CategoryListHas(init, c);
      if c in CategoryList(init) {
        var i :| 0 <= i < |init| && init[i].category == c;
        assert ms[i] == init[i];
      }
      if i :| 0 <= i < |ms| && ms[i].category == c {
        if i < |init| {
          assert init[i] == ms[i];
        }
      }
    }
  }

  /** Each meaning rendered by its `toString()`, in list order. */
  function MeaningStrings(ms: seq<Meaning>): (r: seq<string>)
    reads ms
    ensures |r| == |ms|
  {
    if ms == [] then [] else MeaningStrings(ms[..|ms| - 1]) + [ms[|ms| - 1].ToString()]
  }

  /** The enum names of a list of categories. */
  function CategoryNames(cs: seq<Category>): (r: seq<string>)
    ensures |r| == |cs|
  {
    if cs == [] then [] else CategoryNames(cs[..|cs| - 1]) + [CategoryName(cs[|cs| - 1])]
  }

  lemma {:induction false} CategoryNameAt(cs: seq<Category>, i: nat)
    requires i < |cs|
    ensures CategoryNames(cs)[i] == CategoryName(cs[i])
  {
    if i < |cs| - 1 {
      CategoryNameAt(cs[..|cs| - 1], i);
    }
  }

  lemma {:induction false} MeaningStringAt(ms: seq<Meaning>, i: nat)
    requires i < |ms|
    ensures MeaningStrings(ms)[i] == ms[i].ToString()
  {
    if i < |ms| - 1 {
      MeaningStringAt(ms[..|ms| - 1], i);
    }
  }

  /** The example is shown only when it is non-null and non-empty. */
  predicate ShowsExample(example: Option<string>)
  {
    example.Some? && example.value != ""
  }

  /**
   * The layout of `WordItem.toString()`: the word; then " [" + the category
   * names joined by ", " + "]" when there are categories; then ": "; then
   * the meanings joined by "; "; then " 例: " + the example when it is shown.
   */
  function Layout(word: string, cats: seq<Category>, meaningTexts: seq<string>, example: Option<string>): string
  {
    var withCategories :=
      if cats == [] then word else word + " [" + Join(CategoryNames(cats), ", ") + "]";
    var withMeanings := withCategories + ": " + Join(meaningTexts, "; ");
    if ShowsExample(example) then withMeanings + " 例: " + example.value else withMeanings
  }

  /**
   * The layout can be read off the text: it starts with the word, the next
   * character says whether a category list follows, and a shown example
   * closes the text.
   */
  lemma LayoutReadsBack(word: string, cats: seq<Category>, meaningTexts: seq<string>, example: Option<string>)
    ensures var s := Layout(word, cats, meaningTexts, example);
            |s| > |word| && s[..|word|] == word &&
            s[|word|] == (if cats == [] then ':' else ' ')
    ensures ShowsExample(example) ==>
              var s, tail := Layout(word, cats, meaningTexts, example), " 例: " + example.value;
              |s| >= |tail| && s[|s| - |tail|..] == tail
  {
    var withCategories :=
      if cats == [] then word else word + " [" + Join(CategoryNames(cats), ", ") + "]";
    var withMeanings := withCategories + ": " + Join(meaningTexts, "; ");
    assert withMeanings == word + ((if cats == [] then "" else " [" + Join(CategoryNames(cats), ", ") + "]")
                                   + ": " + Join(meaningTexts, "; "));
  }

  /** The three stages of the text add up to the layout. */
  lemma LayoutSteps(word: string, cats: seq<Category>, meaningTexts: seq<string>, example: Option<string>,
                    withCategories: string, withMeanings: string, s: string)
    requires withCategories == if cats == [] then word else word + " [" + Join(CategoryNames(cats), ", ") + "]"
    requires withMeanings == withCategories + ": " + Join(meaningTexts, "; ")
    requires s == if ShowsExample(example) then withMeanings + " 例: " + example.value else withMeanings
    ensures s == Layout(word, cats, meaningTexts, example)
  {
  }

  /** One more category name appended, after ", " unless it is the first. */
  lemma JoinedNamesStep(head: string, categories: seq<Category>, i: nat, s: string)
    requires i < |categories|
    requires s == head + Join(CategoryNames(categories)[..i], ", ")
    ensures (if i > 0 then s + ", " else s) + CategoryName(categories[i]) ==
              head + Join(CategoryNames(categories)[..i + 1], ", ")
  {
    var names := CategoryNames(categories);
    CategoryNameAt(categories, i);
    JoinStep(names, ", ", i);
    AppendStep(head, Join(names[..i], ", "), ", ", names[i], i > 0);
  }

  /** Appending the separator (when asked) and then x to head + joined. */
  lemma AppendStep(head: string, joined: string, sep: string, x: string, more: bool)
    ensures (if more then head + joined + sep else head + joined) + x ==
              head + (joined + (if more then sep else "") + x)
  {
  }

  /** The loop of `toString()` that appends the category names separated by ", ". */
  method AppendJoinedNames(head: string, categories: seq<Category>) returns (s: string)
    ensures s == head + Join(CategoryNames(categories), ", ")
  {
    ghost var names := CategoryNames(categories);
    s := head;
    var i: nat := 0;
    while i < |categories|
      invariant 0 <= i <= |categories|
      invariant s == head + Join(names[..i], ", ")
    {
      JoinedNamesStep(head, categories, i, s);
      if i > 0 {
        s := s + ", ";
      }
      s := s + CategoryName(categories[i]);
      i := i + 1;
    }
    assert names[..i] == names;
  }

  /** One more meaning appended, after "; " unless it is the first. */
  lemma JoinedMeaningsStep(head: string, meanings: seq<Meaning>, j: nat, s: string)
    requires j < |meanings|
    requires s == head + Join(MeaningStrings(meanings)[..j], "; ")
    ensures (if j > 0 then s + "; " else s) + meanings[j].ToString() ==
              head + Join(MeaningStrings(meanings)[..j + 1], "; ")
  {
    var texts := MeaningStrings(meanings);
    MeaningStringAt(meanings, j);
    JoinStep(texts, "; ", j);
    AppendStep(head, Join(texts[..j], "; "), "; ", texts[j], j > 0);
  }

  /** The loop of `toString()` that appends each meaning's `toString()` ("CATEGORY: text") separated by "; ". */
  method AppendJoinedMeanings(head: string, meanings: seq<Meaning>) returns (s: string)
    ensures s == head + Join(MeaningStrings(meanings), "; ")
  {
    ghost var texts := MeaningStrings(meanings);
    s := head;
    var j := 0;
    while j < |meanings|
      invariant 0 <= j <= |meanings|
      invariant s == head + Join(texts[..j], "; ")
    {
      JoinedMeaningsStep(head, meanings, j, s);
      if j > 0 {
        s := s + "; ";
      }
      s := s + meanings[j].ToString();
      j := j + 1;
    }
    assert texts[..j] == texts;
  }

  class WordItem {
    var word: string
    var example: Option<string>
    var meanings: seq<Meaning>

    /** `new WordItem(word)` */
    constructor (word: string)
      ensures this.word == word && meanings == [] && example == Some("")
    {
      this.word := word;
      meanings := [];
      example := Some("");
    }

    /** `new WordItem(word, meaning)`: a null meaning is ignored. */
    constructor WithMeaning(word: string, meaning: Meaning?)
      ensures this.word == word && example == Some("")
      ensures meanings == if meaning == null then [] else [meaning]
    {
      this.word := word;
      meanings := if meaning == null then [] else [meaning];
      example := Some("");
    }

    /** `new WordItem(word, meaning, example)` */
    constructor WithExample(word: string, meaning: Meaning?, example: Option<string>)
      ensures this.word == word && this.example == example
      ensures meanings == if meaning == null then [] else [meaning]
    {
      this.word := word;
      meanings := if meaning == null then [] else [meaning];
      this.example := example;
    }

    /** `new WordItem(word, meanings)`: copies the list; a null list gives no meanings. */
    constructor WithMeanings(word: string, meanings: Option<seq<Meaning>>)
      ensures this.word == word && example == Some("")
      ensures this.meanings == if meanings.None? then [] else meanings.value
    {
      this.word := word;
      this.meanings := if meanings.None? then [] else meanings.value;
      example := Some("");
    }

    /**
     * `getMeanings()`: a copy of the list. The copy is a value, so changing
     * it cannot change this item; the Meaning objects in it are shared.
     */
    method GetMeanings() returns (r: seq<Meaning>)
      ensures r == meanings
    {
      r := meanings;
    }

    /** `getMeaningArray()`: a fresh array holding the meanings in order. */
    method GetMeaningArray() returns (a: array<Meaning>)
      ensures fresh(a) && a[..] == meanings
    {
      a := new Meaning[|meanings|](i requires 0 <= i < |meanings| reads this => meanings[i]);
    }

    /** `getCategories()`: each category that some meaning has, once, in first-occurrence order. */
    function Categories(): (r: seq<Category>)
      reads this, meanings
      ensures forall c :: c in r <==> c in CategoryList(meanings)
      ensures NoDuplicates(r)
    {
      Distinct(CategoryList(meanings))
    }

    /** getCategories lists the categories in the order of their first meaning. */
    lemma CategoriesInFirstOccurrenceOrder()
      ensures forall i, j :: 0 <= i < j < |Categories()| ==>
                FirstIndex(CategoryList(meanings), Categories()[i]) <
                FirstIndex(CategoryList(meanings), Categories()[j])
    {
      DistinctKeepsFirstOccurrenceOrder(CategoryList(meanings));
    }

    /** `hasCategory(category)`: some meaning has this category. */
    function HasCategory(category: Category): (r: bool)
      reads this, meanings
      ensures r <==> category in Categories()
    {
      CategoryListHas(meanings, category);
      exists i :: 0 <= i < |meanings| && meanings[i].category == category
    }

    method SetWord(word: string)
      modifies this
      ensures this.word == word && meanings == old(meanings) && example == old(example)
    {
      this.word := word;
    }

    /** `addMeaning(meaning)`: appends a non-null meaning; null is ignored. */
    method AddMeaning(meaning: Meaning?)
      modifies this
      ensures meanings == if meaning == null then old(meanings) else old(meanings) + [meaning]
      ensures |meanings| == |old(meanings)| + (if meaning == null then 0 else 1)
      ensures word == old(word) && example == old(example)
    {
      if meaning != null {
        meanings := meanings + [meaning];
      }
    }

    /** `setMeanings(meanings)`: stores a copy of the list. */
    method SetMeanings(meanings: seq<Meaning>)
      modifies this
      ensures this.meanings == meanings && word == old(word) && example == old(example)
    {
      this.meanings := meanings;
    }

    method SetExample(example: Option<string>)
      modifies this
      ensures this.example == example && word == old(word) && meanings == old(meanings)
    {
      this.example := example;
    }

    /**
     * `removeMeaning(meaning)`: drops the first reference to this very
     * object (Meaning does not override equals) and says whether there was one.
     */
    method RemoveMeaning(meaning: Meaning) returns (removed: bool)
      modifies this
      ensures removed <==> meaning in old(meanings)
      ensures meanings == RemoveFirst(old(meanings), meaning)
      ensures |meanings| == |old(meanings)| - (if removed then 1 else 0)
      ensures word == old(word) && example == old(example)
    {
      removed := meaning in meanings;
      RemoveFirstCount(meanings, meaning);
      meanings := RemoveFirst(meanings, meaning);
    }

    /** `getMeaningCount()` */
    function MeaningCount(): (n: nat)
      reads this
      ensures n == |meanings|
    {
      |meanings|
    }

    /** `toString()`: the StringBuilder pass over categories, then over meanings. */
    method ToString() returns (s: string)
      ensures s == Layout(word, Categories(), MeaningStrings(meanings), example)
    {
      var categories := Categories();
      ghost var listed := CategoryList(meanings);
      s := word;
      if |categories| > 0 {
        s := s + " [";
        s := AppendJoinedNames(s, categories);
        s := s + "]";
      }
      ghost var withCategories := s;
      s := s + ": ";
      s := AppendJoinedMeanings(s, meanings);
      ghost var withMeanings := s;
      if ShowsExample(example) {
        s := s + " 例: " + example.value;
      }
      assert CategoryList(meanings) == listed;
      assert categories == Categories();
      LayoutSteps(word, categories, MeaningStrings(meanings), example, withCategories, withMeanings, s);
    }
  }
}
