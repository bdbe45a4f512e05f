# Word vocabulary store — a Dafny model

This project models the data core of the Word vocabulary application:

- `Meaning` is one sense of a word: a part-of-speech category and a meaning text.
- `WordItem` is a word with a list of meanings and an optional example sentence.
- `WordRoot` is an ordered list of word items with search, per-category
  selection, merging and per-category statistics.
- `WordLib` is the id-keyed word store. It keeps two hash maps that must
  agree: id → entry, and lower-cased word → id. Ids come from a counter that
  only moves forward until the store is cleared.
- The start-up code lists the library files: the `.dat` files of a directory,
  sorted by name. It also reports which library it would use by default
  when no preference is stored.

Modules and files:

| file | module | models |
|---|---|---|
| `Wrappers.dfy` | `Wrappers` | `Option`, which stands for a Java `null` where the code tests for one |
| `CaseFold.dfy` | `CaseFold` | `toLowerCase`, `equalsIgnoreCase` and `String.contains` |
| `Lists.dfy` | `Lists` | list helpers: `List.remove`, `Stream.distinct` and joining with a separator |
| `Meaning.dfy` | `Meanings` | class `Meaning` |
| `WordItem.dfy` | `WordItems` | class `WordItem` |
| `WordRoot.dfy` | `WordRoots` | class `WordRoot` |
| `WordLib.dfy` | `WordLibs` | class `WordLib` and its nested value class `WordItem`, written `Entry` |
| `Initer.dfy` | `Initer` | the file-list pipeline of `initWordLibsList` and the default choice of `initPreferences` |

How the source's form carries over:

- Classes whose fields are updated in place stay classes: `Meaning`, `WordItem`, `WordRoot` and `WordLib`.
- Their `List` and `HashMap` fields become `seq` and `map` fields, which the methods reassign.
- Loops of the source stay `while` loops with invariants. These are:
  - the two `StringBuilder` passes of `WordItem.toString`;
  - the statistics loop;
  - `merge` (in `AppendNewWords`);
  - the array constructor of `WordRoot`;
  - `addAllWords` and the two `export*` loops.
- Each loop is proved against a specification function, and the properties are proved about that function.
- `merge` builds the merged list in a local variable and stores it once at the end. Each duplicate test sees the items appended so far, as the in-place appends of the source do.
- Stream pipelines and the Kotlin start-up code become functions.

`WordLib` has one central invariant, `WordLibs.Indexed`:

- for every id, the lower-cased word of its entry maps back to that id;
- every index entry points to a live id;
- no two keys share an id.

Every `WordLib` method keeps this invariant. The two maps therefore always have the
same size (`WordLibs.IndexedSameSize`).

## Model

| member | source | states |
|---|---|---|
| CaseFold.LowerChar | app/src/main/java/com/Wood/Word/WordLib.java:116 | an upper-case ASCII letter becomes lower case; every other character is kept |
| CaseFold.Lower | app/src/main/java/com/Wood/Word/WordLib.java:116 | the fold keeps the length, folds each character, and leaves no upper-case letter |
| Lists.FirstIndex | app/src/main/java/com/Wood/Word/WordItem.java:58 | the index of the first occurrence: it holds x, and no earlier index does |
| Lists.RemoveFirstCount | app/src/main/java/com/Wood/Word/WordItem.java:89 | `List.remove` takes out exactly one occurrence of x when there is one: the multiset loses one x, and the list is unchanged otherwise |
| Lists.Distinct | app/src/main/java/com/Wood/Word/WordItem.java:58 | `distinct()` keeps exactly the elements of the input and holds no duplicates |
| Lists.DistinctKeepsFirstOccurrenceOrder | app/src/main/java/com/Wood/Word/WordItem.java:56-59 | `distinct()` lists the elements in the order of their first occurrence |
| Meanings.Meaning.constructor | app/src/main/java/com/Wood/Word/Meaning.java:9-12 | the meaning holds the given text and category |
| Meanings.Meaning.Blank | app/src/main/java/com/Wood/Word/Meaning.java:14-17 | the no-argument meaning is UNSPECIFIED with empty text |
| Meanings.Meaning.SetCategory | app/src/main/java/com/Wood/Word/Meaning.java:29-31 | replaces the category and keeps the text |
| Meanings.Meaning.SetMeaningText | app/src/main/java/com/Wood/Word/Meaning.java:33-35 | replaces the text and keeps the category |
| Meanings.Meaning.ToString | app/src/main/java/com/Wood/Word/Meaning.java:37-40 | the category's name, then ": ", then the meaning text, and nothing else |
| Meanings.NameHasNoColon | app/src/main/java/com/Wood/Word/Meaning.java:39 | no category prints with a colon, since enum constant names are Java identifiers |
| Meanings.CategoryNameInjective | app/src/main/java/com/Wood/Word/Meaning.java:39 | two categories print the same exactly when they are the same constant |
| Meanings.Meaning.ToStringSplitsBack | app/src/main/java/com/Wood/Word/Meaning.java:38-40 | the rendered "CATEGORY: text" splits back at its first colon into the category's name and the meaning text |
| WordItems.CategoryList | app/src/main/java/com/Wood/Word/WordItem.java:56-57 | one category per meaning: position i holds meaning i's category |
| WordItems.CategoryListHas | app/src/main/java/com/Wood/Word/WordItem.java:63-66 | a category is listed exactly when some meaning has it |
| WordItems.LayoutReadsBack | app/src/main/java/com/Wood/Word/WordItem.java:98-126 | the text starts with the word; the next character is ' ' exactly when a category list follows (':' otherwise); a shown example closes the text |
| WordItems.JoinedNamesStep | app/src/main/java/com/Wood/Word/WordItem.java:106-109 | one more category name appended after ", " (none before the first) extends the joined names by one |
| WordItems.JoinedMeaningsStep | app/src/main/java/com/Wood/Word/WordItem.java:116-119 | one more meaning appended after "; " (none before the first) extends the joined meanings by one |
| WordItems.AppendJoinedNames | app/src/main/java/com/Wood/Word/WordItem.java:106-109 | the loop appends the category names joined by ", " |
| WordItems.AppendJoinedMeanings | app/src/main/java/com/Wood/Word/WordItem.java:116-119 | the loop appends each meaning's `toString()` ("CATEGORY: text") joined by "; " |
| WordItems.WordItem.constructor | app/src/main/java/com/Wood/Word/WordItem.java:13-17 | the given word, no meanings, an empty example |
| WordItems.WordItem.WithMeaning | app/src/main/java/com/Wood/Word/WordItem.java:19-24 | the given word; the meaning is added only when it is not null |
| WordItems.WordItem.WithExample | app/src/main/java/com/Wood/Word/WordItem.java:26-29 | as above, then the given example, which may be null |
| WordItems.WordItem.WithMeanings | app/src/main/java/com/Wood/Word/WordItem.java:31-35 | a copy of the given list, or no meanings for a null list |
| WordItems.WordItem.GetMeanings | app/src/main/java/com/Wood/Word/WordItem.java:42-44 | returns the meanings in order, as a copy |
| WordItems.WordItem.GetMeaningArray | app/src/main/java/com/Wood/Word/WordItem.java:46-48 | a fresh array holding the meanings in order |
| WordItems.WordItem.Categories | app/src/main/java/com/Wood/Word/WordItem.java:55-60 | exactly the categories some meaning has, each once |
| WordItems.WordItem.CategoriesInFirstOccurrenceOrder | app/src/main/java/com/Wood/Word/WordItem.java:55-60 | the categories come in the order of their first meaning |
| WordItems.WordItem.HasCategory | app/src/main/java/com/Wood/Word/WordItem.java:63-66 | true exactly when the category is among `getCategories()` |
| WordItems.WordItem.SetWord | app/src/main/java/com/Wood/Word/WordItem.java:69-71 | replaces the word; meanings and example unchanged |
| WordItems.WordItem.AddMeaning | app/src/main/java/com/Wood/Word/WordItem.java:73-77 | appends a non-null meaning at the end; a null one changes nothing |
| WordItems.WordItem.SetMeanings | app/src/main/java/com/Wood/Word/WordItem.java:79-81 | replaces the list by a copy of the given one |
| WordItems.WordItem.SetExample | app/src/main/java/com/Wood/Word/WordItem.java:83-85 | replaces the example |
| WordItems.WordItem.RemoveMeaning | app/src/main/java/com/Wood/Word/WordItem.java:88-90 | true exactly when the meaning object was present; its first occurrence is taken out, and the count falls by one exactly then |
| WordItems.WordItem.MeaningCount | app/src/main/java/com/Wood/Word/WordItem.java:93-95 | the number of meanings |
| WordItems.WordItem.ToString | app/src/main/java/com/Wood/Word/WordItem.java:98-126 | the built text is the layout of the word, its categories, each meaning's `toString()` and its example |
| WordRoots.Select | app/src/main/java/com/Wood/Word/WordRoot.java:54-83 | the filter keeps only items of the list that pass the test, and never grows the list |
| WordRoots.SelectCount | app/src/main/java/com/Wood/Word/WordRoot.java:54-83 | an item occurs in the selection as often as in the list when it passes, and not at all otherwise |
| WordRoots.SelectCounts | app/src/main/java/com/Wood/Word/WordRoot.java:54-83 | the same, for every item of the list |
| WordRoots.SelectInOrder | app/src/main/java/com/Wood/Word/WordRoot.java:59-83 | the filter keeps the list's order: its k-th item is the item at the k-th position that passes the test |
| WordRoots.SelectKeepsAll | app/src/main/java/com/Wood/Word/WordRoot.java:55 | the filter loses nothing exactly when every item passes |
| WordRoots.WordsOf | app/src/main/java/com/Wood/Word/WordRoot.java:71-75 | the word of each item, position by position |
| WordRoots.Merged | app/src/main/java/com/Wood/Word/WordRoot.java:101-110 | the old items stay as a prefix, and only items of the other root follow them |
| WordRoots.AppendNewWords | app/src/main/java/com/Wood/Word/WordRoot.java:103-108 | the loop over the other root's items produces `Merged` |
| WordRoots.MergedCovers | app/src/main/java/com/Wood/Word/WordRoot.java:101-110 | every word of the other root is present after merging, ignoring case |
| WordRoots.MergedAppendsOnlyNewWords | app/src/main/java/com/Wood/Word/WordRoot.java:103-107 | each appended item's word was absent, ignoring case, from everything before it |
| WordRoots.MergedSelf | app/src/main/java/com/Wood/Word/WordRoot.java:101-110 | merging a root with its own items changes nothing |
| WordRoots.MergedNoNew | app/src/main/java/com/Wood/Word/WordRoot.java:101-110 | merging items whose words are all present changes nothing |
| WordRoots.NonNull | app/src/main/java/com/Wood/Word/WordRoot.java:33-39 | keeps every non-null item as often as it occurs; the array is kept whole exactly when it holds no null |
| WordRoots.SelectOtherWord | app/src/main/java/com/Wood/Word/WordRoot.java:54-56 | after removing a word, `containsWord` is false for it; the list shrinks exactly when `containsWord` held before |
| WordRoots.TallyCounts | app/src/main/java/com/Wood/Word/WordRoot.java:119-128 | the statistics have a key exactly for each category that occurs, and map it to its number of occurrences |
| WordRoots.WordRoot.constructor | app/src/main/java/com/Wood/Word/WordRoot.java:12-14 | an empty root |
| WordRoots.WordRoot.Copy | app/src/main/java/com/Wood/Word/WordRoot.java:16-18 | the other root's items, in order |
| WordRoots.WordRoot.Single | app/src/main/java/com/Wood/Word/WordRoot.java:20-25 | the one item, or nothing for null |
| WordRoots.WordRoot.FromList | app/src/main/java/com/Wood/Word/WordRoot.java:27-29 | a copy of the list |
| WordRoots.NonNullAppend | app/src/main/java/com/Wood/Word/WordRoot.java:33-39 | the non-null filter keeps the array's order: the non-null items of a + b are those of a followed by those of b |
| WordRoots.WordRoot.FromArray | app/src/main/java/com/Wood/Word/WordRoot.java:31-40 | nothing for a null array, otherwise its non-null items in order |
| WordRoots.WordRoot.AddWordItem | app/src/main/java/com/Wood/Word/WordRoot.java:43-47 | appends a non-null item; null changes nothing |
| WordRoots.WordRoot.RemoveWordItem | app/src/main/java/com/Wood/Word/WordRoot.java:50-52 | true exactly when the item object was present; its first occurrence is taken out |
| WordRoots.WordRoot.RemoveWord | app/src/main/java/com/Wood/Word/WordRoot.java:54-56 | removes every item whose word equals w ignoring case, keeps the rest in order, and returns whether any was removed |
| WordRoots.WordRoot.GetByCategory | app/src/main/java/com/Wood/Word/WordRoot.java:59-63 | exactly the items having the category, each as often as it occurs, in the list's order |
| WordRoots.WordRoot.GetAllWords | app/src/main/java/com/Wood/Word/WordRoot.java:66-68 | all items in order |
| WordRoots.WordRoot.GetAllWordStrings | app/src/main/java/com/Wood/Word/WordRoot.java:71-75 | the word of each item, position by position |
| WordRoots.WordRoot.Search | app/src/main/java/com/Wood/Word/WordRoot.java:78-83 | exactly the items whose lower-cased word contains the lower-cased keyword, each as often as it occurs, in the list's order |
| WordRoots.WordRoot.Size | app/src/main/java/com/Wood/Word/WordRoot.java:86-88 | the number of items |
| WordRoots.WordRoot.IsEmpty | app/src/main/java/com/Wood/Word/WordRoot.java:91-93 | true exactly when there are no items |
| WordRoots.WordRoot.Clear | app/src/main/java/com/Wood/Word/WordRoot.java:96-98 | no items remain |
| WordRoots.WordRoot.ContainsWord | app/src/main/java/com/Wood/Word/WordRoot.java:113-116 | true exactly when some item's word equals the word ignoring case, i.e. its lower-cased form is among the items' lower-cased words |
| WordRoots.WordRoot.Merge | app/src/main/java/com/Wood/Word/WordRoot.java:101-110 | the list becomes `Merged` of the old items and the other root's; null changes nothing |
| WordRoots.WordRoot.GetCategoryStatistics | app/src/main/java/com/Wood/Word/WordRoot.java:119-128 | the nested loops produce the tally of all meanings' categories, whose counts `TallyCounts` states |
| WordLibs.IndexedKey | app/src/main/java/com/Wood/Word/WordLib.java:64-65 | every index key leads to a live entry whose lower-cased word is that key |
| WordLibs.IndexedSameSize | app/src/main/java/com/Wood/Word/WordLib.java:64-65 | the two maps always have the same size |
| WordLibs.SeenKeysAre | app/src/main/java/com/Wood/Word/WordLib.java:231-240 | after some pairs, the index keys are the old ones plus the lower-cased words of those pairs |
| WordLibs.NewWordsSeen | app/src/main/java/com/Wood/Word/WordLib.java:233-236 | every word `addAllWords` accepts was not indexed before and is indexed afterwards |
| WordLibs.NewWordsAre | app/src/main/java/com/Wood/Word/WordLib.java:231-240 | a word is in the result exactly when it is the first pair of its lower-cased word and that key was not already indexed |
| WordLibs.RefusedStep | app/src/main/java/com/Wood/Word/WordLib.java:234-237 | a pair whose key is indexed leaves the result and the counter as they were |
| WordLibs.AcceptedStep | app/src/main/java/com/Wood/Word/WordLib.java:234-237 | a pair whose key is new enters both the index and the result |
| WordLibs.WordLib.constructor | app/src/main/java/com/Wood/Word/WordLib.java:64-73 | an empty store whose first id is 1 |
| WordLibs.WordLib.WithCapacity | app/src/main/java/com/Wood/Word/WordLib.java:75-78 | the same; the capacity changes nothing observable |
| WordLibs.WordLib.ContainsWord | app/src/main/java/com/Wood/Word/WordLib.java:200-202 | true exactly when some entry's word equals the word ignoring case |
| WordLibs.WordLib.ContainsId | app/src/main/java/com/Wood/Word/WordLib.java:196-198 | true exactly when `getById` finds the id; live ids lie in [1, nextId) |
| WordLibs.WordLib.GetById | app/src/main/java/com/Wood/Word/WordLib.java:123-125 | an entry exactly for a live id, and the index maps its word back to the id |
| WordLibs.WordLib.GetByWord | app/src/main/java/com/Wood/Word/WordLib.java:130-133 | an entry exactly when the word is present in any casing; that entry is the one whose word matches |
| WordLibs.WordLib.GetMeaning | app/src/main/java/com/Wood/Word/WordLib.java:138-141 | the meaning of the id's entry; with meanings non-null, as the model takes them, null exactly for an absent id |
| WordLibs.WordLib.GetMeaningOf | app/src/main/java/com/Wood/Word/WordLib.java:146-149 | the meaning of the word's entry; with meanings non-null, as the model takes them, null exactly for an absent word |
| WordLibs.WordLib.Size | app/src/main/java/com/Wood/Word/WordLib.java:204-206 | the number of entries in the index, which equals the number of ids |
| WordLibs.WordLib.IsEmpty | app/src/main/java/com/Wood/Word/WordLib.java:208-210 | true exactly when the size is 0, exactly when no word is contained |
| WordLibs.WordLib.SomeWordPresent | app/src/main/java/com/Wood/Word/WordLib.java:200-210 | a non-empty store contains some word |
| WordLibs.WordLib.GetAllIds | app/src/main/java/com/Wood/Word/WordLib.java:222-224 | exactly the ids `containsId` accepts, all below the counter |
| WordLibs.WordLib.GetAllWords | app/src/main/java/com/Wood/Word/WordLib.java:215-217 | every stored entry, and each one is what `getByWord` finds for its word |
| WordLibs.WordLib.AddWordItem | app/src/main/java/com/Wood/Word/WordLib.java:113-118 | stores the entry under the old counter, indexes its lower-cased word, and bumps the counter by one |
| WordLibs.WordLib.AddWordFull | app/src/main/java/com/Wood/Word/WordLib.java:100-107 | -1 and nothing changed when the word is present in any casing; otherwise a fresh id, above every old id, with the entry stored and the size grown by one |
| WordLibs.WordLib.AddWord | app/src/main/java/com/Wood/Word/WordLib.java:86-94 | the same, for an entry with no example and no category |
| WordLibs.WordLib.UpdateWordItem | app/src/main/java/com/Wood/Word/WordLib.java:154-173 | false and nothing changed exactly when the id is absent or the new key belongs to another id; otherwise the id holds the new entry, the old key is dropped, the new key points at the id, and the size is kept |
| WordLibs.WordLib.RemoveById | app/src/main/java/com/Wood/Word/WordLib.java:178-184 | returns what `getById` found; on success both mappings go, otherwise nothing changes |
| WordLibs.WordLib.RemoveByWord | app/src/main/java/com/Wood/Word/WordLib.java:189-192 | returns what `getByWord` found; both mappings go and the word is absent afterwards |
| WordLibs.WordLib.AddAllWords | app/src/main/java/com/Wood/Word/WordLib.java:231-240 | each pair is added in turn: the result maps exactly the accepted words (`NewWordsAre`) to fresh ids holding their meanings, old entries stay, and the index gains their keys |
| WordLibs.WordLib.Clear | app/src/main/java/com/Wood/Word/WordLib.java:245-249 | both maps empty, counter back to 1 |
| WordLibs.WordLib.ExportIdToWordMap | app/src/main/java/com/Wood/Word/WordLib.java:254-260 | keys are exactly the live ids, each mapped to its entry's word |
| WordLibs.WordLib.ExportWordToMeaningMap | app/src/main/java/com/Wood/Word/WordLib.java:265-271 | the keys are exactly the stored words; each key's value is the meaning that `getByWord` finds for it |
| Initer.DatNames | app/src/main/java/com/Wood/Word/Initer.kt:26-27 | only names ending in ".dat" are kept, drawn from the listing |
| Initer.DatNamesKeepsEveryDat | app/src/main/java/com/Wood/Word/Initer.kt:26-27 | every ".dat" name is kept as often as it occurs, suffix included |
| Initer.LexLeTotal | app/src/main/java/com/Wood/Word/Initer.kt:28 | any two names compare one way or the other |
| Initer.LexLeTransitive | app/src/main/java/com/Wood/Word/Initer.kt:28 | the name order is transitive |
| Initer.LexLeAntisymmetric | app/src/main/java/com/Wood/Word/Initer.kt:28 | names that compare both ways are equal |
| Initer.Insert | app/src/main/java/com/Wood/Word/Initer.kt:28 | inserting into a sorted list keeps it sorted and adds exactly that name |
| Initer.Sort | app/src/main/java/com/Wood/Word/Initer.kt:28 | `sorted()` gives an ascending permutation of its input |
| Initer.HeadIsLeast | app/src/main/java/com/Wood/Word/Initer.kt:28 | the first name of a sorted list comes before every name of it |
| Initer.SortedTail | app/src/main/java/com/Wood/Word/Initer.kt:28 | the tail of a sorted list is sorted and holds all its names but the head |
| Initer.SortedPermutationsEqual | app/src/main/java/com/Wood/Word/Initer.kt:28 | two ascending lists of the same names are equal, so any correct sort agrees with `Sort` |
| Initer.LibraryFileNames | app/src/main/java/com/Wood/Word/Initer.kt:24-32 | a null listing gives an empty list; otherwise the ".dat" names in ascending order, a permutation of the filtered listing |
| Initer.LibraryFileNamesAre | app/src/main/java/com/Wood/Word/Initer.kt:25-31 | a name is a library exactly when it is a ".dat" name of the listing, and it occurs as often |
| Initer.DefaultLibrary | app/src/main/java/com/Wood/Word/Initer.kt:57-63 | the stored preference when present, otherwise element 0 of a non-empty list, otherwise none |
| Initer.DefaultIsLeastLibrary | app/src/main/java/com/Wood/Word/Initer.kt:59-63 | with no preference, there is a default exactly when the listing has a ".dat" file, and it is a ".dat" file that sorts before every other one |

## Left out

- Java `null` is modelled only where the code tests for it: meanings, items, arrays and lists passed to constructors and adders, `merge`'s argument, the directory listing and the stored preference. Everywhere else words, meaning texts, categories and `Entry.meaning` are non-null strings and values in the model. The source does accept some nulls without throwing, and the model does not capture these cases:
  - `WordLib.addWord(word, null)` stores the entry, so `getMeaning` and `getMeaning(String)` then return null for a live id or word. In the model a `None` meaning means the id or word is absent.
  - `WordRoot.containsWord(null)` returns false, and `WordRoot.removeWordItem((String) null)` removes nothing and returns false, because `equalsIgnoreCase(null)` is false.
  - `WordItem.removeMeaning(null)` and `WordRoot.removeWordItem((WordItem) null)` return false and change nothing. The model's `RemoveMeaning` and `RemoveWordItem` take non-null arguments.
  - Other null words or meaning texts either throw (`toLowerCase` on null) or print "null".
- Case folding is ASCII-only. Java's `toLowerCase` and `equalsIgnoreCase` depend on the locale and on Unicode case tables.
- Strings compare by Dafny's `char`, which is a Unicode scalar value. Kotlin's `compareTo` compares UTF-16 code units, and the two orders differ only for characters outside the Basic Multilingual Plane.
- WordLibs.WordLib.AddWordItem: `nextId` is an unbounded integer. The 32-bit wrap-around after 2^31 - 1 additions is not modelled.
- WordLibs.WordLib.AddAllWords: the argument is a `Map<String, String>`, whose iteration order is `HashMap` order. The model takes the pairs as a sequence in whatever order that is, and requires distinct words, as a map's keys are.
- WordLibs.WordLib.WithCapacity: a negative capacity makes `HashMap` throw. The model requires a non-negative one instead.
- `WordLib.WordItem` (the nested class) is the value `Entry`. Its setters and getters are not modelled. So is the aliasing through which a caller could change a stored item's word behind the index.
- WordLibs.WordLib.GetAllIds and WordLibs.WordLib.GetAllWords: Java returns live views of `wordMap` (`keySet()` and `values()`). Removing through a view (`remove`, `removeIf`, `retainAll`, `clear`, `Iterator.remove`) deletes from `wordMap` but not from `wordToIdMap`, which breaks the two-map invariant. For example, after `getAllIds().remove(1)` for a stored "apple", `containsWord("apple")` stays true while `getByWord("apple")` is null. The model returns snapshots instead, so this aliasing is not captured. The snapshots are sets, because their `HashMap` order is unspecified; for the same reason the exports are loops over a set of keys.
- `WordLib.printAll` and `WordLib.formatAllWords` are console output and `String.format` padding. The nested `WordLib.WordItem.toString` prints an array reference, which is JVM identity text.
- `WordRoot.toString` is a display listing built from `WordItem.toString`, which is modelled. The numbered-line wrapper around it is not modelled.
- `WordRoot.toWordLib` passes a `Meaning` where `addWord` takes a `String`, so it does not type-check as written. It is not modelled.
- The `Category` enum's source is not part of this model. Only its constant `UNSPECIFIED` is known; every other constant is a `Named` value whose name is an ASCII Java identifier other than `UNSPECIFIED`. Identifiers with non-ASCII letters are not modelled. The model assumes the enum keeps Java's default `toString`, which returns the constant's name. `CategoryName` rests on this, and so do `Meaning.ToString`, `Layout`, `NameHasNoColon` and `ToStringSplitsBack`. An enum that overrides `toString` would print differently.
- The getters of `Meaning`, `WordItem` and `WordRoot` are field reads of the classes. `WordItem.getWord` and `getExample` are plain reads and have no member of their own.
- `Initer.initWordLibs` and `loadWordLibs` (which only logs) are not modelled. The same holds for the Android plumbing: `filesDir.listFiles()`, `SharedPreferences`, `Log.d`, and the assignment of the list to `StaticValue.WordLibsName`. The listing and the preference are inputs instead.
- `File.kt` (Android file reading and writing), `StaticValue.java`, and the Compose user interface in `MainActivity.kt`, `CreateActuvuty.kt` and `ui/theme/Theme.kt` are not part of this model.
