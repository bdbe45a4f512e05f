/**
 * The two computations of the start-up code that choose the word-library
 * files: the list of library file names (the `.dat` files of the app's
 * directory, sorted by name) and the library reported as the default when
 * no preference is stored. The directory listing and the stored preference
 * are inputs; logging and the global the list is stored in are left out.
 */
module Initer {
  import opened Wrappers

  /** `name.endsWith(".dat")` */
  predicate EndsWithDat(name: string)
  {
    |name| >= 4 && name[|name| - 4..] == ".dat"
  }

  /** `filter { it.name.endsWith(".dat") }.map { it.name }`, in listing order. */
  function DatNames(listing: seq<string>): (r: seq<string>)
    ensures forall i :: 0 <= i < |r| ==> EndsWithDat(r[i])
    ensures multiset(r) <= multiset(listing)
  {
    if |listing| == 0 then []
    else
      assert listing == listing[..|listing| - 1] + [listing[|listing| - 1]];
      if EndsWithDat(listing[|listing| - 1]) then DatNames(listing[..|listing| - 1]) + [listing[|listing| - 1]]
      else DatNames(listing[..|listing| - 1])
  }

  /** Every `.dat` name of the listing is kept, as many times as it occurs. */
  lemma {:induction false} DatNamesKeepsEveryDat(listing: seq<string>, name: string)
    requires EndsWithDat(name)
    ensures multiset(DatNames(listing))[name] == multiset(listing)[name]
  {
    if |listing| > 0 {
      var init, last := listing[..|listing| - 1], listing[|listing| - 1];
      assert listing == init + [last];
      DatNamesKeepsEveryDat(init, name);
    }
  }

  /** `a.compareTo(b) <= 0` on strings: lexicographic order, a proper prefix first. */
  predicate LexLe(a: string, b: string)
  {
    |a| == 0 || (|b| > 0 && (a[0] < b[0] || (a[0] == b[0] && LexLe(a[1..], b[1..]))))
  }

  lemma {:induction false} LexLeTotal(a: string, b: string)
    ensures LexLe(a, b) || LexLe(b, a)
  {
    if |a| > 0 && |b| > 0 && a[0] == b[0] {
      LexLeTotal(a[1..], b[1..]);
    }
  }

  lemma {:induction false} LexLeTransitive(a: string, b: string, c: string)
    requires LexLe(a, b) && LexLe(b, c)
    ensures LexLe(a, c)
  {
    if |a| > 0 && a[0] == b[0] && b[0] == c[0] {
      LexLeTransitive(a[1..], b[1..], c[1..]);
    }
  }

  lemma {:induction false} LexLeAntisymmetric(a: string, b: string)
    requires LexLe(a, b) && LexLe(b, a)
    ensures a == b
  {
    if |a| > 0 {
      LexLeAntisymmetric(a[1..], b[1..]);
      assert a == [a[0]] + a[1..];
      assert b == [b[0]] + b[1..];
    }
  }

  predicate Sorted(s: seq<string>)
  {
    forall i, j :: 0 <= i < j < |s| ==> LexLe(s[i], s[j])
  }

  /** Puts x into sorted s after the names that come before it. */
  function Insert(x: string, s: seq<string>): (r: seq<string>)
    requires Sorted(s)
    ensures Sorted(r)
    ensures multiset(r) == multiset(s) + multiset{x}
    ensures |r| == |s| + 1
  {
    if |s| == 0 then [x]
    else if LexLe(x, s[0]) then
      LexLeAllAfter(x, s);
      [x] + s
    else
      LexLeTotal(x, s[0]);
      var t := Insert(x, s[1..]);
      assert s == [s[0]] + s[1..];
      InsertKeepsLeast(s[0], x, s[1..], t);
      [s[0]] + t
  }

  /** A name below the head of a sorted list is below all of it. */
  lemma LexLeAllAfter(x: string, s: seq<string>)
    requires Sorted(s) && |s| > 0 && LexLe(x, s[0])
    ensures Sorted([x] + s)
  {
    forall j | 0 < j < |s|
      ensures LexLe(x, s[j])
    {
      LexLeTransitive(x, s[0], s[j]);
    }
  }

  /** A head below both x and the rest stays below the rest with x inserted. */
  lemma InsertKeepsLeast(h: string, x: string, s: seq<string>, t: seq<string>)
    requires Sorted([h] + s) && LexLe(h, x) && Sorted(t)
    requires multiset(t) == multiset(s) + multiset{x}
    ensures Sorted([h] + t)
  {
    forall j | 0 <= j < |t|
      ensures LexLe(h, t[j])
    {
      assert t[j] in multiset(t);
      if t[j] != x {
        assert t[j] in multiset(s);
        assert t[j] in s;
        var k :| 0 <= k < |s| && s[k] == t[j];
        assert ([h] + s)[k + 1] == s[k];
        assert LexLe(([h] + s)[0], ([h] + s)[k + 1]);
      }
    }
  }

  /** `sorted()`: the names in ascending order. */
  function Sort(s: seq<string>): (r: seq<string>)
    ensures Sorted(r)
    ensures multiset(r) == multiset(s)
  {
    if |s| == 0 then []
    else
      assert s == s[..|s| - 1] + [s[|s| - 1]];
      Insert(s[|s| - 1], Sort(s[..|s| - 1]))
  }

  /**
   * Sorting has one answer: two sorted lists holding the same names are the
   * same list, so `Sort` agrees with any other sort of the names.
   */
  lemma {:induction false} SortedPermutationsEqual(a: seq<string>, b: seq<string>)
    requires Sorted(a) && Sorted(b) && multiset(a) == multiset(b)
    ensures a == b
  {
    if |a| > 0 {
      assert |b| == |multiset(b)| == |multiset(a)| > 0;
      HeadIsLeast(a, b[0]);
      HeadIsLeast(b, a[0]);
      LexLeAntisymmetric(a[0], b[0]);
      SortedTail(a);
      SortedTail(b);
      SortedPermutationsEqual(a[1..], b[1..]);
      SameHeadSameTail(a, b);
    }
  }

  lemma SameHeadSameTail(a: seq<string>, b: seq<string>)
    requires |a| > 0 && |b| > 0 && a[0] == b[0] && a[1..] == b[1..]
    ensures a == b
  {
    assert a == [a[0]] + a[1..];
    assert b == [b[0]] + b[1..];
  }

  /** The head of a sorted list comes before every name of it. */
  lemma HeadIsLeast(s: seq<string>, x: string)
    requires Sorted(s) && x in multiset(s)
    ensures LexLe(s[0], x)
  {
    var k :| 0 <= k < |s| && s[k] == x;
    if k == 0 {
      LexLeTotal(x, x);
    }
  }

  /** The tail of a sorted list is sorted and holds the list's names but its head. */
  lemma SortedTail(s: seq<string>)
    requires Sorted(s) && |s| > 0
    ensures Sorted(s[1..])
    ensures multiset(s[1..]) == multiset(s) - multiset{s[0]}
  {
    assert s == [s[0]] + s[1..];
  }

  /**
   * `initWordLibsList`: the `.dat` names of the listing, sorted; an empty
   * list when the directory could not be listed (`listFiles()` gave null).
   */
  function LibraryFileNames(listing: Option<seq<string>>): (names: seq<string>)
    ensures listing.None? ==> names == []
    ensures listing.Some? ==> multiset(names) == multiset(DatNames(listing.value))
    ensures Sorted(names)
    ensures forall i :: 0 <= i < |names| ==> EndsWithDat(names[i])
  {
    match listing
    case None => []
    case Some(files) =>
      var r := Sort(DatNames(files));
      assert forall i :: 0 <= i < |r| ==> r[i] in multiset(DatNames(files));
      r
  }

  /** A name is a library exactly when it is a `.dat` name of the listing, and it occurs as often. */
  lemma LibraryFileNamesAre(files: seq<string>, name: string)
    ensures name in LibraryFileNames(Some(files)) <==> name in files && EndsWithDat(name)
    ensures EndsWithDat(name) ==>
              multiset(LibraryFileNames(Some(files)))[name] == multiset(files)[name]
  {
    var names := LibraryFileNames(Some(files));
    if EndsWithDat(name) {
      DatNamesKeepsEveryDat(files, name);
      assert name in names <==> name in multiset(names);
      assert name in files <==> name in multiset(files);
    }
  }

  /**
   * The library `initPreferences` reports: the stored preference when there
   * is one, otherwise the first library file name, otherwise none.
   */
  function DefaultLibrary(names: seq<string>, preference: Option<string>): (r: Option<string>)
    ensures preference.Some? ==> r == preference
    ensures preference.None? && |names| > 0 ==> r == Some(names[0])
    ensures preference.None? && |names| == 0 ==> r == None
  {
    if preference.Some? then preference
    else if |names| > 0 then Some(names[0])
    else None
  }

  /**
   * With no stored preference, the default is a `.dat` file of the listing
   * that sorts before every other one, and there is a default exactly when
   * the listing holds a `.dat` file.
   */
  lemma DefaultIsLeastLibrary(files: seq<string>)
    ensures DefaultLibrary(LibraryFileNames(Some(files)), None).Some? <==>
              exists i :: 0 <= i < |files| && EndsWithDat(files[i])
    ensures DefaultLibrary(LibraryFileNames(Some(files)), None).Some? ==>
              var d := DefaultLibrary(LibraryFileNames(Some(files)), None).value;
              d in files && EndsWithDat(d) &&
              forall i :: 0 <= i < |files| && EndsWithDat(files[i]) ==> LexLe(d, files[i])
  {
    var names := LibraryFileNames(Some(files));
    if i :| 0 <= i < |files| && EndsWithDat(files[i]) {
      LibraryFileNamesAre(files, files[i]);
    }
    if |names| > 0 {
      LibraryFileNamesAre(files, names[0]);
      forall i | 0 <= i < |files| && EndsWithDat(files[i])
        ensures LexLe(names[0], files[i])
      {
        LibraryFileNamesAre(files, files[i]);
        var k :| 0 <= k < |names| && names[k] == files[i];
        if k > 0 {
          assert LexLe(names[0], names[k]);
        } else {
          LexLeTotal(names[0], names[0]);
        }
      }
    }
  }
}
