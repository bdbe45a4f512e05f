/**
 * One sense of a word: a part-of-speech category and the text of the
 * meaning. Both fields are overwritten in place by setters, so a meaning
 * is an object; lists of meanings hold references to it.
 */
module Meanings {
  import opened Wrappers

  /** A character that may start a Java identifier (ASCII letters, `_` and `$`). */
  predicate IdentifierStart(c: char)
  {
    'A' <= c <= 'Z' || 'a' <= c <= 'z' || c == '_' || c == '$'
  }

  /** A character that may continue a Java identifier. */
  predicate IdentifierPart(c: char)
  {
    IdentifierStart(c) || '0' <= c <= '9'
  }

  /** The name of an enum constant other than UNSPECIFIED: a Java identifier. */
  predicate IsConstantName(n: string)
  {
    |n| > 0 && n != "UNSPECIFIED" && IdentifierStart(n[0]) &&
    forall i :: 0 < i < |n| ==> IdentifierPart(n[i])
  }

  type ConstantName = n: string | IsConstantName(n) witness "NOUN"

  /**
   * The application's part-of-speech enum. Only its constant UNSPECIFIED is
   * known; every other constant is represented by its name.
   */
  datatype Category = Unspecified | Named(constantName: ConstantName)

  /** The text Java prints for an enum constant: its name. */
  function CategoryName(c: Category): string
  {
    match c
    case Unspecified => "UNSPECIFIED"
    case Named(n) => n
  }

  /** No constant's name holds a colon. */
  lemma NameHasNoColon(c: Category)
    ensures ':' !in CategoryName(c)
  {
    var n := CategoryName(c);
    forall i | 0 <= i < |n|
      ensures n[i] != ':'
    {
      if c.Named? && i > 0 {
        assert IdentifierPart(n[i]);
      }
    }
  }

  /** Two categories print the same exactly when they are the same constant. */
  lemma CategoryNameInjective(a: Category, b: Category)
    ensures CategoryName(a) == CategoryName(b) <==> a == b
  {
  }

  class Meaning {
    var category: Category
    var meaningText: string

    /** `new Meaning(meaningText, category)` */
    constructor (meaningText: string, category: Category)
      ensures this.meaningText == meaningText && this.category == category
    {
      this.meaningText := meaningText;
      this.category := category;
    }

    /** `new Meaning()` */
    constructor Blank()
      ensures category == Unspecified && meaningText == ""
    {
      category := Unspecified;
      meaningText := "";
    }

    method SetCategory(category: Category)
      modifies this
      ensures this.category == category && meaningText == old(meaningText)
    {
      this.category := category;
    }

    method SetMeaningText(meaningText: string)
      modifies this
      ensures this.meaningText == meaningText && category == old(category)
    {
      this.meaningText := meaningText;
    }

    /** `toString()`: the category's name, a colon and a space, then the text. */
    function ToString(): (s: string)
      reads this
      ensures |s| == |CategoryName(category)| + 2 + |meaningText|
      ensures s[..|CategoryName(category)|] == CategoryName(category)
      ensures s[|CategoryName(category)|..|CategoryName(category)| + 2] == ": "
      ensures s[|CategoryName(category)| + 2..] == meaningText
    {
      CategoryName(category) + ": " + meaningText
    }

    /**
     * Since no enum constant's name contains ':', the rendered meaning
     * splits back into its category name and its text at the first colon.
     */
    lemma ToStringSplitsBack()
      ensures SplitLabel(ToString()) == Some((CategoryName(category), meaningText))
    {
      var name := CategoryName(category);
      NameHasNoColon(category);
      IndexOfColonAfter(name, " " + meaningText);
      var s := ToString();
      assert s == name + ":" + (" " + meaningText);
      assert s[|name| + 1] == ' ';
      assert s[..|name|] == name;
      assert s[|name| + 2..] == meaningText;
    }
  }

  /** The index of the first ':' in s, or |s| when there is none. */
  function IndexOfColon(s: string): (k: nat)
    ensures k <= |s|
    ensures k < |s| ==> s[k] == ':'
    ensures forall i :: 0 <= i < k ==> s[i] != ':'
  {
    if s == [] then 0
    else if s[0] == ':' then 0
    else 1 + IndexOfColon(s[1..])
  }

  /** Splits "label: rest" at its first colon, which must be followed by a space. */
  function SplitLabel(s: string): Option<(string, string)>
  {
    var k := IndexOfColon(s);
    if k + 1 < |s| && s[k + 1] == ' ' then Some((s[..k], s[k + 2..])) else None
  }

  lemma {:induction false} IndexOfColonAfter(name: string, rest: string)
    requires ':' !in name
    ensures IndexOfColon(name + ":" + rest) == |name|
  {
    if name != [] {
      assert (name + ":" + rest)[1..] == name[1..] + ":" + rest;
      IndexOfColonAfter(name[1..], rest);
    }
  }
}
