module Samples {
  import opened Wrappers
  import opened Normalize
  import opened Schema
  import opened Ordering
  import opened Sorting
  import opened SortPackage

  /** A unit with a single variant in language "es" whose segment is `seg`; every optional attribute is absent. */
  function PlainUnit(seg: string): TranslationUnit {
    var v := TranslationUnitVariant(None, None, None, None, None, None, None, "es", None, None, None, None, seg);
    TranslationUnit(None, None, None, None, None, None, None, None, None, None, None, None, None, None, [v], None)
  }

  /** The sort key of such a unit is its segment cleaned twice (once by `String`, once by `Less`). */
  lemma KeyOfPlainUnit(seg: string)
    ensures Key(PlainUnit(seg)) == Clean(Clean(seg))
  {
  }

  // The three units of the ordering example: noise and blanks before the text do not take part in the key.

  lemma KeyZebra()
    ensures Key(PlainUnit("# Zebra")) == "Zebra"
  {
    CleanAfterNoise("# Zebra", 2);
    CleanAfterNoise("Zebra", 0);
    KeyOfPlainUnit("# Zebra");
  }

  lemma KeyApple()
    ensures Key(PlainUnit("Apple")) == "Apple"
  {
    CleanAfterNoise("Apple", 0);
    KeyOfPlainUnit("Apple");
  }

  lemma KeyBanana()
    ensures Key(PlainUnit("%Banana")) == "Banana"
  {
    CleanAfterNoise("%Banana", 1);
    CleanAfterNoise("Banana", 0);
    KeyOfPlainUnit("%Banana");
  }

  /** The example keys are strictly ascending. */
  lemma ExampleKeysAscend()
    ensures Compare("Apple", "Banana") < 0 && Compare("Banana", "Zebra") < 0
  {
  }

  /** Of all arrangements of three units keyed "Zebra", "Apple" and "Banana", the only sorted one is Apple, Banana, Zebra. */
  lemma ExampleOrder(r: Body, z: TranslationUnit, a: TranslationUnit, b: TranslationUnit)
    requires HasPrimary(z) && HasPrimary(a) && HasPrimary(b)
    requires Key(z) == "Zebra" && Key(a) == "Apple" && Key(b) == "Banana"
    requires multiset(r.tus) == multiset([z, a, b]) && Sorted(r)
    ensures r.tus == [a, b, z]
  {
    ExampleKeysAscend();
    MultisetRotate(a, b, z);
    SortedByDistinctKeys(r.tus, Key, a, b, z);
  }

  /** Three units that each have a primary variant form a body `sort.Sort` accepts. */
  lemma ThreeUnitsSortable(x: TranslationUnit, y: TranslationUnit, z: TranslationUnit)
    requires HasPrimary(x) && HasPrimary(y) && HasPrimary(z)
    ensures Sortable(Body([x, y, z]))
  {
  }

  /** `sort.Sort` on the body [# Zebra, Apple, %Banana], for units with those keys, gives [Apple, %Banana, # Zebra]. */
  method SortThree(z: TranslationUnit, a: TranslationUnit, b: TranslationUnit) returns (r: Body)
    requires HasPrimary(z) && HasPrimary(a) && HasPrimary(b)
    requires Key(z) == "Zebra" && Key(a) == "Apple" && Key(b) == "Banana"
    ensures r.tus == [a, b, z]
  {
    ThreeUnitsSortable(z, a, b);
    r := Sort(Body([z, a, b]));
    ExampleOrder(r, z, a, b);
  }
}
