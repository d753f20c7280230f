# tmx: sorting a TMX translation memory by normalised segment text

The program reads a TMX 1.4b translation memory (`test/tm.tmx`). It sorts the
body's translation units by the text of each unit's first variant, then writes
the document back out as XML behind a hand-written XML declaration. Before two
units are compared, their text is "cleaned":

- a leading run of noise characters is removed: EN DASH (U+2013), `%`, `#`,
  space, `&` and `"`;
- white space at both ends is trimmed.

This project models that core in Dafny:

- `wrappers.dfy`: `Option` and `Result`.
- `normalize.dfy` (module `Normalize`): `clean`, its two stages and a
  declarative description of each. The regular expression `^[–%# &"]*` is the
  maximal noise prefix. `strings.TrimSpace` is the unique window with no white
  space at either edge. Go's `unicode.IsSpace` is given character by character.
- `schema.dfy` (module `Schema`): the TMX records `Tmx`, `Header`, `Body`,
  `TranslationUnit`, `TranslationUnitVariant` and `Property`. Every Go `*string`
  attribute is an `Option<string>`. `TranslationUnit.String` is modelled, and so
  is the sort key. The key is the first variant's segment cleaned twice, because
  `Less` cleans the result of `String`, which has already cleaned it.
- `ordering.dfy` (module `Ordering`): `strings.Compare` as a three-way
  comparison, proved equal to lexicographic order. Comparing code points is the
  same as Go's byte-wise comparison of UTF-8.
- `sortpkg.dfy` (module `SortPackage`): Go's `sort.Sort` over any key function.
  It is the insertion sort that, since Go 1.19, the sort package runs on slices
  of at most 12 elements. Each step compares adjacent elements with `Less` and
  exchanges them with `Swap`. The loop invariants of that sort are also here.
- `sorting.dfy` (module `Sorting`): `Body.Len`, `Body.Less`, `Body.Swap` and
  `sort.Sort(tmx.Body)`.
- `markup.dfy` (module `Markup`): `marshall` and the body of `main` without
  I/O. The XML serializer is a parameter that either succeeds with a string or
  fails.
- `samples.dfy` (module `Samples`): the worked ordering example. The segments
  `# Zebra`, `Apple` and `%Banana` have the keys `Zebra`, `Apple` and `Banana`.
  The only sorted arrangement of units with those keys is Apple, %Banana,
  # Zebra.

Notes on behaviour the model follows:

- The character class in main.go:103 holds the EN DASH U+2013 and not the EM
  DASH U+2014. An em dash therefore stops the strip and survives
  (`Normalize.CleanKeepsEmDash`). An en dash is stripped
  (`Normalize.CleanStripsEnDash`).
- `clean` is not idempotent. The trim can expose noise that the strip did not
  reach: `"\t%a"` cleans to `"%a"`, which cleans to `"a"`. The sort key
  therefore really is a double clean.
- `TranslationUnit.String` reads `Tuvs[0]`, so a unit with no variant makes
  `sort.Sort` panic once it is compared. Go's `sort.Sort` compares nothing when
  the body has at most one unit. For longer bodies every unit is compared. The
  model turns this into a precondition (`Sorting.Sortable`): with two or more
  units, every unit needs a variant.

## Model

| member | source | states |
|---|---|---|
| `Normalize.IsNoise` | main.go:103 | The character class of the pattern: exactly U+2013, `%`, `#`, space, `&` and `"`. |
| `Normalize.NoiseIsClass` | main.go:103 | `IsNoise` holds of a character exactly when it occurs in the class as the pattern writes it. |
| `Normalize.IsSpace` | main.go:106 | Go's `unicode.IsSpace`: the Latin-1 spaces plus the Unicode White_Space table. |
| `Normalize.SpaceOnLatin1` | main.go:106 | On Latin-1, `IsSpace` is exactly tab, newline, vertical tab, form feed, carriage return, space, U+0085 and U+00A0. |
| `Normalize.SpaceOnAscii` | main.go:106 | On ASCII, `IsSpace` agrees with the six-entry table that `strings.TrimSpace` uses on ASCII input. |
| `Normalize.StripNoise` | main.go:103-106 | The result is a suffix of the input, and what was cut off is the maximal noise prefix: only class characters, and the next character (if any) is not one. |
| `Normalize.StripNoiseUnique` | main.go:103 | Any maximal noise prefix of length k gives exactly `s[k..]`, so the anchored `ReplaceAll` removes precisely that prefix and nothing later. |
| `Normalize.TrimSpace` | main.go:106 | The result is no longer than the input and starts and ends with a non-space character (or is empty). |
| `Normalize.TrimSpaceWindow` | main.go:106 | The result is a window of the input with only white space before and after it, and no white space at its edges. |
| `Normalize.TrimSpaceUnique` | main.go:106 | Every such window equals the result: `strings.TrimSpace` meets its declarative description, in both directions with `TrimSpaceWindow`. |
| `Normalize.Clean` | main.go:105-107 | `clean` is no longer than its input, and its first and last characters are not white space. |
| `Normalize.CleanWindow` | main.go:105-107 | `clean(s)` is a trim window of what follows the maximal noise prefix of s. |
| `Normalize.CleanUnique` | main.go:105-107 | Given the maximal noise prefix and a trim window after it, `clean(s)` is exactly that window: the declarative reference for `clean`. |
| `Normalize.CleanIsInfix` | main.go:105-107 | `clean(s)` is a contiguous piece of s, and every character of s before it is noise or white space. |
| `Normalize.CleanAfterNoise` | main.go:105-107 | When a noise run is followed directly by text that ends in a non-space character, `clean` returns all of that text. |
| `Normalize.CleanSampleSentence` | main.go:20-23 | The sample sentence of `test()` loses exactly its three leading spaces. |
| `Normalize.CleanKeepsEmDash` | main.go:103 | An EM DASH is outside the class: it stops the strip, and it and the noise after it survive. |
| `Normalize.CleanStripsEnDash` | main.go:103 | An EN DASH is in the class: it is removed together with the spaces, `%` and `#` around it. |
| `Normalize.CleanNotIdempotent` | main.go:105-107 | For every noise character n that is not white space and every ordinary character c, `clean` maps tab, n, c to n, c, and a second `clean` maps that to c: cleaning twice differs from cleaning once. |
| `Schema.String` | main.go:138-140 | `TranslationUnit.String` is no longer than the first variant's segment and has no white space at its ends. |
| `Schema.Key` | main.go:110-112 | The key `Less` compares is no longer than the first segment and has no white space at its ends. |
| `Schema.KeyIsInfix` | main.go:110-112 | The key is a contiguous piece of the first variant's segment. |
| `Ordering.Compare` | main.go:113 | `strings.Compare` returns -1, 0 or 1, and 0 exactly when the strings are equal. |
| `Ordering.CompareIsLexLess` | main.go:113 | `Compare(a, b) < 0` holds exactly when a is lexicographically smaller than b (a proper prefix, or smaller at the first difference). |
| `Ordering.CompareAntisymmetric` | main.go:113 | Swapping the arguments negates the result. |
| `Ordering.CompareTransitive` | main.go:113 | "Not greater" is transitive. |
| `Ordering.CompareStrictTransitive` | main.go:113 | "Less" is transitive. |
| `SortPackage.LessBy` | main.go:110-114 | The generic `Less` holds exactly when the key of element i is lexicographically smaller than the key of element j. |
| `SortPackage.NotLessIsReverseOrder` | main.go:113 | When `Less(i, j)` fails, the key of j is not greater than the key of i. |
| `SortPackage.SwapAt` | main.go:116 | Elements i and j are exchanged, every other element is unchanged, and the multiset of elements is kept. |
| `SortPackage.SiftLeft` | main.go:15 | One outer pass of insertion sort: with the first i keys in order, element i moves left past every larger key. Afterwards the first i + 1 keys are in order, the elements are permuted, those right of i are untouched, and nothing moves when element i is not `Less` than its neighbour. |
| `SortPackage.SortBy` | main.go:15 | The result is a permutation of the input with non-decreasing keys, and an input already in order is returned unchanged. |
| `SortPackage.SortedHasNoDescent` | main.go:15 | In a sorted sequence, `Less` never holds of an element and the one before it. |
| `SortPackage.NoDescentIsSorted` | main.go:110-114 | Conversely, when no element is `Less` than its left neighbour, the keys are in order. Together with `SortedHasNoDescent`, key order is exactly what `sort.IsSorted` checks with `Body.Less`. |
| `SortPackage.SortedByDistinctKeys` | main.go:15 | Three elements with strictly ascending keys have exactly one sorted arrangement. |
| `Sorting.Len` | main.go:109 | `Body.Len` is the number of units, each copy of a repeated unit counted, so it is the same for any permutation of the units. |
| `Sorting.Less` | main.go:110-114 | `Body.Less(i, j)` holds exactly when the cleaned text of unit i is lexicographically smaller than that of unit j. |
| `Sorting.LessIrreflexive` | main.go:110-114 | No unit goes before itself. |
| `Sorting.LessTransitive` | main.go:110-114 | `Body.Less` is transitive. |
| `Sorting.Swap` | main.go:116 | `Body.Swap` exchanges units i and j, leaves every other unit in place and keeps the length and the multiset of units. |
| `Sorting.Sort` | main.go:15 | `sort.Sort(tmx.Body)` keeps the same units as a multiset, leaves their keys in non-decreasing order, and leaves an already sorted body unchanged. |
| `Sorting.SortedKeysAscend` | main.go:15 | In a sorted body every pair of units i < j has key(i) not greater than key(j). |
| `Markup.Unframe` | main.go:52 | When a payload is found, the document is exactly the declaration, a newline and that payload. |
| `Markup.Marshall` | main.go:45-53 | The output is empty exactly when serialization fails. Otherwise, the serializer's output is what follows the declaration line. |
| `Markup.MarshallStartsWithProlog` | main.go:46-52 | Every non-empty output begins with `<?xml version="1.0" encoding="utf-8"?>` followed by a newline. |
| `Markup.SortAndMarshall` | main.go:13-18 | `main` without I/O: the header is untouched, the body holds the same units in key order, and the output frames what the serializer made of the sorted document (or is empty when it failed). |
| `Samples.KeyOfPlainUnit` | main.go:110-112 | The key of a unit with one plain variant is its segment cleaned twice. |
| `Samples.KeyZebra` | main.go:103-107 | The key of `# Zebra` is `Zebra`. |
| `Samples.KeyApple` | main.go:103-107 | The key of `Apple` is `Apple`. |
| `Samples.KeyBanana` | main.go:103-107 | The key of `%Banana` is `Banana`. |
| `Samples.ExampleKeysAscend` | main.go:113 | `Apple` < `Banana` < `Zebra` under `strings.Compare`. |
| `Samples.ExampleOrder` | main.go:15 | Units keyed Zebra, Apple and Banana have exactly one sorted arrangement: Apple, Banana, Zebra. |
| `Samples.SortThree` | main.go:15 | `sort.Sort` on the body [Zebra, Apple, Banana] (by key) returns [Apple, Banana, Zebra]. |

## Left out

- `unmarshall` (main.go:26-37): it opens and reads a file and calls the XML decoder. The document it yields is the input of `Markup.SortAndMarshall`. The "Error opening file" path returns an empty document, which is just another input.
- The XML encoder `xml.Marshal` is an opaque parameter `Tmx -> Result<string, string>`. Field tags, attribute order and escaping belong to `encoding/xml`, not to this program.
- `fmt.Print(markup)` in `main` and the `Error: %v` message `marshall` prints on failure are output only. The model keeps the returned string.
- `print` (main.go:39-43) and the `String` methods of `Tmx`, `Header`, `Property`, `Body` and `TranslationUnitVariant` are debugging formatters. Nothing in the sort depends on them.
- `XMLName` fields are constant element tags and carry no data.
- The regular-expression engine is replaced by its meaning for this one anchored pattern: strip the longest prefix made of class characters. Invalid UTF-8 is not modelled. Strings are sequences of code points.
- Sorting.Sort: models the insertion sort that Go's `sort.Sort` runs, since Go 1.19, on bodies of at most 12 units. Longer bodies go through pattern-defeating quicksort, and Go releases before 1.19 run a Shell-sort pass on 7 to 12 units first; neither is modelled. Those algorithms give the same permutation and ordering guarantees. The "already sorted body comes back unchanged" clause is a property of insertion sort; Go does not promise it for other paths when keys are equal.
- Sorting.Sort: a body with two or more units where some unit has no variant makes Go panic. The model excludes it with a precondition rather than modelling the panic.
