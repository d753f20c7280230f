/**
  `marshall` and the body of `main` without its I/O. The XML serializer is an
  opaque parameter: what it does with each field is the serializer's business,
  not this program's. What main.go adds is the framing: a fixed XML declaration,
  a newline, then the serializer's output, or nothing at all when it fails.
 */
module Markup {
  import opened Wrappers
  import opened Schema
  import opened Sorting

  /** The XML declaration, written by hand to get the lower-case `utf-8` that TMX 1.4b files carry. */
  const Prolog: string := "<?xml version=\"1.0\" encoding=\"utf-8\"?>"

  /** Splits a framed document into its payload; `None` when the declaration line is missing. */
  function Unframe(markup: string): (payload: Option<string>)
    ensures payload.Some? ==> markup == Prolog + "\n" + payload.value
  {
    var n := |Prolog| + 1;
    if |markup| >= n && markup[..n] == Prolog + "\n" then
      assert markup == markup[..n] + markup[n..];
      Some(markup[n..])
    else None
  }

  /**
    `marshall`: on success the serializer's output can be read back from behind
    the declaration line; on failure the result is empty, and only then.
   */
  function Marshall(t: Tmx, serialize: Tmx -> Result<string, string>): (markup: string)
    ensures markup == "" <==> serialize(t).Failure?
    ensures Unframe(markup) == serialize(t).ToOption()
  {
    match serialize(t)
    case Failure(_) => ""
    case Success(d) =>
      var markup := Prolog + "\n" + d;
      assert markup[..|Prolog| + 1] == Prolog + "\n";
      assert markup[|Prolog| + 1..] == d;
      markup
  }

  /** Every non-empty output starts with the declaration line, whatever the serializer produced. */
  lemma MarshallStartsWithProlog(t: Tmx, serialize: Tmx -> Result<string, string>)
    requires Marshall(t, serialize) != ""
    ensures var m := Marshall(t, serialize);
      |m| > |Prolog| && m[..|Prolog|] == Prolog && m[|Prolog|] == '\n'
  {
    var m := Marshall(t, serialize);
    var p := Unframe(m);
    assert m == Prolog + "\n" + p.value;
  }

  /**
    `main` after the document is loaded: sort the body in place, then marshall
    the whole document. The header is untouched, the body keeps its units, and
    the output frames what the serializer made of the sorted document.
   */
  method SortAndMarshall(t: Tmx, serialize: Tmx -> Result<string, string>) returns (sorted: Tmx, markup: string)
    requires Sortable(t.body)
    ensures sorted.header == t.header
    ensures multiset(sorted.body.tus) == multiset(t.body.tus)
    ensures Sorted(sorted.body)
    ensures markup == "" <==> serialize(sorted).Failure?
    ensures Unframe(markup) == serialize(sorted).ToOption()
  {
    var body := Sort(t.body);
    sorted := t.(body := body);
    markup := Marshall(sorted, serialize);
  }
}
