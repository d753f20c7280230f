/**
  The TMX 1.4b document model of main.go. Attributes that Go declares as
  `*string` are `Option<string>`, so an absent attribute (`None`) stays distinct
  from a present empty one (`Some("")`); `*[]Property` is `Option<seq<Property>>`.
  The constant `XMLName` tags carry no data and are not modelled.
 */
module Schema {
  import opened Wrappers
  import opened Normalize

  /** A `prop` element: its `type` attribute and its character data. */
  datatype Property = Property(name: string, prop: string)

  datatype Header = Header(
    adminLang: string,
    changeDate: Option<string>,
    changeId: Option<string>,
    creationDate: Option<string>,
    creationId: Option<string>,
    creationTool: string,
    creationToolVersion: string,
    dataType: string,
    oEncoding: Option<string>,
    oTmf: string,
    props: seq<Property>,
    segType: string,
    srcLang: string)

  /** A `tuv` element: one language rendering of a unit; `seg` is the segment text. */
  datatype TranslationUnitVariant = TranslationUnitVariant(
    changeDate: Option<string>,
    changeId: Option<string>,
    creationDate: Option<string>,
    creationId: Option<string>,
    creationTool: Option<string>,
    creationToolVersion: Option<string>,
    dataType: Option<string>,
    language: string,
    lastUsageDate: Option<string>,
    oEncoding: Option<string>,
    oTmf: Option<string>,
    props: Option<seq<Property>>,
    seg: string)

  /** A `tu` element: one translation entry; `tuvs[0]` is the variant the sort looks at. */
  datatype TranslationUnit = TranslationUnit(
    changeDate: Option<string>,
    changeId: Option<string>,
    creationDate: Option<string>,
    creationId: Option<string>,
    creationTool: Option<string>,
    creationToolVersion: Option<string>,
    dataType: Option<string>,
    lastUsageDate: Option<string>,
    oEncoding: Option<string>,
    oTmf: Option<string>,
    props: Option<seq<Property>>,
    segType: Option<string>,
    srcLang: Option<string>,
    tuId: Option<string>,
    tuvs: seq<TranslationUnitVariant>,
    usageCount: Option<string>)

  datatype Body = Body(tus: seq<TranslationUnit>)

  /** The `tmx` root: always one header and one body. */
  datatype Tmx = Tmx(header: Header, body: Body)

  /** The unit has a variant at index 0; without one, `String` indexes out of range and Go panics. */
  predicate HasPrimary(u: TranslationUnit) {
    |u.tuvs| >= 1
  }

  /** `TranslationUnit.String`: the cleaned segment of the primary variant. */
  function String(u: TranslationUnit): (r: string)
    requires HasPrimary(u)
    ensures |r| <= |u.tuvs[0].seg|
    ensures r == [] || (!IsSpace(r[0]) && !IsSpace(r[|r| - 1]))
  {
    Clean(u.tuvs[0].seg)
  }

  /** The sort key: `Less` cleans `String()` once more, so the primary segment is cleaned twice. */
  function Key(u: TranslationUnit): (k: string)
    requires HasPrimary(u)
    ensures |k| <= |u.tuvs[0].seg|
    ensures k == [] || (!IsSpace(k[0]) && !IsSpace(k[|k| - 1]))
  {
    Clean(String(u))
  }

  /** The key is a piece of the primary segment: cleaning only ever cuts characters off the ends. */
  lemma KeyIsInfix(u: TranslationUnit)
    requires HasPrimary(u)
    ensures exists a :: IsInfixAt(u.tuvs[0].seg, Key(u), a)
  {
    var s := u.tuvs[0].seg;
    CleanIsInfix(s);
    var a1 :| IsInfixAt(s, String(u), a1);
    CleanIsInfix(String(u));
    var a2 :| IsInfixAt(String(u), Key(u), a2);
    InfixTransitive(s, String(u), Key(u), a1, a2);
  }

  lemma InfixTransitive(s: string, t: string, r: string, a1: int, a2: int)
    requires IsInfixAt(s, t, a1) && IsInfixAt(t, r, a2)
    ensures IsInfixAt(s, r, a1 + a2)
  {
    forall i | 0 <= i < |r| ensures s[a1 + a2 + i] == r[i] {
      assert r[i] == t[a2 + i] == s[a1 + a2 + i];
    }
    assert s[a1 + a2..a1 + a2 + |r|] == r;
  }
}
