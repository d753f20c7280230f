/**
  The sort-key normaliser `clean` of main.go: strip the maximal leading run of
  noise characters matched by the anchored class `^[–%# &"]*`, then apply
  `strings.TrimSpace`.
 */
module Normalize {

  /** The characters of the regular-expression class: EN DASH (U+2013), `%`, `#`, space, `&`, `"`. */
  predicate IsNoise(c: char) {
    c == '\U{2013}' || c == '%' || c == '#' || c == ' ' || c == '&' || c == '"'
  }

  /** Go's `unicode.IsSpace`: the Latin-1 spaces plus the Unicode White_Space table. */
  predicate IsSpace(c: char) {
    || c == '\t' || c == '\n' || c == '\U{000B}' || c == '\U{000C}' || c == '\r' || c == ' '
    || c == '\U{0085}' || c == '\U{00A0}' || c == '\U{1680}'
    || ('\U{2000}' <= c <= '\U{200A}')
    || c == '\U{2028}' || c == '\U{2029}' || c == '\U{202F}' || c == '\U{205F}' || c == '\U{3000}'
  }

  /** The class of the regular expression `^[–%# &"]*`, as the pattern writes it. */
  const NoiseClass: string := "\U{2013}%# &\""

  /** The bytes of the `asciiSpace` table that `strings.TrimSpace` consults for ASCII input. */
  const AsciiSpaces: string := "\t\n\U{000B}\U{000C}\r "

  /** The Latin-1 white space that `unicode.IsSpace` lists by hand before it consults the White_Space table. */
  const Latin1Spaces: string := AsciiSpaces + "\U{0085}\U{00A0}"

  /** `IsNoise` holds of exactly the characters the pattern's class lists. */
  lemma NoiseIsClass(c: char)
    ensures IsNoise(c) <==> c in NoiseClass
  {
  }

  /** On Latin-1, `unicode.IsSpace` is exactly its hand-written list. */
  lemma SpaceOnLatin1(c: char)
    requires c <= '\U{00FF}'
    ensures IsSpace(c) <==> c in Latin1Spaces
  {
  }

  /** On ASCII, `unicode.IsSpace` agrees with the `asciiSpace` fast path of `strings.TrimSpace`. */
  lemma SpaceOnAscii(c: char)
    requires c < '\U{0080}'
    ensures IsSpace(c) <==> c in AsciiSpaces
  {
  }

  /** Every character of s[lo..hi] is noise. */
  ghost predicate NoiseBetween(s: string, lo: int, hi: int)
    requires 0 <= lo <= hi <= |s|
  {
    forall i :: lo <= i < hi ==> IsNoise(s[i])
  }

  /** Every character of s[lo..hi] is white space. */
  ghost predicate SpaceBetween(s: string, lo: int, hi: int)
    requires 0 <= lo <= hi <= |s|
  {
    forall i :: lo <= i < hi ==> IsSpace(s[i])
  }

  /** s[..k] is the longest prefix of s made only of noise characters. */
  ghost predicate IsMaximalNoisePrefix(s: string, k: int) {
    && 0 <= k <= |s|
    && NoiseBetween(s, 0, k)
    && (k == |s| || !IsNoise(s[k]))
  }

  /** s[a..b] is what is left of s[lo..] once leading and trailing white space are trimmed. */
  ghost predicate IsTrimWindow(s: string, lo: int, a: int, b: int) {
    && 0 <= lo <= a <= b <= |s|
    && SpaceBetween(s, lo, a)
    && SpaceBetween(s, b, |s|)
    && (a == b || (!IsSpace(s[a]) && !IsSpace(s[b - 1])))
  }

  /** r occurs in s at offset a. */
  ghost predicate IsInfixAt(s: string, r: string, a: int) {
    0 <= a <= |s| - |r| && s[a..a + |r|] == r
  }

  /** The end of the run of noise characters that starts at i. */
  function SkipNoise(s: string, i: nat): (j: nat)
    requires i <= |s|
    ensures i <= j <= |s| && NoiseBetween(s, i, j)
    ensures j == |s| || !IsNoise(s[j])
    decreases |s| - i
  {
    if i == |s| || !IsNoise(s[i]) then i else SkipNoise(s, i + 1)
  }

  /** The end of the run of white space that starts at i. */
  function SkipSpace(s: string, i: nat): (j: nat)
    requires i <= |s|
    ensures i <= j <= |s| && SpaceBetween(s, i, j)
    ensures j == |s| || !IsSpace(s[j])
    decreases |s| - i
  {
    if i == |s| || !IsSpace(s[i]) then i else SkipSpace(s, i + 1)
  }

  /** The start of the run of white space that ends at j, looking no further left than lo. */
  function SkipSpaceBack(s: string, lo: nat, j: nat): (k: nat)
    requires lo <= j <= |s|
    ensures lo <= k <= j && SpaceBetween(s, k, j)
    ensures k == lo || !IsSpace(s[k - 1])
    decreases j
  {
    if j == lo || !IsSpace(s[j - 1]) then j else SkipSpaceBack(s, lo, j - 1)
  }

  /** `re.ReplaceAll(s, void)`: the anchored match, the maximal noise prefix, is replaced by nothing. */
  function StripNoise(s: string): (r: string)
    ensures |r| <= |s| && r == s[|s| - |r|..]
    ensures IsMaximalNoisePrefix(s, |s| - |r|)
  {
    s[SkipNoise(s, 0)..]
  }

  /** `strings.TrimSpace`: drops the white space at both ends of s. */
  function TrimSpace(s: string): (r: string)
    ensures |r| <= |s|
    ensures r == [] || (!IsSpace(r[0]) && !IsSpace(r[|r| - 1]))
  {
    var a := SkipSpace(s, 0);
    var b := SkipSpaceBack(s, a, |s|);
    assert a < b ==> !IsSpace(s[a]);
    s[a..b]
  }

  /** `clean`: strip the noise prefix, then trim white space at both ends. */
  function Clean(s: string): (r: string)
    ensures |r| <= |s|
    ensures r == [] || (!IsSpace(r[0]) && !IsSpace(r[|r| - 1]))
  {
    TrimSpace(StripNoise(s))
  }

  // ---------------------------------------------------------------------------
  // Declarative characterisation: each function returns the one window that
  // the predicates above describe.

  /** The maximal noise prefix is unique, so `re.ReplaceAll` removes exactly it. */
  lemma StripNoiseUnique(s: string, k: int)
    requires IsMaximalNoisePrefix(s, k)
    ensures StripNoise(s) == s[k..]
  {
    var j := SkipNoise(s, 0);
    assert j == k;
  }

  /** `strings.TrimSpace` returns a trim window of its argument. */
  lemma TrimSpaceWindow(s: string)
    ensures exists a, b :: IsTrimWindow(s, 0, a, b) && TrimSpace(s) == s[a..b]
  {
    var a := SkipSpace(s, 0);
    var b := SkipSpaceBack(s, a, |s|);
    assert IsTrimWindow(s, 0, a, b);
  }

  /** ... and that window is the only one: `strings.TrimSpace` equals its declarative description. */
  lemma TrimSpaceUnique(s: string, a: int, b: int)
    requires IsTrimWindow(s, 0, a, b)
    ensures TrimSpace(s) == s[a..b]
  {
    var a0 := SkipSpace(s, 0);
    if a < b {
      assert a0 == a;
    } else {
      assert SpaceBetween(s, 0, |s|);
    }
  }

  /** A trim window of the suffix s[k..] is, shifted by k, a trim window of s starting at k. */
  lemma WindowShiftUp(s: string, k: int, a: int, b: int)
    requires 0 <= k <= |s| && IsTrimWindow(s[k..], 0, a, b)
    ensures IsTrimWindow(s, k, k + a, k + b) && s[k..][a..b] == s[k + a..k + b]
  {
    var t := s[k..];
    forall i | k <= i < k + a ensures IsSpace(s[i]) {
      assert s[i] == t[i - k];
    }
    forall i | k + b <= i < |s| ensures IsSpace(s[i]) {
      assert s[i] == t[i - k];
    }
    if a < b {
      assert s[k + a] == t[a] && s[k + b - 1] == t[b - 1];
    }
  }

  /** A trim window of s starting at k is, shifted back by k, a trim window of s[k..]. */
  lemma WindowShiftDown(s: string, k: int, a: int, b: int)
    requires IsTrimWindow(s, k, a, b)
    ensures IsTrimWindow(s[k..], 0, a - k, b - k) && s[k..][a - k..b - k] == s[a..b]
  {
    var t := s[k..];
    assert SpaceBetween(t, 0, a - k) by {
      forall i | 0 <= i < a - k ensures IsSpace(t[i]) {
        assert t[i] == s[i + k];
      }
    }
    assert SpaceBetween(t, b - k, |t|) by {
      forall i | b - k <= i < |t| ensures IsSpace(t[i]) {
        assert t[i] == s[i + k];
      }
    }
    assert a == b || (!IsSpace(t[a - k]) && !IsSpace(t[b - k - 1])) by {
      if a < b {
        assert t[a - k] == s[a] && t[b - k - 1] == s[b - 1];
      }
    }
    assert t[a - k..b - k] == s[a..b];
  }


  /**
    `clean(s)` is a trim window of what follows the maximal noise prefix of s;
    with CleanUnique this pins `clean` down completely.
   */
  lemma CleanWindow(s: string)
    ensures exists k, a, b :: IsMaximalNoisePrefix(s, k) && IsTrimWindow(s, k, a, b) && Clean(s) == s[a..b]
  {
    var t := StripNoise(s);
    var k := |s| - |t|;
    TrimSpaceWindow(t);
    var a, b :| IsTrimWindow(t, 0, a, b) && TrimSpace(t) == t[a..b];
    WindowShiftUp(s, k, a, b);
    assert IsMaximalNoisePrefix(s, k) && IsTrimWindow(s, k, k + a, k + b) && Clean(s) == s[k + a..k + b];
  }

  /**
    `clean(s)` is exactly s[a..b] whenever s[..k] is the maximal noise prefix and
    s[a..b] is the trimmed window of s[k..]: the declarative reference for `clean`.
   */
  lemma CleanUnique(s: string, k: int, a: int, b: int)
    requires IsMaximalNoisePrefix(s, k) && IsTrimWindow(s, k, a, b)
    ensures Clean(s) == s[a..b]
  {
    var t := StripNoise(s);
    assert t == s[k..] by {
      StripNoiseUnique(s, k);
    }
    assert TrimSpace(t) == s[a..b] by {
      WindowShiftDown(s, k, a, b);
      TrimSpaceUnique(t, a - k, b - k);
    }
  }

  /**
    The everyday reading of `clean`: its result is a contiguous piece of its input
    and everything of s before that piece is noise or white space, so no character
    after the stripped prefix is altered.
   */
  lemma CleanIsInfix(s: string)
    ensures exists a :: IsInfixAt(s, Clean(s), a) && forall i :: 0 <= i < a ==> IsNoise(s[i]) || IsSpace(s[i])
  {
    var r := Clean(s);
    CleanWindow(s);
    var k, a, b :| IsMaximalNoisePrefix(s, k) && IsTrimWindow(s, k, a, b) && r == s[a..b];
    assert IsInfixAt(s, r, a);
  }

  // ---------------------------------------------------------------------------
  // Worked examples.

  /** When the noise prefix is followed directly by text that ends in a non-space, `clean` keeps all of that text. */
  lemma CleanAfterNoise(s: string, k: int)
    requires 0 <= k < |s| && NoiseBetween(s, 0, k)
    requires !IsNoise(s[k]) && !IsSpace(s[k]) && !IsSpace(s[|s| - 1])
    ensures Clean(s) == s[k..]
  {
    CleanUnique(s, k, k, |s|);
  }

  /**
    The sample string of `test()`: only the three leading spaces go. The literal is
    written in pieces because the verifier indexes long literals poorly.
   */
  lemma CleanSampleSentence()
    ensures var body := "En la " + "Unión Europea " + "(UE) para el " + "manejo de " + "pacientes con " + "fibrosis";
      Clean("   " + body) == body
  {
    var body := "En la " + "Unión Europea " + "(UE) para el " + "manejo de " + "pacientes con " + "fibrosis";
    var s := "   " + body;
    assert s[0] == s[1] == s[2] == ' ' && s[3] == 'E' && s[|s| - 1] == 's';
    CleanAfterNoise(s, 3);
    assert s[3..] == body;
  }

  /** An EM DASH (U+2014) is not in the class: it stops the strip and survives. */
  lemma CleanKeepsEmDash()
    ensures Clean("   \U{2014} %#En la Unión") == "\U{2014} %#En la Unión"
  {
    CleanAfterNoise("   \U{2014} %#En la Unión", 3);
  }

  /** An EN DASH (U+2013) is in the class and is stripped with its neighbours. */
  lemma CleanStripsEnDash()
    ensures Clean("   \U{2013} %#En la Unión") == "En la Unión"
  {
    CleanAfterNoise("   \U{2013} %#En la Unión", 7);
  }

  /**
    `clean` is not idempotent: a tab in front of a noise character stops the strip,
    the trim removes the tab, and a second `clean` then strips the noise, as with
    "\t%a", which cleans to "%a" and then to "a".
   */
  lemma CleanNotIdempotent(n: char, c: char)
    requires IsNoise(n) && !IsSpace(n) && !IsNoise(c) && !IsSpace(c)
    ensures Clean(['\t', n, c]) == [n, c]
    ensures Clean([n, c]) == [c]
  {
    var s := ['\t', n, c];
    assert Clean(s) == [n, c] by {
      assert IsMaximalNoisePrefix(s, 0) && IsTrimWindow(s, 0, 1, 3);
      CleanUnique(s, 0, 1, 3);
      assert s[1..3] == [n, c];
    }
    assert Clean([n, c]) == [c] by {
      CleanAfterNoise([n, c], 1);
    }
  }
}
