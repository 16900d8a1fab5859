// The multilingual slug generator of app/Helpers/SlugHelper.php, over
// sequences of code points.

module SlugHelper {
  import opened Common
  import Decimal

  /** The library calls generate makes and this model does not interpret:
      normalize stands for normalizeText (NFC, strip_tags, html_entity_decode),
      lower for mb_strtolower. */
  datatype TextLibrary = TextLibrary(normalize: string -> string, lower: string -> string)

  /** The one-character entries of the space list: space, tab, LF, CR, NUL, VT. */
  const AsciiSpaces: string := " \t\n\r\0\U{000B}"

  /** The other twenty entries of the space list. In a double-quoted PHP string only
      the braced form \u{...} is a Unicode escape, so each entry is six characters:
      a backslash, 'u' and four hex digits, not the space character it is named after. */
  const EscapeLiterals: seq<string> := [
    "\\u00A0", "\\u2000", "\\u2001", "\\u2002", "\\u2003", "\\u2004", "\\u2005",
    "\\u2006", "\\u2007", "\\u2008", "\\u2009", "\\u200A", "\\u200B", "\\u200C",
    "\\u200D", "\\u2028", "\\u2029", "\\u202F", "\\u205F", "\\u3000"]

  /** The symbols that are deleted, in source order (the source lists two of them
      twice), split into five runs so that facts about them stay cheap to prove. */
  const SymbolList: string :=
    AsciiSymbols + LatinSymbols + QuoteSymbols + PunctuationSymbols + MorePunctuationSymbols

  const AsciiSymbols: string := "!@#$%^&*()+=[]{}|\\:;\"'<>,.?/~`"
  const LatinSymbols: string := "¡¿«»"
  const QuoteSymbols: string := "‹›‚„…‰‱′″‴‵‶‷‸‹›‼‽‾‿"
  const PunctuationSymbols: string := "⁀⁁⁂⁃⁅⁆⁇⁈⁉⁊⁋⁌⁍⁎⁏⁐"
  const MorePunctuationSymbols: string := "⁑⁒⁓⁔⁕⁖⁗⁘⁙⁚⁛⁜⁝⁞"

  function Singletons(s: string): (r: seq<string>)
    ensures |r| == |s| && forall i :: 0 <= i < |s| ==> r[i] == [s[i]]
  {
    seq(|s|, i requires 0 <= i < |s| => [s[i]])
  }

  /** $spaceChars, every entry replaced by the separator. */
  function SpaceEntries(): seq<string> {
    Singletons(AsciiSpaces) + EscapeLiterals
  }

  /** $symbolsToRemove, every entry replaced by "". */
  function SymbolsToRemove(): seq<string> {
    Singletons(SymbolList)
  }

  // ---------------------------------------------------------------------------
  // str_replace, one search string at a time

  /** str_replace($pat, $rep, $s) for one search string: occurrences are found
      left to right and do not overlap; an empty search string changes nothing. */
  function ReplaceAll(s: string, pat: string, rep: string): string
    decreases |s|
  {
    if pat == [] || |s| < |pat| then s
    else if s[..|pat|] == pat then rep + ReplaceAll(s[|pat|..], pat, rep)
    else [s[0]] + ReplaceAll(s[1..], pat, rep)
  }

  /** The source's foreach: one str_replace per entry, in list order. */
  function ReplaceEach(s: string, pats: seq<string>, rep: string): string
    decreases |pats|
  {
    if pats == [] then s else ReplaceEach(ReplaceAll(s, pats[0], rep), pats[1..], rep)
  }

  function SpacesReplaced(text: string, sep: char): string {
    ReplaceEach(text, SpaceEntries(), [sep])
  }

  function SymbolsRemoved(text: string): string {
    ReplaceEach(text, SymbolsToRemove(), "")
  }

  /** Every character of s that occurs in cs replaced by rep, the others kept. */
  function Substitute(s: string, cs: string, rep: string): string {
    if s == [] then [] else (if s[0] in cs then rep else [s[0]]) + Substitute(s[1..], cs, rep)
  }

  // ---------------------------------------------------------------------------
  // replaceSpacesAndSymbols

  /** One of the source's foreach loops: str_replace with each search string in turn. */
  method ReplaceInTurn(s: string, pats: seq<string>, rep: string) returns (r: string)
    ensures r == ReplaceEach(s, pats, rep)
  {
    r := s;
    for i := 0 to |pats|
      invariant ReplaceEach(r, pats[i..], rep) == ReplaceEach(s, pats, rep)
    {
      assert pats[i..][1..] == pats[i + 1..];
      r := ReplaceAll(r, pats[i], rep);
    }
    assert pats[|pats|..] == [];
  }

  method ReplaceSpacesAndSymbols(text: string, sep: char) returns (r: string)
    ensures r == SymbolsRemoved(SpacesReplaced(text, sep))
    ensures Avoids(r, SymbolList)
    ensures Confined(r, AsciiSpaces, sep)
  {
    var spaced := ReplaceInTurn(text, SpaceEntries(), [sep]);
    r := ReplaceInTurn(spaced, SymbolsToRemove(), "");
    SymbolsRemovedIsDeletion(spaced);
    SubstituteRemovesAll(spaced, SymbolList, "");
    SpacesReplacedConfined(text, sep);
    SubstituteKeepsConfined(spaced, SymbolList, "", AsciiSpaces, sep);
  }

  // ---------------------------------------------------------------------------
  // Lemmas about str_replace

  /** Replacing a one-character string is a per-character substitution. */
  lemma {:induction false} ReplaceOneChar(s: string, c: char, rep: string)
    ensures ReplaceAll(s, [c], rep) == Substitute(s, [c], rep)
  {
    if s != [] {
      ReplaceOneChar(s[1..], c, rep);
    }
  }

  /** Two substitutions with the same replacement of at most one character compose. */
  lemma {:induction false} SubstituteTwice(s: string, a: string, b: string, rep: string)
    requires |rep| <= 1
    ensures Substitute(Substitute(s, a, rep), b, rep) == Substitute(s, a + b, rep)
  {
    if s != [] {
      var head := if s[0] in a then rep else [s[0]];
      SubstituteConcat(head, Substitute(s[1..], a, rep), b, rep);
      SubstituteTwice(s[1..], a, b, rep);
      if |rep| == 1 {
        assert Substitute(rep, b, rep) == rep by {
          assert rep[1..] == [];
        }
      }
    }
  }

  lemma {:induction false} SubstituteConcat(x: string, y: string, cs: string, rep: string)
    ensures Substitute(x + y, cs, rep) == Substitute(x, cs, rep) + Substitute(y, cs, rep)
  {
    if x != [] {
      assert (x + y)[1..] == x[1..] + y;
      SubstituteConcat(x[1..], y, cs, rep);
    } else {
      assert x + y == y;
    }
  }

  /** A list of one-character entries applied in turn is a single substitution. */
  lemma {:induction false} ReplaceEachSingletons(s: string, cs: string, rep: string)
    requires |rep| <= 1
    ensures ReplaceEach(s, Singletons(cs), rep) == Substitute(s, cs, rep)
    decreases |cs|
  {
    if cs == [] {
      SubstituteNothing(s, cs, rep);
    } else {
      assert Singletons(cs)[1..] == Singletons(cs[1..]);
      ReplaceOneChar(s, cs[0], rep);
      ReplaceEachSingletons(Substitute(s, [cs[0]], rep), cs[1..], rep);
      SubstituteTwice(s, [cs[0]], cs[1..], rep);
      assert [cs[0]] + cs[1..] == cs;
    }
  }

  /** A substitution that finds none of its characters changes nothing. */
  lemma {:induction false} SubstituteNothing(s: string, cs: string, rep: string)
    requires Avoids(s, cs)
    ensures Substitute(s, cs, rep) == s
  {
    if s != [] {
      SubstituteNothing(s[1..], cs, rep);
      assert [s[0]] + s[1..] == s;
    }
  }

  /** No character of s is one of bad. */
  predicate Avoids(s: string, bad: string) {
    forall i :: 0 <= i < |s| ==> s[i] !in bad
  }

  /** The only character of cs that s may contain is c. */
  predicate Confined(s: string, cs: string, c: char) {
    forall i :: 0 <= i < |s| ==> s[i] in cs ==> s[i] == c
  }

  /** After substituting cs by a replacement outside cs, no character of cs is left. */
  lemma {:induction false} SubstituteRemovesAll(s: string, cs: string, rep: string)
    requires Avoids(rep, cs)
    ensures Avoids(Substitute(s, cs, rep), cs)
  {
    if s != [] {
      SubstituteRemovesAll(s[1..], cs, rep);
    }
  }

  /** After substituting cs by c, c is the only character of cs left. */
  lemma {:induction false} SubstituteConfines(s: string, cs: string, c: char)
    ensures Confined(Substitute(s, cs, [c]), cs, c)
  {
    if s != [] {
      SubstituteConfines(s[1..], cs, c);
    }
  }

  /** A substitution adds no character other than those of the replacement. */
  lemma {:induction false} SubstituteKeepsConfined(s: string, cs: string, rep: string, others: string, c: char)
    requires Confined(s, others, c) && Confined(rep, others, c)
    ensures Confined(Substitute(s, cs, rep), others, c)
  {
    if s != [] {
      SubstituteKeepsConfined(s[1..], cs, rep, others, c);
    }
  }

  /** str_replace adds no character other than those of the replacement. */
  lemma {:induction false} ReplaceAllKeepsConfined(s: string, pat: string, rep: string, others: string, c: char)
    requires Confined(s, others, c) && Confined(rep, others, c)
    ensures Confined(ReplaceAll(s, pat, rep), others, c)
    decreases |s|
  {
    if pat == [] || |s| < |pat| {
    } else if s[..|pat|] == pat {
      ReplaceAllKeepsConfined(s[|pat|..], pat, rep, others, c);
    } else {
      ReplaceAllKeepsConfined(s[1..], pat, rep, others, c);
    }
  }

  lemma {:induction false} ReplaceEachKeepsConfined(s: string, pats: seq<string>, rep: string, others: string, c: char)
    requires Confined(s, others, c) && Confined(rep, others, c)
    ensures Confined(ReplaceEach(s, pats, rep), others, c)
    decreases |pats|
  {
    if pats != [] {
      ReplaceAllKeepsConfined(s, pats[0], rep, others, c);
      ReplaceEachKeepsConfined(ReplaceAll(s, pats[0], rep), pats[1..], rep, others, c);
    }
  }

  /** str_replace finds nothing when the first character of the search string is absent. */
  lemma {:induction false} ReplaceAllAbsent(s: string, pat: string, rep: string)
    requires pat != [] && pat[0] !in s
    ensures ReplaceAll(s, pat, rep) == s
    decreases |s|
  {
    if |s| >= |pat| {
      assert s[..|pat|][0] == s[0];
      ReplaceAllAbsent(s[1..], pat, rep);
      assert [s[0]] + s[1..] == s;
    }
  }

  lemma {:induction false} ReplaceEachConcat(s: string, p: seq<string>, q: seq<string>, rep: string)
    ensures ReplaceEach(s, p + q, rep) == ReplaceEach(ReplaceEach(s, p, rep), q, rep)
    decreases |p|
  {
    if p == [] {
      assert p + q == q;
    } else {
      assert (p + q)[1..] == p[1..] + q;
      ReplaceEachConcat(ReplaceAll(s, p[0], rep), p[1..], q, rep);
    }
  }

  /** Text without a backslash contains none of a list of search strings that
      all start with a backslash. */
  lemma {:induction false} BackslashLiteralsAbsent(s: string, lits: seq<string>, rep: string)
    requires '\\' !in s
    requires forall i :: 0 <= i < |lits| ==> lits[i] != [] && lits[i][0] == '\\'
    ensures ReplaceEach(s, lits, rep) == s
    decreases |lits|
  {
    if lits != [] {
      ReplaceAllAbsent(s, lits[0], rep);
      BackslashLiteralsAbsent(s, lits[1..], rep);
    }
  }

  lemma EscapeLiteralsStartWithBackslash()
    ensures forall i :: 0 <= i < |EscapeLiterals| ==> EscapeLiterals[i] != [] && EscapeLiterals[i][0] == '\\'
  {
  }

  /** The symbol pass deletes exactly the listed characters. */
  lemma SymbolsRemovedIsDeletion(s: string)
    ensures SymbolsRemoved(s) == Substitute(s, SymbolList, "")
  {
    ReplaceEachSingletons(s, SymbolList, "");
  }

  /** After the space pass the only space, tab, LF, CR, NUL or VT left is the
      separator itself. */
  lemma SpacesReplacedConfined(text: string, sep: char)
    ensures Confined(SpacesReplaced(text, sep), AsciiSpaces, sep)
  {
    ConfinedAfterSpaces(text, AsciiSpaces, EscapeLiterals, sep);
  }

  /** Replacing the characters of cs and then any further search strings by the
      separator leaves no character of cs but the separator. */
  lemma ConfinedAfterSpaces(text: string, cs: string, lits: seq<string>, sep: char)
    ensures Confined(ReplaceEach(text, Singletons(cs) + lits, [sep]), cs, sep)
  {
    ReplaceEachConcat(text, Singletons(cs), lits, [sep]);
    ReplaceEachSingletons(text, cs, [sep]);
    var mid := Substitute(text, cs, [sep]);
    SubstituteConfines(text, cs, sep);
    ReplaceEachKeepsConfined(mid, lits, [sep], cs, sep);
  }

  /** On text without a backslash, and with a separator other than a backslash,
      the space and symbol passes act character by character: the six ASCII spaces
      become the separator, listed symbols are deleted, and every other character
      (letters of any script, digits, '_' and '-') is kept as it is. */
  lemma CharacterwisePasses(t: string, sep: char)
    requires '\\' !in t && sep != '\\'
    ensures SymbolsRemoved(SpacesReplaced(t, sep))
            == Substitute(Substitute(t, AsciiSpaces, [sep]), SymbolList, "")
  {
    var mid := Substitute(t, AsciiSpaces, [sep]);
    CharacterwiseSpaces(t, AsciiSpaces, EscapeLiterals, sep);
    SymbolsRemovedIsDeletion(mid);
  }

  lemma CharacterwiseSpaces(t: string, cs: string, lits: seq<string>, sep: char)
    requires '\\' !in t && sep != '\\'
    requires forall i :: 0 <= i < |lits| ==> lits[i] != [] && lits[i][0] == '\\'
    ensures ReplaceEach(t, Singletons(cs) + lits, [sep]) == Substitute(t, cs, [sep])
  {
    ReplaceEachConcat(t, Singletons(cs), lits, [sep]);
    ReplaceEachSingletons(t, cs, [sep]);
    SubstituteKeepsConfined(t, cs, [sep], "\\", sep);
    assert '\\' !in Substitute(t, cs, [sep]);
    BackslashLiteralsAbsent(Substitute(t, cs, [sep]), lits, [sep]);
  }

  // ---------------------------------------------------------------------------
  // cleanMultipleSeparators and trim

  predicate NoRepeatedSeparator(s: string, sep: char) {
    forall i :: 0 <= i < |s| - 1 ==> !(s[i] == sep && s[i + 1] == sep)
  }

  /** The characters of s that are not in cs, in order. */
  function Without(s: string, cs: string): string {
    if s == [] then [] else (if s[0] in cs then [] else [s[0]]) + Without(s[1..], cs)
  }

  lemma {:induction false} WithoutConcat(x: string, y: string, cs: string)
    ensures Without(x + y, cs) == Without(x, cs) + Without(y, cs)
  {
    if x != [] {
      assert (x + y)[1..] == x[1..] + y;
      WithoutConcat(x[1..], y, cs);
    } else {
      assert x + y == y;
    }
  }

  /** preg_replace('/sep+/', sep, s): every run of separators becomes one. */
  function Collapse(s: string, sep: char): string {
    if |s| <= 1 then s
    else if s[0] == sep && s[1] == sep then Collapse(s[1..], sep)
    else [s[0]] + Collapse(s[1..], sep)
  }

  /** Collapsing leaves no two separators in a row, is no longer than the text,
      and keeps its first and last character. */
  lemma {:induction false} CollapseShape(s: string, sep: char)
    ensures NoRepeatedSeparator(Collapse(s, sep), sep)
    ensures |Collapse(s, sep)| <= |s|
    ensures s != [] ==> Collapse(s, sep) != [] && Collapse(s, sep)[0] == s[0]
                        && Collapse(s, sep)[|Collapse(s, sep)| - 1] == s[|s| - 1]
  {
    if |s| > 1 {
      CollapseShape(s[1..], sep);
      var rest := Collapse(s[1..], sep);
      if !(s[0] == sep && s[1] == sep) {
        assert ([s[0]] + rest)[1..] == rest;
      }
    }
  }

  /** Collapsing adds no character and drops only separators. */
  lemma {:induction false} CollapseContents(s: string, sep: char)
    ensures forall i :: 0 <= i < |Collapse(s, sep)| ==> Collapse(s, sep)[i] in s
    ensures Without(Collapse(s, sep), [sep]) == Without(s, [sep])
  {
    if |s| > 1 {
      CollapseContents(s[1..], sep);
      var rest := Collapse(s[1..], sep);
      if !(s[0] == sep && s[1] == sep) {
        assert ([s[0]] + rest)[1..] == rest;
        assert s == [s[0]] + s[1..];
      }
    }
  }

  /** Text without a run of separators is left as it is. */
  lemma {:induction false} CollapseUnchanged(s: string, sep: char)
    requires NoRepeatedSeparator(s, sep)
    ensures Collapse(s, sep) == s
  {
    if |s| > 1 {
      CollapseUnchanged(s[1..], sep);
      assert s == [s[0]] + s[1..];
    }
  }

  /** Collapsing leaves no two separators in a row, keeps the first and last
      character and every non-separator character in order, adds no character,
      and changes nothing when there was no run to collapse. */
  lemma CollapseProperties(s: string, sep: char)
    ensures NoRepeatedSeparator(Collapse(s, sep), sep)
    ensures |Collapse(s, sep)| <= |s|
    ensures s != [] ==> Collapse(s, sep) != [] && Collapse(s, sep)[0] == s[0]
                        && Collapse(s, sep)[|Collapse(s, sep)| - 1] == s[|s| - 1]
    ensures forall i :: 0 <= i < |Collapse(s, sep)| ==> Collapse(s, sep)[i] in s
    ensures Without(Collapse(s, sep), [sep]) == Without(s, [sep])
    ensures NoRepeatedSeparator(s, sep) ==> Collapse(s, sep) == s
  {
    CollapseShape(s, sep);
    CollapseContents(s, sep);
    if NoRepeatedSeparator(s, sep) {
      CollapseUnchanged(s, sep);
    }
  }

  /** Drops leading separators. */
  function TrimStart(s: string, sep: char): string {
    if s != [] && s[0] == sep then TrimStart(s[1..], sep) else s
  }

  /** Drops trailing separators. */
  function TrimEnd(s: string, sep: char): string {
    if s != [] && s[|s| - 1] == sep then TrimEnd(s[..|s| - 1], sep) else s
  }

  /** trim($s, $sep) for a one-character separator. */
  function Trim(s: string, sep: char): string {
    TrimEnd(TrimStart(s, sep), sep)
  }

  /** TrimStart cuts the k leading characters, all separators, and leaves no
      separator in front. */
  lemma {:induction false} TrimStartProperties(s: string, sep: char) returns (k: nat)
    ensures k <= |s| && TrimStart(s, sep) == s[k..]
    ensures forall j :: 0 <= j < k ==> s[j] == sep
    ensures TrimStart(s, sep) == [] || TrimStart(s, sep)[0] != sep
  {
    if s != [] && s[0] == sep {
      var m := TrimStartProperties(s[1..], sep);
      k := m + 1;
      assert s[1..][m..] == s[k..];
      forall j | 0 <= j < k
        ensures s[j] == sep
      {
        if j > 0 {
          assert s[j] == s[1..][j - 1];
        }
      }
    } else {
      k := 0;
    }
  }

  /** TrimEnd keeps the first k characters, cuts only separators, and leaves no
      separator at the end. */
  lemma {:induction false} TrimEndProperties(s: string, sep: char) returns (k: nat)
    ensures k <= |s| && TrimEnd(s, sep) == s[..k]
    ensures forall j :: k <= j < |s| ==> s[j] == sep
    ensures TrimEnd(s, sep) == [] || TrimEnd(s, sep)[|TrimEnd(s, sep)| - 1] != sep
  {
    if s != [] && s[|s| - 1] == sep {
      var t := s[..|s| - 1];
      k := TrimEndProperties(t, sep);
      assert t[..k] == s[..k];
      forall j | k <= j < |s|
        ensures s[j] == sep
      {
        if j < |s| - 1 {
          assert s[j] == t[j];
        }
      }
    } else {
      k := |s|;
    }
  }

  /** Trimming cuts a slice out of the text, with only separators cut away, and
      neither end of the slice is a separator. */
  lemma TrimSlice(c: string, sep: char) returns (a: nat, b: nat)
    ensures a <= b <= |c| && Trim(c, sep) == c[a..b]
    ensures forall j :: 0 <= j < a ==> c[j] == sep
    ensures forall j :: b <= j < |c| ==> c[j] == sep
    ensures Trim(c, sep) == [] || (Trim(c, sep)[0] != sep && Trim(c, sep)[|Trim(c, sep)| - 1] != sep)
  {
    a := TrimStartProperties(c, sep);
    var u := c[a..];
    var k := TrimEndProperties(u, sep);
    b := a + k;
    assert u[..k] == c[a..b];
    forall j | b <= j < |c|
      ensures c[j] == sep
    {
      assert c[j] == u[j - a];
    }
    if Trim(c, sep) != [] {
      assert Trim(c, sep)[0] == u[0];
    }
  }

  /** The trimmed text is a slice of the text with only separators cut away on
      each side, and neither end of it is a separator. */
  lemma TrimProperties(s: string, sep: char)
    ensures var r := Trim(s, sep);
      && (r == [] || (r[0] != sep && r[|r| - 1] != sep))
      && (exists a, b :: 0 <= a <= b <= |s| && r == s[a..b]
            && (forall j :: 0 <= j < a ==> s[j] == sep) && (forall j :: b <= j < |s| ==> s[j] == sep))
  {
    var a, b := TrimSlice(s, sep);
  }

  // ---------------------------------------------------------------------------
  // generate

  /** The slug generate returns for text. */
  function Slug(text: string, sep: char, lib: TextLibrary): string {
    if PhpEmpty(text) then ""
    else Trim(Collapse(SymbolsRemoved(SpacesReplaced(lib.lower(lib.normalize(text)), sep)), sep), sep)
  }

  /** The shape every slug has: no separator at either end, no two separators in a
      row, no listed symbol, and no ASCII space other than the separator. */
  predicate WellFormedSlug(s: string, sep: char) {
    && (s == [] || (s[0] != sep && s[|s| - 1] != sep))
    && NoRepeatedSeparator(s, sep)
    && Avoids(s, SymbolList)
    && Confined(s, AsciiSpaces, sep)
  }

  lemma {:induction false} WithoutOnlySeparators(s: string, sep: char)
    requires forall j :: 0 <= j < |s| ==> s[j] == sep
    ensures Without(s, [sep]) == []
  {
    if s != [] {
      WithoutOnlySeparators(s[1..], sep);
    }
  }

  lemma TrimKeepsNoRepeatedSeparator(c: string, sep: char)
    requires NoRepeatedSeparator(c, sep)
    ensures NoRepeatedSeparator(Trim(c, sep), sep)
  {
    var a, b := TrimSlice(c, sep);
    assert forall i :: 0 <= i < b - a ==> Trim(c, sep)[i] == c[a + i];
  }

  lemma TrimAddsNothing(c: string, sep: char)
    ensures forall i :: 0 <= i < |Trim(c, sep)| ==> Trim(c, sep)[i] in c
  {
    var a, b := TrimSlice(c, sep);
    assert forall i :: 0 <= i < b - a ==> Trim(c, sep)[i] == c[a + i];
  }

  lemma TrimWithout(c: string, sep: char)
    ensures Without(Trim(c, sep), [sep]) == Without(c, [sep])
  {
    var a, b := TrimSlice(c, sep);
    var r := c[a..b];
    assert c == c[..a] + r + c[b..];
    WithoutConcat(c[..a] + r, c[b..], [sep]);
    WithoutConcat(c[..a], r, [sep]);
    WithoutOnlySeparators(c[..a], sep);
    WithoutOnlySeparators(c[b..], sep);
  }

  lemma TrimUnchanged(c: string, sep: char)
    requires c == [] || (c[0] != sep && c[|c| - 1] != sep)
    ensures Trim(c, sep) == c
  {
    var a, b := TrimSlice(c, sep);
    if c != [] {
      assert a == 0 && b == |c|;
    }
  }

  /** What trimming keeps: the ends are no longer separators, a text without
      doubled separators stays so, no character is added, the non-separator
      characters are the same, and a text whose ends are not separators is kept. */
  lemma TrimShape(c: string, sep: char)
    ensures var r := Trim(c, sep);
      && (r == [] || (r[0] != sep && r[|r| - 1] != sep))
      && (NoRepeatedSeparator(c, sep) ==> NoRepeatedSeparator(r, sep))
      && (forall i :: 0 <= i < |r| ==> r[i] in c)
      && Without(r, [sep]) == Without(c, [sep])
      && (c == [] || (c[0] != sep && c[|c| - 1] != sep) ==> r == c)
  {
    TrimProperties(c, sep);
    if NoRepeatedSeparator(c, sep) {
      TrimKeepsNoRepeatedSeparator(c, sep);
    }
    TrimAddsNothing(c, sep);
    TrimWithout(c, sep);
    if c == [] || (c[0] != sep && c[|c| - 1] != sep) {
      TrimUnchanged(c, sep);
    }
  }

  /** Collapsing then trimming (the last two steps of generate): no separator at
      either end, none doubled, no new character, the same non-separator
      characters in order, and nothing changed on text that already has this shape. */
  lemma CleanupProperties(x: string, sep: char)
    ensures var r := Trim(Collapse(x, sep), sep);
      && (r == [] || (r[0] != sep && r[|r| - 1] != sep))
      && NoRepeatedSeparator(r, sep)
      && (forall i :: 0 <= i < |r| ==> r[i] in x)
      && Without(r, [sep]) == Without(x, [sep])
      && (NoRepeatedSeparator(x, sep) && (x == [] || (x[0] != sep && x[|x| - 1] != sep)) ==> r == x)
  {
    CollapseProperties(x, sep);
    TrimShape(Collapse(x, sep), sep);
  }

  /** Collapsing and trimming introduce no character. */
  lemma CollapseTrimAvoids(x: string, sep: char, bad: string)
    requires Avoids(x, bad)
    ensures Avoids(Trim(Collapse(x, sep), sep), bad)
  {
    CleanupProperties(x, sep);
  }

  lemma CollapseTrimConfined(x: string, sep: char, cs: string)
    requires Confined(x, cs, sep)
    ensures Confined(Trim(Collapse(x, sep), sep), cs, sep)
  {
    CleanupProperties(x, sep);
  }

  lemma SlugIsWellFormed(text: string, sep: char, lib: TextLibrary)
    ensures WellFormedSlug(Slug(text, sep, lib), sep)
  {
    if !PhpEmpty(text) {
      var t := lib.lower(lib.normalize(text));
      var spaced := SpacesReplaced(t, sep);
      var removed := SymbolsRemoved(spaced);
      SymbolsRemovedIsDeletion(spaced);
      SubstituteRemovesAll(spaced, SymbolList, "");
      CollapseTrimAvoids(removed, sep, SymbolList);
      SpacesReplacedConfined(t, sep);
      SubstituteKeepsConfined(spaced, SymbolList, "", AsciiSpaces, sep);
      CollapseTrimConfined(removed, sep, AsciiSpaces);
      CleanupProperties(removed, sep);
    }
  }

  method Generate(text: string, sep: char, lib: TextLibrary) returns (slug: string)
    ensures slug == Slug(text, sep, lib)
    ensures PhpEmpty(text) ==> slug == ""
    ensures WellFormedSlug(slug, sep)
  {
    if PhpEmpty(text) {
      return "";
    }
    var t := lib.normalize(text);
    t := lib.lower(t);
    t := ReplaceSpacesAndSymbols(t, sep);
    t := Collapse(t, sep);
    slug := Trim(t, sep);
    SlugIsWellFormed(text, sep, lib);
  }

  // ---------------------------------------------------------------------------
  // Properties of generate

  /** Substituting by c changes nothing when every character of cs present is c. */
  lemma {:induction false} SubstituteFixed(s: string, cs: string, c: char)
    requires forall i :: 0 <= i < |s| ==> s[i] in cs ==> s[i] == c
    ensures Substitute(s, cs, [c]) == s
  {
    if s != [] {
      SubstituteFixed(s[1..], cs, c);
      assert [s[0]] + s[1..] == s;
    }
  }

  /** Slugging a slug gives it back, provided the text library leaves it alone
      (a slug is already lower case and normalised) and it is not "0". */
  lemma SlugIdempotent(s: string, sep: char, lib: TextLibrary)
    requires WellFormedSlug(s, sep) && sep !in SymbolList && s != "0"
    requires lib.lower(lib.normalize(s)) == s
    ensures Slug(s, sep, lib) == s
  {
    if s != "" {
      BackslashIsSymbol();
      assert '\\' !in s;
      CharacterwisePasses(s, sep);
      SubstituteFixed(s, AsciiSpaces, sep);
      SubstituteNothing(s, SymbolList, "");
      assert SymbolsRemoved(SpacesReplaced(s, sep)) == s;
      CleanupProperties(s, sep);
    }
  }

  /** Generating twice gives the same slug as generating once, except when the
      first slug is "0", which PHP's empty() treats as no text at all. */
  lemma GenerateTwice(text: string, sep: char, lib: TextLibrary)
    requires sep !in SymbolList && Slug(text, sep, lib) != "0"
    requires lib.lower(lib.normalize(Slug(text, sep, lib))) == Slug(text, sep, lib)
    ensures Slug(Slug(text, sep, lib), sep, lib) == Slug(text, sep, lib)
  {
    SlugIsWellFormed(text, sep, lib);
    SlugIdempotent(Slug(text, sep, lib), sep, lib);
  }

  /** The characters that no pass touches: ASCII letters and digits, '-', '_',
      the no-break space, and every code point from U+00C0 up to U+1FFF or from
      U+2060 on (the letters of Arabic, Bengali, Devanagari, Cyrillic, CJK, ...). */
  predicate Kept(c: char) {
    || ('a' <= c <= 'z') || ('A' <= c <= 'Z') || ('0' <= c <= '9')
    || c == '-' || c == '_' || c == '\U{00A0}'
    || (0xC0 <= c as int < 0x2000) || 0x2060 <= c as int
  }

  lemma KeptIsNotSymbol(c: char)
    requires Kept(c)
    ensures c !in SymbolList
  {
    AsciiSymbolsNotKept();
    LatinSymbolsNotKept();
    QuoteSymbolsNotKept();
    PunctuationSymbolsNotKept();
    MorePunctuationSymbolsNotKept();
  }

  lemma AsciiSymbolsNotKept()
    ensures forall i :: 0 <= i < |AsciiSymbols| ==> !Kept(AsciiSymbols[i])
  {
  }

  lemma LatinSymbolsNotKept()
    ensures forall i :: 0 <= i < |LatinSymbols| ==> !Kept(LatinSymbols[i])
  {
  }

  lemma QuoteSymbolsNotKept()
    ensures forall i :: 0 <= i < |QuoteSymbols| ==> !Kept(QuoteSymbols[i])
  {
    assert forall i :: 0 <= i < |QuoteSymbols| ==> 0x2000 <= QuoteSymbols[i] as int < 0x2060;
  }

  lemma PunctuationSymbolsNotKept()
    ensures forall i :: 0 <= i < |PunctuationSymbols| ==> !Kept(PunctuationSymbols[i])
  {
    assert forall i :: 0 <= i < |PunctuationSymbols| ==> 0x2000 <= PunctuationSymbols[i] as int < 0x2060;
  }

  lemma MorePunctuationSymbolsNotKept()
    ensures forall i :: 0 <= i < |MorePunctuationSymbols| ==> !Kept(MorePunctuationSymbols[i])
  {
    assert forall i :: 0 <= i < |MorePunctuationSymbols| ==> 0x2000 <= MorePunctuationSymbols[i] as int < 0x2060;
  }

  lemma BackslashIsSymbol()
    ensures '\\' in SymbolList
  {
    assert SymbolList[17] == '\\';
  }

  lemma {:induction false} SubstituteKept(s: string, cs: string, rep: string)
    requires forall i :: 0 <= i < |s| ==> Kept(s[i]) || s[i] in cs
    requires forall i :: 0 <= i < |rep| ==> Kept(rep[i])
    ensures forall i :: 0 <= i < |Substitute(s, cs, rep)| ==> Kept(Substitute(s, cs, rep)[i])
  {
    if s != [] {
      SubstituteKept(s[1..], cs, rep);
    }
  }

  lemma KeptNeverSymbol()
    ensures forall c :: Kept(c) ==> c !in SymbolList
  {
    forall c | Kept(c) ensures c !in SymbolList {
      KeptIsNotSymbol(c);
    }
  }

  /** Text made only of kept characters and the six ASCII spaces. */
  predicate PlainText(t: string) {
    forall c :: c in t ==> Kept(c) || c in AsciiSpaces
  }

  lemma BackslashNotPlain()
    ensures !Kept('\\') && '\\' !in AsciiSpaces
  {
  }

  lemma NoBackslash(t: string)
    requires PlainText(t)
    ensures '\\' !in t
  {
    BackslashNotPlain();
  }

  /** On text of kept characters and ASCII spaces the passes act character by character. */
  lemma PlainTextCharacterwise(t: string, sep: char)
    requires Kept(sep)
    requires PlainText(t)
    ensures SymbolsRemoved(SpacesReplaced(t, sep))
            == Substitute(Substitute(t, AsciiSpaces, [sep]), SymbolList, "")
  {
    BackslashNotPlain();
    NoBackslash(t);
    CharacterwisePasses(t, sep);
  }

  /** Text of kept characters and ASCII spaces keeps no symbol after the space pass. */
  lemma PlainTextHasNoSymbol(t: string, sep: char)
    requires Kept(sep)
    requires PlainText(t)
    ensures Substitute(Substitute(t, AsciiSpaces, [sep]), SymbolList, "") == Substitute(t, AsciiSpaces, [sep])
  {
    KeptNeverSymbol();
    KeptTextKeepsNoSymbol(t, AsciiSpaces, SymbolList, sep);
  }

  lemma KeptTextKeepsNoSymbol(t: string, spaces: string, symbols: string, sep: char)
    requires Kept(sep)
    requires forall i :: 0 <= i < |t| ==> Kept(t[i]) || t[i] in spaces
    requires forall c :: Kept(c) ==> c !in symbols
    ensures Substitute(Substitute(t, spaces, [sep]), symbols, "") == Substitute(t, spaces, [sep])
  {
    var mid := Substitute(t, spaces, [sep]);
    SubstituteKept(t, spaces, [sep]);
    SubstituteNothing(mid, symbols, "");
  }

  /** Text of kept characters and ASCII spaces: the passes only turn each space
      into the separator. */
  lemma PlainTextPasses(t: string, sep: char)
    requires Kept(sep)
    requires PlainText(t)
    ensures SymbolsRemoved(SpacesReplaced(t, sep)) == Substitute(t, AsciiSpaces, [sep])
  {
    PlainTextCharacterwise(t, sep);
    PlainTextHasNoSymbol(t, sep);
  }

  /** On text made of kept characters and ASCII spaces, generate only turns each
      space into the separator before collapsing and trimming. */
  lemma SlugOfPlainText(text: string, sep: char, lib: TextLibrary)
    requires !PhpEmpty(text) && Kept(sep)
    requires PlainText(lib.lower(lib.normalize(text)))
    ensures Slug(text, sep, lib)
            == Trim(Collapse(Substitute(lib.lower(lib.normalize(text)), AsciiSpaces, [sep]), sep), sep)
  {
    PlainTextPasses(lib.lower(lib.normalize(text)), sep);
  }

  /** Substituting cs by the separator and then dropping separators is dropping
      cs and the separator. */
  lemma {:induction false} SubstituteWithout(t: string, cs: string, sep: char)
    ensures Without(Substitute(t, cs, [sep]), [sep]) == Without(t, cs + [sep])
  {
    if t != [] {
      var head := if t[0] in cs then [sep] else [t[0]];
      WithoutConcat(head, Substitute(t[1..], cs, [sep]), [sep]);
      SubstituteWithout(t[1..], cs, sep);
    }
  }

  /** On text of kept characters and ASCII spaces, the slug keeps every character
      that is neither an ASCII space nor the separator, in order, and adds only
      separators between them. */
  lemma PlainTextKeepsCharacters(text: string, sep: char, lib: TextLibrary)
    requires !PhpEmpty(text) && Kept(sep)
    requires PlainText(lib.lower(lib.normalize(text)))
    ensures Without(Slug(text, sep, lib), [sep]) == Without(lib.lower(lib.normalize(text)), AsciiSpaces + [sep])
  {
    var t := lib.lower(lib.normalize(text));
    SlugOfPlainText(text, sep, lib);
    CleanupProperties(Substitute(t, AsciiSpaces, [sep]), sep);
    SubstituteWithout(t, AsciiSpaces, sep);
  }

  lemma {:induction false} InWithout(s: string, cs: string, c: char)
    ensures c in Without(s, cs) <==> c in s && c !in cs
  {
    if s != [] {
      InWithout(s[1..], cs, c);
      assert s == [s[0]] + s[1..];
    }
  }

  lemma KeptThroughWithout(s: string, t: string, cs: string, sep: char, c: char)
    requires Without(s, [sep]) == Without(t, cs + [sep])
    requires c in t && c !in cs && c != sep
    ensures c in s
  {
    InWithout(t, cs + [sep], c);
    InWithout(s, [sep], c);
  }

  /** On text of kept characters and ASCII spaces, every character other than an
      ASCII space and the separator reaches the slug. */
  lemma PlainTextKeepsCharacter(text: string, sep: char, lib: TextLibrary, c: char)
    requires !PhpEmpty(text) && Kept(sep)
    requires PlainText(lib.lower(lib.normalize(text)))
    requires c in lib.lower(lib.normalize(text)) && c !in AsciiSpaces && c != sep
    ensures c in Slug(text, sep, lib)
  {
    PlainTextKeepsCharacters(text, sep, lib);
    KeptThroughWithout(Slug(text, sep, lib), lib.lower(lib.normalize(text)), AsciiSpaces, sep, c);
  }

  /** A real no-break space (U+00A0) is not in the space list: it is kept in the slug. */
  lemma NoBreakSpaceKept(text: string, lib: TextLibrary)
    requires !PhpEmpty(text)
    requires PlainText(lib.lower(lib.normalize(text)))
    requires '\U{00A0}' in lib.lower(lib.normalize(text))
    ensures '\U{00A0}' in Slug(text, '-', lib)
  {
    PlainTextKeepsCharacter(text, '-', lib, '\U{00A0}');
  }

  lemma ZeroBangPasses()
    ensures SymbolsRemoved(SpacesReplaced("0!", '-')) == "0"
  {
    ZeroBangHasNoBackslash();
    CharacterwisePasses("0!", '-');
    ZeroBangSpaces();
    ZeroBangSymbols();
  }

  lemma ZeroBangHasNoBackslash()
    ensures '\\' !in "0!"
  {
    var t := "0!";
    assert |t| == 2 && t[0] == '0' && t[1] == '!';
  }

  lemma ZeroBangSpaces()
    ensures Substitute("0!", AsciiSpaces, "-") == "0!"
  {
    var t := "0!";
    assert |t| == 2 && t[0] == '0' && t[1] == '!';
    SubstituteNothing(t, AsciiSpaces, "-");
  }

  lemma ZeroBangSymbols()
    ensures Substitute("0!", SymbolList, "") == "0"
  {
    assert SymbolList[0] == '!';
    KeptIsNotSymbol('0');
    assert "0!"[1..] == "!";
    assert Substitute("!", SymbolList, "") == "";
  }

  /** The exception to idempotence: "0!" slugs to "0", and "0" slugs to the empty
      string. */
  lemma GenerateTwiceZero(lib: TextLibrary)
    requires lib.lower(lib.normalize("0!")) == "0!"
    ensures Slug("0!", '-', lib) == "0"
    ensures Slug(Slug("0!", '-', lib), '-', lib) == ""
  {
    ZeroBangSlug(lib);
    assert PhpEmpty("0");
  }

  lemma ZeroBangSlug(lib: TextLibrary)
    requires lib.lower(lib.normalize("0!")) == "0!"
    ensures Slug("0!", '-', lib) == "0"
  {
    ZeroBangPasses();
    TrimUnchanged("0", '-');
  }

  /** On text with no ASCII space, no separator and no backslash, generate only
      deletes the listed symbols: no separator is introduced where a symbol was. */
  lemma SymbolsOnlyDeleted(text: string, sep: char, lib: TextLibrary)
    requires !PhpEmpty(text) && sep != '\\'
    requires '\\' !in lib.lower(lib.normalize(text))
    requires Avoids(lib.lower(lib.normalize(text)), AsciiSpaces + [sep])
    ensures Slug(text, sep, lib) == Substitute(lib.lower(lib.normalize(text)), SymbolList, "")
  {
    var t := lib.lower(lib.normalize(text));
    CharacterwisePasses(t, sep);
    SymbolsDeletedOnly(t, sep);
  }

  lemma SymbolsDeletedOnly(t: string, sep: char)
    requires Avoids(t, AsciiSpaces + [sep])
    ensures Substitute(t, AsciiSpaces, [sep]) == t
    ensures Trim(Collapse(Substitute(t, SymbolList, ""), sep), sep) == Substitute(t, SymbolList, "")
  {
    assert Avoids(t, AsciiSpaces);
    SubstituteNothing(t, AsciiSpaces, [sep]);
    var d := Substitute(t, SymbolList, "");
    assert Avoids(t, [sep]);
    SubstituteKeepsAvoids(t, SymbolList, "", [sep]);
    SeparatorFree(d, sep);
    CleanupProperties(d, sep);
  }

  lemma {:induction false} SubstituteKeepsAvoids(s: string, cs: string, rep: string, bad: string)
    requires Avoids(s, bad) && Avoids(rep, bad)
    ensures Avoids(Substitute(s, cs, rep), bad)
  {
    if s != [] {
      SubstituteKeepsAvoids(s[1..], cs, rep, bad);
    }
  }

  lemma SeparatorFree(d: string, sep: char)
    requires Avoids(d, [sep])
    ensures NoRepeatedSeparator(d, sep) && (d == [] || (d[0] != sep && d[|d| - 1] != sep))
  {
  }

  // ---------------------------------------------------------------------------
  // generateUnique and slugExists

  /** `if ($excludeId)`: a null or zero id leaves no row out of the search. */
  predicate Excluded(excludeId: Option<int>, id: int) {
    excludeId.Some? && excludeId.value != 0 && id == excludeId.value
  }

  /** slugExists: some row other than the excluded one holds slug in the column.
      The column maps each row id to its value; for a model with soft deletes
      it holds only the rows that are not trashed. */
  predicate SlugExists(column: map<int, string>, slug: string, excludeId: Option<int>) {
    exists id :: id in column && column[id] == slug && !Excluded(excludeId, id)
  }

  /** The values slugExists can find. */
  function Taken(column: map<int, string>, excludeId: Option<int>): (r: set<string>)
    ensures forall slug :: slug in r <==> SlugExists(column, slug, excludeId)
  {
    set id | id in column && !Excluded(excludeId, id) :: column[id]
  }

  /** The slug generateUnique starts from: generate's result, or "untitled" when
      that is empty() (which includes "0"). */
  function BaseSlug(text: string, sep: char, lib: TextLibrary): string {
    var s := Slug(text, sep, lib);
    if PhpEmpty(s) then "untitled" else s
  }

  /** The candidates in the order generateUnique tries them: base, base-1, base-2, ... */
  function Candidate(base: string, sep: char, n: nat): string {
    if n == 0 then base else base + [sep] + Decimal.NatToString(n)
  }

  /** Different counters give different candidates. */
  lemma CandidatesDistinct(base: string, sep: char, m: nat, n: nat)
    requires Candidate(base, sep, m) == Candidate(base, sep, n)
    ensures m == n
  {
    if m != 0 && n != 0 {
      var k := |base| + 1;
      assert Candidate(base, sep, m)[k..] == Decimal.NatToString(m);
      assert Candidate(base, sep, n)[k..] == Decimal.NatToString(n);
      Decimal.NatToStringInjective(m, n);
    }
  }

  /** slug is the first candidate from base that slugExists does not find. */
  ghost predicate FirstFree(column: map<int, string>, excludeId: Option<int>, base: string, sep: char, slug: string) {
    exists n: nat :: slug == Candidate(base, sep, n) && !SlugExists(column, slug, excludeId)
      && forall m: nat :: m < n ==> SlugExists(column, Candidate(base, sep, m), excludeId)
  }

  /** There is only one first free candidate. */
  lemma FirstFreeUnique(column: map<int, string>, excludeId: Option<int>, base: string, sep: char, s1: string, s2: string)
    requires FirstFree(column, excludeId, base, sep, s1) && FirstFree(column, excludeId, base, sep, s2)
    ensures s1 == s2
  {
    var n1: nat :| s1 == Candidate(base, sep, n1) && !SlugExists(column, s1, excludeId)
      && forall m: nat :: m < n1 ==> SlugExists(column, Candidate(base, sep, m), excludeId);
    var n2: nat :| s2 == Candidate(base, sep, n2) && !SlugExists(column, s2, excludeId)
      && forall m: nat :: m < n2 ==> SlugExists(column, Candidate(base, sep, m), excludeId);
    if n1 != n2 {
      assert false;
    }
  }

  /** A second article with the same title, once the first one's slug is stored,
      gets base-1. */
  lemma SecondCallGetsSuffixOne(column: map<int, string>, excludeId: Option<int>, base: string, sep: char, slug: string)
    requires SlugExists(column, base, excludeId)
    requires !SlugExists(column, base + [sep] + "1", excludeId)
    requires FirstFree(column, excludeId, base, sep, slug)
    ensures slug == base + [sep] + "1"
  {
    assert Decimal.NatToString(1) == "1";
    assert Candidate(base, sep, 0) == base;
    assert FirstFree(column, excludeId, base, sep, Candidate(base, sep, 1));
    FirstFreeUnique(column, excludeId, base, sep, slug, Candidate(base, sep, 1));
  }

  lemma {:induction false} SubsetCardinality<T>(a: set<T>, b: set<T>)
    requires a <= b
    ensures |a| <= |b|
    decreases |b|
  {
    if a != {} {
      var x :| x in a;
      SubsetCardinality(a - {x}, b - {x});
    }
  }

  /** The candidates probed before counter value n: the first n of them. */
  ghost function Probed(base: string, sep: char, n: nat): set<string> {
    if n == 0 then {} else Probed(base, sep, n - 1) + {Candidate(base, sep, n - 1)}
  }

  /** A later candidate is none of the earlier ones. */
  lemma {:induction false} NotProbed(base: string, sep: char, n: nat, k: nat)
    requires n <= k
    ensures Candidate(base, sep, k) !in Probed(base, sep, n)
  {
    if n > 0 {
      NotProbed(base, sep, n - 1, k);
      if Candidate(base, sep, k) == Candidate(base, sep, n - 1) {
        CandidatesDistinct(base, sep, k, n - 1);
        assert false;
      }
    }
  }

  /** The first n candidates are n different strings. */
  lemma {:induction false} ProbedSize(base: string, sep: char, n: nat)
    ensures |Probed(base, sep, n)| == n
  {
    if n > 0 {
      ProbedSize(base, sep, n - 1);
      NotProbed(base, sep, n - 1, n - 1);
    }
  }

  /** Every earlier candidate is among those probed. */
  lemma {:induction false} ProbedHolds(base: string, sep: char, n: nat, m: nat)
    requires m < n
    ensures Candidate(base, sep, m) in Probed(base, sep, n)
  {
    if m < n - 1 {
      ProbedHolds(base, sep, n - 1, m);
    }
  }

  /** Once every probed candidate was found taken, a free candidate is the first free one. */
  lemma FreeAfterProbes(column: map<int, string>, excludeId: Option<int>, base: string, sep: char, n: nat)
    requires Probed(base, sep, n) <= Taken(column, excludeId)
    requires !SlugExists(column, Candidate(base, sep, n), excludeId)
    ensures FirstFree(column, excludeId, base, sep, Candidate(base, sep, n))
  {
    forall m: nat | m < n
      ensures SlugExists(column, Candidate(base, sep, m), excludeId)
    {
      ProbedHolds(base, sep, n, m);
    }
  }

  /** The probing loop of generateUnique: base, then base-1, base-2, ... until
      slugExists fails. It ends because every probe that succeeds finds a
      different value of the finite column. */
  method FirstFreeCandidate(base: string, column: map<int, string>, excludeId: Option<int>, sep: char)
    returns (slug: string)
    ensures FirstFree(column, excludeId, base, sep, slug)
    ensures !SlugExists(column, slug, excludeId)
  {
    slug := base;
    var counter: nat := 1;
    while SlugExists(column, slug, excludeId)
      invariant slug == Candidate(base, sep, counter - 1)
      invariant Probed(base, sep, counter - 1) <= Taken(column, excludeId)
      invariant counter - 1 <= |Taken(column, excludeId)|
      decreases |Taken(column, excludeId)| - (counter - 1)
    {
      assert slug in Taken(column, excludeId);
      ProbedSize(base, sep, counter);
      SubsetCardinality(Probed(base, sep, counter), Taken(column, excludeId));
      slug := base + [sep] + Decimal.NatToString(counter);
      counter := counter + 1;
    }
    FreeAfterProbes(column, excludeId, base, sep, counter - 1);
  }

  /** generateUnique: the first free candidate built on generate's slug, or on
      "untitled" when that slug is empty(). */
  method GenerateUnique(text: string, column: map<int, string>, excludeId: Option<int>, sep: char, lib: TextLibrary)
    returns (slug: string)
    ensures FirstFree(column, excludeId, BaseSlug(text, sep, lib), sep, slug)
    ensures !SlugExists(column, slug, excludeId)
  {
    var base := Generate(text, sep, lib);
    if PhpEmpty(base) {
      base := "untitled";
    }
    slug := FirstFreeCandidate(base, column, excludeId, sep);
  }

  // ---------------------------------------------------------------------------
  // hasNonLatinCharacters and detectLanguage

  /** preg_match('/[^\x00-\x7F]/') on UTF-8 text: some character is outside ASCII. */
  predicate HasNonLatinCharacters(text: string) {
    exists i :: 0 <= i < |text| && text[i] as int > 0x7F
  }

  datatype Language = Arabic | Bangla | Hindi | Chinese | Japanese | Korean | Cyrillic | Latin

  datatype ScriptRange = ScriptRange(language: Language, first: int, last: int)

  /** The ranges detectLanguage tests, in the order it tests them. */
  const ScriptRanges: seq<ScriptRange> := [
    ScriptRange(Arabic, 0x0600, 0x06FF),
    ScriptRange(Bangla, 0x0980, 0x09FF),
    ScriptRange(Hindi, 0x0900, 0x097F),
    ScriptRange(Chinese, 0x4E00, 0x9FFF),
    ScriptRange(Japanese, 0x3040, 0x309F),
    ScriptRange(Korean, 0xAC00, 0xD7AF),
    ScriptRange(Cyrillic, 0x0400, 0x04FF)]

  predicate InRange(text: string, range: ScriptRange) {
    exists i :: 0 <= i < |text| && range.first <= text[i] as int <= range.last
  }

  /** The language of the first range that text has a character in, Latin if none. */
  function FirstMatch(text: string, ranges: seq<ScriptRange>): (r: Language)
    requires forall j :: 0 <= j < |ranges| ==> ranges[j].language != Latin
    ensures r == Latin <==> forall j :: 0 <= j < |ranges| ==> !InRange(text, ranges[j])
    ensures r != Latin ==> exists j :: 0 <= j < |ranges| && ranges[j].language == r && InRange(text, ranges[j])
                                     && forall k :: 0 <= k < j ==> !InRange(text, ranges[k])
  {
    if ranges == [] then Latin
    else if InRange(text, ranges[0]) then ranges[0].language
    else
      var r := FirstMatch(text, ranges[1..]);
      assert forall j :: 1 <= j < |ranges| ==> ranges[j] == ranges[1..][j - 1];
      if r != Latin then
        var j :| 0 <= j < |ranges[1..]| && ranges[1..][j].language == r && InRange(text, ranges[1..][j])
                 && forall k :: 0 <= k < j ==> !InRange(text, ranges[1..][k]);
        assert ranges[j + 1].language == r && InRange(text, ranges[j + 1]);
        r
      else r
  }

  lemma ScriptRangesAreNotLatin()
    ensures forall j :: 0 <= j < |ScriptRanges| ==> ScriptRanges[j].language != Latin
  {
  }

  /** detectLanguage: the language of the first of the seven ranges in test
      order that text has a character in, Latin when there is none. */
  function DetectLanguage(text: string): (r: Language)
    ensures r == Latin <==> forall j :: 0 <= j < |ScriptRanges| ==> !InRange(text, ScriptRanges[j])
    ensures r != Latin ==> exists j :: 0 <= j < |ScriptRanges| && ScriptRanges[j].language == r
                                     && InRange(text, ScriptRanges[j])
                                     && forall k :: 0 <= k < j ==> !InRange(text, ScriptRanges[k])
  {
    ScriptRangesAreNotLatin();
    FirstMatch(text, ScriptRanges)
  }

  lemma InRangeIsNonAscii(text: string, range: ScriptRange)
    requires range.first > 0x7F && InRange(text, range)
    ensures HasNonLatinCharacters(text)
  {
    var i :| 0 <= i < |text| && range.first <= text[i] as int <= range.last;
  }

  lemma ScriptRangesAboveAscii()
    ensures forall k :: 0 <= k < |ScriptRanges| ==> ScriptRanges[k].first > 0x7F
  {
  }

  /** Any language other than Latin is only reported for text with a character
      outside ASCII. */
  lemma DetectedScriptIsNonLatin(text: string)
    requires DetectLanguage(text) != Latin
    ensures HasNonLatinCharacters(text)
  {
    ScriptRangesAboveAscii();
    var j :| 0 <= j < |ScriptRanges| && InRange(text, ScriptRanges[j]);
    InRangeIsNonAscii(text, ScriptRanges[j]);
  }

  /** Arabic is tested first: a text mixing Arabic and Cyrillic letters is Arabic. */
  lemma ArabicTakesPriority(text: string)
    requires InRange(text, ScriptRanges[0])
    ensures DetectLanguage(text) == Arabic
  {
  }

  /** Only Hiragana is tested for Japanese: Katakana-only text (U+30A0 to U+30FF)
      is reported as Latin although it is not ASCII. */
  lemma KatakanaIsLatin(text: string)
    requires text != [] && forall i :: 0 <= i < |text| ==> 0x30A0 <= text[i] as int <= 0x30FF
    ensures DetectLanguage(text) == Latin && HasNonLatinCharacters(text)
  {
    assert text[0] as int > 0x7F;
    forall j | 0 <= j < |ScriptRanges| ensures !InRange(text, ScriptRanges[j]) {
    }
  }
}
