/**
  The slug normaliser of `transifex/util.py`: `slugify` turns arbitrary text
  into a URL-safe identifier by

    1. normalising it (Unicode NFKD, and under Python 2 dropping every
       non-ASCII character),
    2. deleting every character that is neither a word character, nor
       whitespace, nor `-` (the substitution of `[^\w\s-]` by nothing),
    3. stripping leading and trailing whitespace, then lowercasing,
    4. replacing every run of hyphens and/or whitespace (`[-\s]+`) by one `-`.

  Each step is a total function over strings. Character classes are those of
  Python 3 regular expressions and string methods, restricted to ASCII; under
  Python 2 the removal step works on the byte string left by `encode`, whose
  narrower whitespace class it uses instead (see RemoveDisallowed and
  SlugifyByteClasses).
 */
module Util {
  import opened Seqs

  // ----- Character classes -------------------------------------------------

  predicate IsAscii(c: char) {
    c as int < 128
  }

  predicate IsUpper(c: char) {
    'A' <= c <= 'Z'
  }

  /** `\w` on ASCII: letters, digits and the underscore. */
  predicate IsWord(c: char) {
    'a' <= c <= 'z' || IsUpper(c) || '0' <= c <= '9' || c == '_'
  }

  /** Python 3 whitespace on ASCII, as both the `\s` class and `str.strip()`
      see it on text: space, TAB, LF, VT, FF, CR (9-13) and the separators FS,
      GS, RS, US (28-31). */
  predicate IsSpace(c: char) {
    c == ' ' || 9 <= c as int <= 13 || 28 <= c as int <= 31
  }

  /** The characters the removal step keeps: `[\w\s-]`. */
  predicate IsKept(c: char) {
    IsWord(c) || IsSpace(c) || c == '-'
  }

  /** Python 2 whitespace on a byte string, as both `\s` (without the UNICODE
      flag) and `str.strip()` see it: space and TAB, LF, VT, FF, CR (9-13),
      but not FS, GS, RS, US. */
  predicate IsByteSpace(c: char) {
    c == ' ' || 9 <= c as int <= 13
  }

  /** `[\w\s-]` on a Python 2 byte string. */
  predicate IsByteKept(c: char) {
    IsWord(c) || IsByteSpace(c) || c == '-'
  }

  /** `[-\s]` on a Python 2 string. */
  predicate IsByteSep(c: char) {
    c == '-' || IsByteSpace(c)
  }

  /** The characters the collapsing step replaces: `[-\s]`. */
  predicate IsSep(c: char) {
    c == '-' || IsSpace(c)
  }

  predicate IsWordOrHyphen(c: char) {
    IsWord(c) || c == '-'
  }

  /** The alphabet of a finished slug: lower-case letters, digits, `_` and `-`. */
  predicate IsSlugChar(c: char) {
    (IsWord(c) && !IsUpper(c)) || c == '-'
  }

  predicate NoSpace(s: string) {
    forall i :: 0 <= i < |s| ==> !IsSpace(s[i])
  }

  predicate NoDoubleHyphen(s: string) {
    forall i, j :: 0 <= i < |s| && 0 <= j < |s| && j == i + 1 ==> !(s[i] == '-' && s[j] == '-')
  }

  // ----- Step 1: normalisation ---------------------------------------------

  /** `unicodedata.normalize('NFKD', value)` followed, under Python 2 only, by
      `encode('ascii', 'ignore')`. NFKD is the identity on the ASCII
      characters this model classifies; the Python 2 branch keeps exactly the
      ASCII characters, in order, so on ASCII input both interpreters agree. */
  function Normalize(value: string, isPy2: bool): (r: string)
    ensures isPy2 ==> All(IsAscii, r)
    ensures !isPy2 ==> r == value
    ensures All(IsAscii, value) ==> r == value
    ensures |r| <= |value|
  {
    if isPy2 then Filter(IsAscii, value) else value
  }

  // ----- Step 2: removal of disallowed characters --------------------------

  /** The class `[\w\s-]` as the removal step sees it: Python 3's on text,
      Python 2's on the byte string produced by `encode`. */
  function KeptClass(isPy2: bool): char -> bool {
    if isPy2 then IsByteKept else IsKept
  }

  /** `re.sub('[^\w\s-]', '', value)`: only word characters, whitespace and
      hyphens remain, and a string made only of those is left unchanged. Under
      Python 2 the whitespace kept is the byte class, so FS, GS, RS and US are
      removed there. */
  function RemoveDisallowed(s: string, isPy2: bool): (r: string)
    ensures All(IsKept, r)
    ensures isPy2 ==> All(IsByteKept, r)
    ensures !isPy2 ==> All(IsKept, s) ==> r == s
    ensures All(IsByteKept, s) ==> r == s
    ensures |r| <= |s|
  {
    var r := Filter(KeptClass(isPy2), s);
    assert All(KeptClass(isPy2), r);
    assert All(IsByteKept, s) ==> All(KeptClass(isPy2), s);
    r
  }

  // ----- Step 3: strip, then lowercase ---------------------------------------

  /** `value.strip()`: removes leading and trailing whitespace, and nothing
      else (in particular not hyphens). */
  function Strip(s: string): (r: string)
    ensures |r| <= |s|
    ensures r == [] || (!IsSpace(r[0]) && !IsSpace(r[|r| - 1]))
  {
    Trim(IsSpace, s)
  }

  /** `str.lower()` on one ASCII character: upper-case letters map to the
      matching lower-case letter, everything else is left alone. */
  function LowerChar(c: char): (d: char)
    ensures !IsUpper(d)
    ensures !IsUpper(c) ==> d == c
    ensures IsUpper(c) ==> 'a' <= d <= 'z' && d as int - 'a' as int == c as int - 'A' as int
  {
    if IsUpper(c) then (c as int - 'A' as int + 'a' as int) as char else c
  }

  /** `value.lower()`: lowercases every character where it stands. */
  function Lower(s: string): (r: string)
    ensures |r| == |s|
    ensures forall i :: 0 <= i < |s| ==> r[i] == LowerChar(s[i])
  {
    if s == [] then [] else [LowerChar(s[0])] + Lower(s[1..])
  }

  /** Lowercasing what the removal step kept leaves only separators and slug
      characters. */
  lemma LowerKept(s: string)
    requires All(IsKept, s)
    ensures forall i :: 0 <= i < |s| ==> IsSep(Lower(s)[i]) || IsSlugChar(Lower(s)[i])
  {
  }

  // ----- Step 4: collapse hyphen/whitespace runs ----------------------------

  /** `re.sub('[-\s]+', '-', value)`: every maximal run of hyphens and
      whitespace becomes a single `-`, so no whitespace and no doubled hyphen
      is left; the result starts (ends) with `-` exactly when the input starts
      (ends) with a hyphen or whitespace. */
  function Collapse(s: string): (r: string)
    ensures |r| <= |s|
    ensures r == [] <==> s == []
    ensures s != [] ==> (r[0] == '-' <==> IsSep(s[0]))
    ensures s != [] ==> (r[|r| - 1] == '-' <==> IsSep(s[|s| - 1]))
    ensures NoSpace(r)
    ensures NoDoubleHyphen(r)
  {
    var r := CollapseRuns(IsSep, '-', s);
    assert forall i :: 0 <= i < |r| && IsSep(r[i]) ==> r[i] == '-';
    assert NoAdjacent(IsSep, r);
    r
  }

  // ----- The whole pipeline --------------------------------------------------

  /** `slugify(value)`; `isPy2` is the interpreter switch of line 20. The
      result uses only lower-case letters, digits, `_` and `-`, never holds two
      adjacent hyphens, and is never longer than the input. */
  function Slugify(value: string, isPy2: bool): (r: string)
    ensures All(IsSlugChar, r)
    ensures NoDoubleHyphen(r)
    ensures |r| <= |value|
  {
    var removed := RemoveDisallowed(Normalize(value, isPy2), isPy2);
    var stripped := Strip(removed);
    TrimWithin(IsSpace, IsKept, removed);
    var lowered := Lower(stripped);
    LowerKept(stripped);
    CollapseRunsWithin(IsSep, '-', IsSlugChar, lowered);
    Collapse(lowered)
  }

  /** On a string of Python 2 kept characters, Strip cuts what the byte
      whitespace class would, and keeps only such characters. */
  lemma StripByteKept(s: string)
    requires All(IsByteKept, s)
    ensures Strip(s) == Trim(IsByteSpace, s)
    ensures All(IsByteKept, Strip(s))
  {
    assert Agree(IsSpace, IsByteSpace, s);
    TrimAgree(IsSpace, IsByteSpace, s);
    TrimWithin(IsSpace, IsByteKept, s);
  }

  /** On a lowercased string of Python 2 kept characters, Collapse replaces
      the runs the byte separator class would. */
  lemma CollapseByteKept(s: string)
    requires All(IsByteKept, s)
    ensures Collapse(Lower(s)) == CollapseRuns(IsByteSep, '-', Lower(s))
  {
    var lowered := Lower(s);
    assert forall i :: 0 <= i < |s| ==> IsByteKept(lowered[i]);
    assert Agree(IsSep, IsByteSep, lowered);
    CollapseRunsAgree(IsSep, IsByteSep, '-', lowered);
  }

  /** Under Python 2 the strip and the collapse run on what the byte-class
      removal left, which holds no FS, GS, RS or US; there the Python 3 classes
      used by Strip and Collapse judge every character as the Python 2 classes
      do, so Slugify equals the pipeline written with the Python 2 classes
      throughout. */
  lemma SlugifyByteClasses(value: string)
    ensures Slugify(value, true) ==
      CollapseRuns(IsByteSep, '-', Lower(Trim(IsByteSpace, RemoveDisallowed(Normalize(value, true), true))))
  {
    var removed := RemoveDisallowed(Normalize(value, true), true);
    StripByteKept(removed);
    CollapseByteKept(Strip(removed));
  }
}
