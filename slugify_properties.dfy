/**
  Properties of `slugify` (transifex/util.py:8-23) that relate its result to
  its input: which characters survive and in what order, what happens at the
  edges, when the result is empty, and that a slug is its own slug.
 */
module SlugifyProperties {
  import opened Seqs
  import opened Util

  // ----- Word characters ------------------------------------------------------

  /** Lowercasing commutes with keeping only the word characters. */
  lemma {:induction false} LowerWords(s: string)
    ensures Filter(IsWord, Lower(s)) == Lower(Filter(IsWord, s))
  {
    if s != [] {
      var c, t := s[0], s[1..];
      assert s == [c] + t;
      LowerWords(t);
      LowerCons(c, t);
      FilterConcat(IsWord, [LowerChar(c)], Lower(t));
      FilterConcat(IsWord, [c], t);
      assert IsWord(LowerChar(c)) == IsWord(c);
      if IsWord(c) {
        LowerCons(c, Filter(IsWord, t));
      }
    }
  }

  lemma LowerCons(c: char, t: string)
    ensures Lower([c] + t) == [LowerChar(c)] + Lower(t)
  {
    assert ([c] + t)[1..] == t;
  }

  /** Strip only cuts whitespace, so every word character survives it. */
  lemma StripWords(s: string)
    ensures Filter(IsWord, Strip(s)) == Filter(IsWord, s)
  {
    FilterTrim(IsSpace, IsWord, s);
  }

  /** Normalising and removing the disallowed characters keeps every word
      character of the input, in order (non-ASCII characters are not word
      characters in this model). */
  lemma PrepareWords(value: string, isPy2: bool)
    ensures Filter(IsWord, RemoveDisallowed(Normalize(value, isPy2), isPy2)) == Filter(IsWord, value)
  {
    if isPy2 {
      FilterSubsumed(IsWord, IsAscii, value);
    }
    FilterSubsumed(IsWord, KeptClass(isPy2), Normalize(value, isPy2));
  }

  /** Collapsing separator runs never touches a word character. */
  lemma CollapseWords(s: string)
    ensures Filter(IsWord, Collapse(s)) == Filter(IsWord, s)
  {
    CollapseRunsKeeps(IsSep, '-', IsWord, s);
  }

  /** The word characters of the slug are exactly the word characters of the
      input, lowercased and in their original order. Since a slug holds only
      word characters and `-`, these are all its characters but the hyphens. */
  lemma SlugifyKeepsWords(value: string, isPy2: bool)
    ensures Filter(IsWord, Slugify(value, isPy2)) == Lower(Filter(IsWord, value))
  {
    var removed := RemoveDisallowed(Normalize(value, isPy2), isPy2);
    var stripped := Strip(removed);
    PrepareWords(value, isPy2);
    StripWords(removed);
    LowerWords(stripped);
    CollapseWords(Lower(stripped));
  }

  // ----- Runs of hyphens and whitespace ---------------------------------------------

  /** A maximal run of hyphens and whitespace, wherever it stands, turns into
      exactly one `-`, and the text on either side is collapsed on its own. */
  lemma CollapseRun(a: string, run: string, b: string)
    requires run != [] && All(IsSep, run)
    requires a == [] || !IsSep(a[|a| - 1])
    requires b == [] || !IsSep(b[0])
    ensures Collapse(a + run + b) == Collapse(a) + "-" + Collapse(b)
  {
    CollapseRunsConcat(IsSep, '-', a, run);
    assert (a + run)[|a + run| - 1] == run[|run| - 1];
    CollapseRunsConcat(IsSep, '-', a + run, b);
    CollapseRunsOfRun(IsSep, '-', run);
  }

  // ----- Edges ------------------------------------------------------------------

  /** A stripped, lowercased character is a separator exactly when it was a hyphen. */
  lemma LowerSepIsHyphen(c: char)
    requires !IsSpace(c)
    ensures IsSep(LowerChar(c)) <==> c == '-'
  {
  }

  /** Lowercasing and collapsing a string without edge whitespace yields an
      edge `-` exactly where the string has an edge hyphen. */
  lemma LowerCollapseEdges(st: string)
    requires st == [] || (!IsSpace(st[0]) && !IsSpace(st[|st| - 1]))
    ensures var r := Collapse(Lower(st));
            && (r != [] && r[0] == '-' <==> st != [] && st[0] == '-')
            && (r != [] && r[|r| - 1] == '-' <==> st != [] && st[|st| - 1] == '-')
  {
    if st != [] {
      LowerSepIsHyphen(st[0]);
      LowerSepIsHyphen(st[|st| - 1]);
    }
  }

  /** The slug starts (ends) with `-` exactly when the input, once the
      disallowed characters are removed and whitespace is stripped, starts
      (ends) with `-`. So leading or trailing whitespace never yields an edge
      hyphen, while an edge hyphen of the input survives, as exactly one `-`
      (the result has no doubled hyphen). */
  lemma SlugifyEdges(value: string, isPy2: bool)
    ensures var st := Strip(RemoveDisallowed(Normalize(value, isPy2), isPy2));
            var r := Slugify(value, isPy2);
            && (r != [] && r[0] == '-' <==> st != [] && st[0] == '-')
            && (r != [] && r[|r| - 1] == '-' <==> st != [] && st[|st| - 1] == '-')
  {
    LowerCollapseEdges(Strip(RemoveDisallowed(Normalize(value, isPy2), isPy2)));
  }

  /** Hyphens at the edges are not trimmed: `-ab-` is already a slug. */
  lemma EdgeHyphensKept(isPy2: bool)
    ensures Slugify("-ab-", isPy2) == "-ab-"
  {
    var s := "-ab-";
    assert All(IsSlugChar, s);
    assert NoDoubleHyphen(s);
    SlugifyFixpoint(s, isPy2);
  }

  /** Keeping a class that holds of every character of `pre` and `post` maps
      `pre + x + post` to `pre + (what it keeps of x) + post`. */
  lemma FilterPadded(p: char -> bool, pre: string, x: string, post: string)
    requires All(p, pre) && All(p, post)
    ensures Filter(p, pre + x + post) == pre + Filter(p, x) + post
  {
    FilterConcat(p, pre + x, post);
    FilterConcat(p, pre, x);
  }

  /** Whitespace around the input changes nothing: the slug of `pre + x + post`
      is the slug of `x` when `pre` and `post` are whitespace only. */
  lemma SlugifyIgnoresOuterWhitespace(pre: string, x: string, post: string, isPy2: bool)
    requires All(IsSpace, pre) && All(IsSpace, post)
    ensures Slugify(pre + x + post, isPy2) == Slugify(x, isPy2)
  {
    NormalizePadding(pre, x, post, isPy2);
    var pre', post' := RemovedPadding(pre, Normalize(x, isPy2), post, isPy2);
    StripPadding(pre', RemoveDisallowed(Normalize(x, isPy2), isPy2), post');
  }

  /** Normalisation passes whitespace padding through. */
  lemma NormalizePadding(pre: string, x: string, post: string, isPy2: bool)
    requires All(IsSpace, pre) && All(IsSpace, post)
    ensures Normalize(pre + x + post, isPy2) == pre + Normalize(x, isPy2) + post
  {
    if isPy2 {
      assert All(IsAscii, pre) && All(IsAscii, post);
      FilterPadded(IsAscii, pre, x, post);
    }
  }

  /** Strip removes whitespace padding entirely. */
  lemma StripPadding(pre: string, y: string, post: string)
    requires All(IsSpace, pre) && All(IsSpace, post)
    ensures Strip(pre + y + post) == Strip(y)
  {
    var lead, trail := TrimSplit(IsSpace, y);
    var st := Strip(y);
    ConcatAssoc(pre, lead + st, trail);
    ConcatAssoc(pre, lead, st);
    ConcatAssoc(pre + lead + st, trail, post);
    assert pre + y + post == (pre + lead) + st + (trail + post);
    AllConcat(IsSpace, pre, lead);
    AllConcat(IsSpace, trail, post);
    TrimUnique(IsSpace, pre + lead, st, trail + post);
  }

  /** Removing the disallowed characters from whitespace-padded text leaves
      the removal of the text itself, padded with (what remains of) the
      whitespace. */
  lemma RemovedPadding(pre: string, n: string, post: string, isPy2: bool)
      returns (pre': string, post': string)
    requires All(IsSpace, pre) && All(IsSpace, post)
    ensures All(IsSpace, pre') && All(IsSpace, post')
    ensures RemoveDisallowed(pre + n + post, isPy2) == pre' + RemoveDisallowed(n, isPy2) + post'
  {
    var k := KeptClass(isPy2);
    pre', post' := Filter(k, pre), Filter(k, post);
    FilterConcat(k, pre + n, post);
    FilterConcat(k, pre, n);
    FilterWithin(k, IsSpace, pre);
    FilterWithin(k, IsSpace, post);
  }

  // ----- Empty result ----------------------------------------------------------------

  /** A string of kept characters is all whitespace exactly when it holds no
      word character and no hyphen. */
  lemma KeptBlank(s: string)
    requires All(IsKept, s)
    ensures All(IsSpace, s) <==> Filter(IsWordOrHyphen, s) == []
  {
    assert forall i :: 0 <= i < |s| ==> (IsSpace(s[i]) <==> !IsWordOrHyphen(s[i]));
  }

  /** After normalising and removing the disallowed characters only
      whitespace is left exactly when the input has no word character and no
      hyphen. */
  lemma PrepareBlank(value: string, isPy2: bool)
    ensures All(IsSpace, RemoveDisallowed(Normalize(value, isPy2), isPy2)) <==>
      forall i :: 0 <= i < |value| ==> !IsWordOrHyphen(value[i])
  {
    var n := Normalize(value, isPy2);
    var removed := RemoveDisallowed(n, isPy2);
    if isPy2 {
      FilterSubsumed(IsWordOrHyphen, IsAscii, value);
    }
    FilterSubsumed(IsWordOrHyphen, KeptClass(isPy2), n);
    KeptBlank(removed);
  }

  /** Strip leaves nothing exactly when there is nothing but whitespace. */
  lemma StripBlank(s: string)
    ensures Strip(s) == [] <==> All(IsSpace, s)
  {
    if Strip(s) == [] {
      var lead, trail := TrimSplit(IsSpace, s);
      assert s == lead + trail;
      AllConcat(IsSpace, lead, trail);
    }
    if All(IsSpace, s) {
      assert s + [] + [] == s;
      TrimUnique(IsSpace, s, [], []);
    }
  }

  /** The slug is empty exactly when the input has no word character and no
      hyphen (the empty string, whitespace only, punctuation only such as
      `%@$`, ...). */
  lemma SlugifyEmpty(value: string, isPy2: bool)
    ensures Slugify(value, isPy2) == [] <==>
      forall i :: 0 <= i < |value| ==> !IsWordOrHyphen(value[i])
  {
    var removed := RemoveDisallowed(Normalize(value, isPy2), isPy2);
    PrepareBlank(value, isPy2);
    StripBlank(removed);
  }

  // ----- Idempotence ----------------------------------------------------------------

  /** Normalising and removing disallowed characters leave a slug unchanged. */
  lemma PrepareSlug(s: string, isPy2: bool)
    requires All(IsSlugChar, s)
    ensures RemoveDisallowed(Normalize(s, isPy2), isPy2) == s
  {
    assert All(IsAscii, s);
    assert All(IsByteKept, s);
  }

  /** Strip leaves a slug unchanged: it has no whitespace to cut. */
  lemma StripSlug(s: string)
    requires All(IsSlugChar, s)
    ensures Strip(s) == s
  {
    assert [] + s + [] == s;
    assert s == [] || (!IsSpace(s[0]) && !IsSpace(s[|s| - 1]));
    TrimUnique(IsSpace, [], s, []);
  }

  /** Lowercasing leaves a slug unchanged: it has no upper-case letter. */
  lemma LowerSlug(s: string)
    requires All(IsSlugChar, s)
    ensures Lower(s) == s
  {
    assert forall i :: 0 <= i < |s| ==> LowerChar(s[i]) == s[i];
  }

  /** Every step before the collapse leaves a slug unchanged. */
  lemma SlugUntilCollapse(s: string, isPy2: bool)
    requires All(IsSlugChar, s)
    ensures Lower(Strip(RemoveDisallowed(Normalize(s, isPy2), isPy2))) == s
  {
    PrepareSlug(s, isPy2);
    StripSlug(s);
    LowerSlug(s);
  }

  /** The collapse leaves a string of slug characters unchanged exactly when
      it has no doubled hyphen. */
  lemma CollapseSlug(s: string)
    requires All(IsSlugChar, s)
    ensures Collapse(s) == s <==> NoDoubleHyphen(s)
  {
    assert forall i :: 0 <= i < |s| && IsSep(s[i]) ==> s[i] == '-';
    assert NoAdjacent(IsSep, s) <==> NoDoubleHyphen(s);
    CollapseRunsFixpoint(IsSep, '-', s);
  }

  /** Slugify leaves a string unchanged exactly when it already is a slug:
      lower-case letters, digits, `_` and `-` only, and no doubled hyphen. */
  lemma SlugifyFixpoint(s: string, isPy2: bool)
    ensures Slugify(s, isPy2) == s <==> All(IsSlugChar, s) && NoDoubleHyphen(s)
  {
    if All(IsSlugChar, s) {
      SlugUntilCollapse(s, isPy2);
      CollapseSlug(s);
    }
  }

  /** A slug is its own slug, whichever interpreter computes either one. */
  lemma SlugifyIdempotent(value: string, isPy2: bool, isPy2Again: bool)
    ensures Slugify(Slugify(value, isPy2), isPy2Again) == Slugify(value, isPy2)
  {
    SlugifyFixpoint(Slugify(value, isPy2), isPy2Again);
  }

  // ----- The interpreters differ on FS, GS, RS and US -------------------------------

  /** A word character that lowercasing leaves alone. */
  predicate IsLowerWord(c: char) {
    IsWord(c) && !IsUpper(c)
  }

  /** `s` is a lower-case word character, one of FS, GS, RS, US (0x1C-0x1F),
      and another lower-case word character. */
  predicate ControlBetweenWords(s: string) {
    |s| == 3 && IsLowerWord(s[0]) && 28 <= s[1] as int <= 31 && IsLowerWord(s[2])
  }

  /** Stripping and lowercasing leave such a string alone. */
  lemma StripLowerControl(s: string)
    requires ControlBetweenWords(s)
    ensures Lower(Strip(s)) == s
  {
    ControlCharacters(s);
    StripUnpadded(s);
    LowerUnchanged(s);
  }

  /** Such a string is ASCII, has no edge whitespace and no upper-case
      letter, and only its middle character is outside Python 2's kept class. */
  lemma ControlCharacters(s: string)
    requires ControlBetweenWords(s)
    ensures !IsSpace(s[0]) && !IsSpace(s[|s| - 1])
    ensures forall i :: 0 <= i < |s| ==> !IsUpper(s[i])
    ensures All(IsAscii, s)
    ensures IsByteKept(s[0]) && !IsByteKept(s[1]) && IsByteKept(s[2])
  {
    forall i | 0 <= i < |s| ensures !IsUpper(s[i]) {
      if i == 1 {
        assert 28 <= s[i] as int <= 31;
      } else {
        assert IsLowerWord(s[i]);
      }
    }
  }

  /** Strip leaves a string without edge whitespace unchanged. */
  lemma StripUnpadded(s: string)
    requires s == [] || (!IsSpace(s[0]) && !IsSpace(s[|s| - 1]))
    ensures Strip(s) == s
  {
    assert [] + s + [] == s;
    TrimUnique(IsSpace, [], s, []);
  }

  /** Lowercasing leaves a string without upper-case letters unchanged. */
  lemma LowerUnchanged(s: string)
    requires forall i :: 0 <= i < |s| ==> !IsUpper(s[i])
    ensures Lower(s) == s
  {
  }

  /** Under Python 3 the control separator collapses to `-`. */
  lemma CollapseControl(s: string)
    requires ControlBetweenWords(s)
    ensures Collapse(s) == [s[0], '-', s[2]]
  {
    assert s == [s[0]] + [s[1]] + [s[2]];
    CollapseRun([s[0]], [s[1]], [s[2]]);
    CollapseSlug([s[0]]);
    CollapseSlug([s[2]]);
  }

  /** A string whose removal step already leaves a slug slugifies to it. */
  lemma RemovedToSlug(s: string, isPy2: bool, t: string)
    requires RemoveDisallowed(Normalize(s, isPy2), isPy2) == t
    requires All(IsSlugChar, t) && NoDoubleHyphen(t)
    ensures Slugify(s, isPy2) == t
  {
    StripSlug(t);
    LowerSlug(t);
    CollapseSlug(t);
  }

  /** FS, GS, RS and US are whitespace to Python 3: between two lower-case
      word characters such a character becomes a hyphen. */
  lemma ControlSeparatorText(s: string)
    requires ControlBetweenWords(s)
    ensures Slugify(s, false) == [s[0], '-', s[2]]
  {
    assert All(IsKept, s);
    assert RemoveDisallowed(Normalize(s, false), false) == s;
    StripLowerControl(s);
    CollapseControl(s);
  }

  /** Python 2's byte regex does not count FS, GS, RS and US as whitespace, so
      the removal step deletes such a character between two lower-case word
      characters. */
  lemma ControlSeparatorBytes(s: string)
    requires ControlBetweenWords(s)
    ensures Slugify(s, true) == [s[0], s[2]]
  {
    RemoveControlBytes(s);
    var t := [s[0], s[2]];
    assert All(IsSlugChar, t) && NoDoubleHyphen(t);
    RemovedToSlug(s, true, t);
  }

  /** The Python 2 removal step deletes the control separator. */
  lemma RemoveControlBytes(s: string)
    requires ControlBetweenWords(s)
    ensures RemoveDisallowed(Normalize(s, true), true) == [s[0], s[2]]
  {
    ControlCharacters(s);
    assert Normalize(s, true) == s;
    assert KeptClass(true) == IsByteKept;
    assert s == [s[0]] + [s[1]] + [s[2]];
    FilterConcat(IsByteKept, [s[0]] + [s[1]], [s[2]]);
    FilterConcat(IsByteKept, [s[0]], [s[1]]);
    FilterOne(IsByteKept, s[0]);
    FilterOne(IsByteKept, s[1]);
    FilterOne(IsByteKept, s[2]);
    assert [s[0]] + [] + [s[2]] == [s[0], s[2]];
  }
}
