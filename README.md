# Slug normaliser of the Transifex client

The Transifex API client derives a default resource slug from a file name
with `slugify` (`transifex/util.py`). The function turns arbitrary text into a
URL-safe identifier in four steps:

1. convert the value to text, apply Unicode NFKD normalisation and, under
   Python 2 only, drop every character that is not ASCII;
2. delete every character that is neither a word character, nor whitespace,
   nor `-`;
3. strip leading and trailing whitespace, then lowercase;
4. replace every maximal run of hyphens and whitespace by a single `-`.

This project models that function in Dafny and proves what its result looks
like and how it relates to its input.

- `seqs.dfy` (module `Seqs`) defines the three sequence operations the
  pipeline is built from, over an arbitrary element class: `Filter` (removal
  of a character class), `Trim` (`str.strip`) and `CollapseRuns` (replacement
  of `[class]+` by one character), with their algebra (concatenation,
  uniqueness of the trim, run-by-run collapsing, fixpoints).
- `util.dfy` (module `Util`) gives the character classes on ASCII (`\w`,
  `\s` / `str.isspace`, `str.lower`), each pipeline step, and `Slugify`
  itself. Whitespace differs between the interpreters: Python 3 text counts
  FS, GS, RS and US (0x1C-0x1F) as whitespace, while the Python 2 byte string
  left by `encode('ascii', 'ignore')` does not. So the removal step under
  Python 2 keeps only the byte class and deletes those four characters.
  After that step the two whitespace classes agree, and strip and collapse
  use one definition for both interpreters (`Util.SlugifyByteClasses`).
- `slugify_properties.dfy` (module `SlugifyProperties`) proves the end-to-end
  properties: which characters survive and in what order, the edges, when the
  result is empty, insensitivity to surrounding whitespace, and idempotence.

The interpreter switch `is_py2` becomes the parameter `isPy2` of
`Util.Normalize`, `Util.RemoveDisallowed` and `Util.Slugify`.

`strip()` removes only whitespace and runs before the hyphen collapse, so
edge hyphens survive: `-ab-` stays `-ab-` (`SlugifyProperties.SlugifyEdges`,
`SlugifyProperties.EdgeHyphensKept`).

## Model

| member | source | states |
|---|---|---|
| Util.Normalize | transifex/util.py:18-21 | under Python 2 only ASCII characters remain; under Python 3 the text is unchanged; ASCII text is unchanged under both; never longer |
| Util.RemoveDisallowed | transifex/util.py:20-22 | only word characters, whitespace and `-` remain, and under Python 2 only byte-string whitespace (FS, GS, RS, US are removed); a string made of those alone is unchanged; never longer |
| Seqs.FilterWithin | transifex/util.py:22 | removal only deletes characters, so any class holding of the whole input holds of the result |
| Seqs.Filter | transifex/util.py:22 | the kept elements are all in the class; the result is empty exactly when the input has no element of the class; an input wholly in the class is unchanged |
| Seqs.FilterConcat | transifex/util.py:22 | removal distributes over concatenation |
| Seqs.FilterSubsumed | transifex/util.py:20-22 | keeping a narrower class after a wider one is the same as keeping the narrower class alone |
| Util.Strip | transifex/util.py:22 | the result neither starts nor ends with whitespace; never longer |
| Seqs.Trim | transifex/util.py:22 | the result neither starts nor ends with an element of the class |
| Seqs.TrimSplit | transifex/util.py:22 | the input is a whitespace prefix, the stripped result and a whitespace suffix, in that order: strip removes nothing else |
| Seqs.TrimWithin | transifex/util.py:22 | strip only removes characters, so any class holding of the whole input holds of the result |
| Seqs.FilterTrim | transifex/util.py:22 | strip removes no element outside its class: any filter by a disjoint class gives the same result before and after |
| Seqs.TrimAgree | transifex/util.py:22 | two whitespace classes that judge every character of the input alike strip it alike |
| Seqs.TrimUnique | transifex/util.py:22 | any split into whitespace, a core without edge whitespace, and whitespace determines the stripped result |
| Seqs.DropAll | transifex/util.py:22 | a string of whitespace only strips to nothing from either side |
| Seqs.DropWhileConcat | transifex/util.py:22 | dropping leading whitespace of a concatenation reaches into the second part only when the first is all whitespace |
| Seqs.DropLastWhileConcat | transifex/util.py:22 | dropping trailing whitespace of a concatenation reaches into the first part only when the second is all whitespace |
| Util.LowerChar | transifex/util.py:22 | an upper-case letter becomes the matching lower-case letter; every other character is unchanged; the result is never upper-case |
| Util.Lower | transifex/util.py:22 | same length, every character lowercased where it stands |
| Util.Collapse | transifex/util.py:23 | no whitespace and no doubled hyphen remain; empty exactly when the input is; starts (ends) with `-` exactly when the input starts (ends) with a hyphen or whitespace; never longer |
| Seqs.CollapseRuns | transifex/util.py:23 | every class element of the result is the replacement; no two class elements are adjacent; the first and last elements follow the input's first and last |
| Seqs.CollapseRunsConcat | transifex/util.py:23 | collapsing distributes over any cut that does not split a run |
| Seqs.CollapseRunsOfRun | transifex/util.py:23 | a non-empty run collapses to the single replacement |
| Seqs.CollapseRunsKeeps | transifex/util.py:23 | every element outside the class survives, in order |
| Seqs.CollapseRunsWithin | transifex/util.py:23 | every element of the result is the replacement or an element of the input outside the class |
| Seqs.CollapseRunsAgree | transifex/util.py:23 | two separator classes that judge every character of the input alike collapse it alike |
| Seqs.CollapseRunsFixpoint | transifex/util.py:23 | collapsing leaves a sequence unchanged exactly when no two class elements are adjacent and every class element already is the replacement |
| SlugifyProperties.CollapseRun | transifex/util.py:23 | a maximal run of hyphens and whitespace becomes exactly one `-`, and the text on each side is collapsed on its own |
| Util.Slugify | transifex/util.py:8-23 | the slug holds only lower-case letters, digits, `_` and `-`, never two adjacent hyphens, and is never longer than the input |
| Util.StripByteKept | transifex/util.py:21-22 | on what the Python 2 removal leaves, strip with the Python 3 class cuts exactly what the byte whitespace class cuts |
| Util.CollapseByteKept | transifex/util.py:21-23 | on that string, lowercased, collapsing with the Python 3 separator class replaces exactly the runs the byte separator class does |
| Util.SlugifyByteClasses | transifex/util.py:18-23 | under Python 2, Slugify equals the pipeline written with Python 2's byte classes throughout |
| SlugifyProperties.ControlSeparatorText | transifex/util.py:22-23 | under Python 3, FS, GS, RS or US between two lower-case word characters becomes `-` |
| SlugifyProperties.RemoveControlBytes | transifex/util.py:21-22 | under Python 2, the removal step deletes FS, GS, RS or US between two lower-case word characters |
| SlugifyProperties.ControlSeparatorBytes | transifex/util.py:21-23 | under Python 2, FS, GS, RS or US between two lower-case word characters is deleted from the slug |
| SlugifyProperties.LowerWords | transifex/util.py:22 | lowercasing commutes with keeping the word characters |
| SlugifyProperties.StripWords | transifex/util.py:22 | stripping keeps every word character, in order |
| SlugifyProperties.PrepareWords | transifex/util.py:18-22 | normalising and removing disallowed characters keep every word character, in order |
| SlugifyProperties.CollapseWords | transifex/util.py:23 | collapsing keeps every word character, in order |
| SlugifyProperties.SlugifyKeepsWords | transifex/util.py:18-23 | the word characters of the slug are exactly the input's word characters, lowercased, in their original order |
| SlugifyProperties.SlugifyEdges | transifex/util.py:22-23 | the slug starts (ends) with `-` exactly when the stripped, filtered input starts (ends) with `-`: surrounding whitespace never yields an edge hyphen; an edge hyphen of the input is kept as one |
| SlugifyProperties.EdgeHyphensKept | transifex/util.py:22-23 | `-ab-` slugifies to itself: edge hyphens are not trimmed |
| SlugifyProperties.SlugifyIgnoresOuterWhitespace | transifex/util.py:18-23 | whitespace added before and after the input does not change the slug, under either interpreter |
| SlugifyProperties.NormalizePadding | transifex/util.py:19-21 | normalisation passes whitespace padding through |
| SlugifyProperties.RemovedPadding | transifex/util.py:22 | removal maps padded text to the removal of the text, padded with whitespace |
| SlugifyProperties.StripPadding | transifex/util.py:22 | strip removes whitespace padding entirely |
| SlugifyProperties.PrepareBlank | transifex/util.py:18-22 | after normalising and removal only whitespace is left exactly when the input has no word character and no hyphen |
| SlugifyProperties.StripBlank | transifex/util.py:22 | strip leaves nothing exactly when the input is all whitespace |
| SlugifyProperties.SlugifyEmpty | transifex/util.py:18-23 | the slug is empty exactly when the input has no word character and no hyphen |
| SlugifyProperties.SlugifyFixpoint | transifex/util.py:18-23 | slugify leaves a string unchanged exactly when it has only slug characters and no doubled hyphen |
| SlugifyProperties.SlugifyIdempotent | transifex/util.py:18-23 | the slug of a slug is the slug itself, under either interpreter |

## Left out

- Unicode NFKD normalisation (transifex/util.py:19) is modelled as the identity; the Unicode decomposition tables are not part of this model. Diacritics are therefore not transliterated: under Python 3 an accented letter is dropped by the removal step instead of becoming its base letter.
- Character classes cover ASCII only. Under Python 3, `\w`, `\s`, `strip()` and `lower()` also act on non-ASCII letters, digits and spaces; the model treats every non-ASCII character as neither a word character nor whitespace, so the removal step deletes it.
- Util.Slugify: takes text; the conversion `str(value)` of an arbitrary object (transifex/util.py:18) is not modelled. The Python 2 byte string is modelled as a string of ASCII characters; its different whitespace class is modelled in the removal step.
- transifex.compat (the `is_py2` flag and the `str` alias) is not part of this model; the flag is the parameter `isPy2`.
- The API client, its HTTP requests and the tests around it are not part of this model.
