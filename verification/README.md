# Medical coding assistant: result post-processing

This project models the part of the medical coding assistant that turns a nearest-neighbour
search over a catalog of ICD-10 diagnosis codes into the list shown to the user. It covers
`MedicalCoder.suggest_codes` and `MedicalCoder.normalize_input` in `models/coding.py`.

- **Normalization** (`Coding.NormalizeInput`). The input is lower-cased. If the entity
  recognizer finds entities, the result is their texts joined by single spaces.
  Otherwise it is the whole lower-cased input.
- **Filtering** (`Coding.KeptPositions`, `Coding.Collect`). The search returns parallel
  lists: catalog row numbers `ids` and distances `dists`. A candidate is kept only if its
  row number is below the catalog size.
- **Formatting** (`Coding.FormatCode`). A code longer than three characters gets a `.`
  after its third character (`A219` becomes `A21.9`). A shorter code is unchanged.
- **Result construction**. Each kept candidate becomes a `Suggestion`. It holds the code,
  the formatted code, the description and the score. The score is the distance at the
  same position as the row number.
- **Ranking** (`Ranking.SortDesc`, applied with the key `Coding.Score`). The suggestions
  are sorted by score, highest first. The sort is stable, as Python's
  `list.sort(key=..., reverse=True)` is. `Ranking` states it for any element type and key. Distances are
  lower-is-closer, so this ranking puts the closest match last
  (`Coding.ClosestMatchComesLast`). The model reproduces this as written.

`Coding.SuggestCodes` is the loop of `suggest_codes`. It appends one suggestion per kept
candidate, then ranks the list. Its postcondition ties the result to
`SortDesc(Collect(...), Score)`. It also states the properties directly: the list is
non-increasing in score, and it is a permutation of the collected suggestions. The
suggestions with any given score keep their search order (`WithKey` is that
subsequence). Every suggestion is a catalog row named by the search, paired with its own
distance.

External parts are parameters:
- The catalog (`self.df`) is a `seq<CatalogEntry>`.
- The search output (`D`, `I`) is two sequences of equal length.
- The recognizer's entities (`doc.ents`) are character spans of the lower-cased text.
- Scores are integers. They stand for the rounded distance in thousandths.

`Text` holds ASCII lower-casing and `' '.join`. `Ranking` holds the stable sort.

## Model

| member | source | states |
|---|---|---|
| `Text.LowerIsLower` | models/coding.py:21-23 | lower-casing leaves no upper-case letter, is idempotent, and changes no string that is already lower-case |
| `Text.LowerAt` | models/coding.py:21 | lower-casing works character by character: each character is lower-cased where it stands |
| `Text.JoinAt` | models/coding.py:23 | `sep.join(parts)` holds each part at its offset. A separator follows every part but the last, and nothing follows the last part |
| `Text.JoinWithSpaceAt` | models/coding.py:23 | `' '.join(parts)` holds each part at its offset, followed by a single space unless it is the last part, which ends the string |
| `Text.JoinIsLower` | models/coding.py:23 | joining lower-case parts with a lower-case separator gives a lower-case string |
| `Text.JoinNonEmpty` | models/coding.py:23 | a join that contains a non-empty part is non-empty |
| `Coding.FormatCode` | models/coding.py:39 | a code longer than 3 characters gains exactly one character, a `.` at position 3. The first three characters are kept, and removing position 3 gives back the code. A code of at most 3 characters is unchanged |
| `Coding.FormatCodeRoundTrip` | models/coding.py:39 | the original code can always be read back from its formatted form |
| `Coding.FormatCodeInjective` | models/coding.py:39 | two different codes never get the same formatted code |
| `Coding.FormatCodeExamples` | models/coding.py:39 | `A219` formats as `A21.9`; `R10` stays `R10` |
| `Coding.EntityTextsAt` | models/coding.py:22 | the k-th keyword is the text of the k-th entity span |
| `Coding.NormalizeIsLower` | models/coding.py:20-23 | the normalized text is always lower-case, in both branches |
| `Coding.NormalizeFallback` | models/coding.py:23 | with no entities, the normalized text is the lower-cased input: it has the input's length, holds no upper-case letter, and each character is the lower case of the input's character at the same place |
| `Coding.NormalizeKeepsEntities` | models/coding.py:21-23 | with entities, the normalized text holds each entity's text at its offset, in recognizer order. Neighbours are separated by a single space, and nothing follows the last entity |
| `Coding.NormalizeNonEmpty` | models/coding.py:21-23 | if no entity is empty, the normalized text is empty exactly when the input is empty and there are no entities |
| `Coding.KeptPositionsInCatalog` | models/coding.py:36-37 | there are at most as many kept positions as candidates, and each names a row inside the catalog |
| `Coding.KeptPositionsExact` | models/coding.py:36-37 | a candidate position is kept if and only if its row is below the catalog size |
| `Coding.KeptPositionsIncreasing` | models/coding.py:36-37 | kept positions stay in increasing search order |
| `Coding.KeptPositionsSpec` | models/coding.py:36-37 | the three statements above together |
| `Coding.CollectPairing` | models/coding.py:36-45 | the k-th built suggestion is the catalog row of the k-th kept candidate, paired with the distance at that same position |
| `Coding.CollectFromCatalog` | models/coding.py:38-44 | every built suggestion is some search candidate's catalog row together with that candidate's own distance |
| `Coding.AtMostCatalogSize` | models/coding.py:33-45 | when the search names each row at most once, there are no more suggestions than catalog rows |
| `Ranking.InsertDescOrdered` | models/coding.py:48 | inserting into a list ranked highest-first keeps it ranked |
| `Ranking.InsertDescPermutes` | models/coding.py:48 | insertion adds exactly the inserted element and loses nothing |
| `Ranking.InsertDescStable` | models/coding.py:48 | an inserted element goes after every element that already had its key |
| `Ranking.SortDescOrdered` | models/coding.py:48 | the sorted list is non-increasing in the key |
| `Ranking.SortDescPermutes` | models/coding.py:48 | the sorted list is a permutation of its input |
| `Ranking.SortDescStable` | models/coding.py:48 | for every key value, the elements with that key keep their input order (stable sort) |
| `Ranking.SortDescReversesIncreasing` | models/coding.py:48 | on strictly increasing keys, the highest-first sort is exactly the reversed input |
| `Ranking.EqualPairUnchanged` | models/coding.py:48 | two elements in order with equal keys are left in that order |
| `Coding.SuggestCodes` | models/coding.py:25-51 | the result is the stable highest-first ranking of the kept candidates. It holds at most as many suggestions as candidates and at most `top_n`. It is non-increasing in score and a permutation of the built list, with ties kept in search order. Every suggestion is a catalog row named by the search with its own distance |
| `Coding.RankingSpec` | models/coding.py:35-48 | the ranking of the built suggestions has at most one entry per candidate. It is non-increasing in score, a permutation, stable, and made only of catalog rows named by the search, each with its own distance |
| `Coding.ClosestMatchComesLast` | models/coding.py:33-48 | when the search reports rows in the catalog at strictly increasing distances (best first), the ranking is the reversed search order and the best match is last |
| `Coding.ThreeRowExample` | models/coding.py:33-48 | rows 0, 2, 1 found at distances 0, 1, 2 are listed as rows 1, 2, 0 |
| `Coding.EqualScoresKeepOrder` | models/coding.py:48 | two candidates at equal distance keep their search order |
| `Coding.OutOfRangeDropped` | models/coding.py:36-37 | a candidate naming a row beyond the catalog is dropped; the others keep their order |

## Left out

- Model loading in `MedicalCoder.__init__` is not modelled. This covers the spaCy pipeline, the sentence embedder, the CSV catalog, the FAISS index and the embeddings file. It is I/O and foreign libraries. The catalog is a parameter instead.
- The sentence embedding and the FAISS search are not modelled. They are native, floating-point code. Their output is the `ids`/`dists` parameters. `SuggestCodes` assumes, as FAISS guarantees, that both have the same length and hold at most `top_n` candidates.
- Negative row numbers are not modelled. FAISS pads missing results with `-1`, and the guard in `suggest_codes` checks only the upper bound. So `-1` would pass the guard and reach the catalog lookup. Row numbers are `nat` here. The model does not claim that negative rows are dropped.
- `round(float(d), 3)` is not modelled. Scores are integers in thousandths, taken as already rounded.
- Only ASCII lower-casing is modelled. `Text.Lower` is `str.lower` restricted to ASCII, without Unicode case mapping.
- The entity recognizer is not modelled. Its entities are given as character spans of the lower-cased input. The model requires only that the spans lie inside the text.
- Calls to `print` are not modelled (logging only).
- `app.py` is not part of this model. It covers Flask routing, form parsing, the lazily created global coder, and passing `top_n` through unclamped. `setup.py` is not part of this model either: it downloads data files and checks whether they exist.
- Coding.AtMostCatalogSize: it requires that the search names each row at most once, as FAISS does for a flat index. A search that repeated a row could give more suggestions than catalog rows.
- Python's `list.sort` is Timsort in place. The model states the result as the stable insertion sort `Ranking.SortDesc`, which yields the same list. It does not model Timsort's steps.
