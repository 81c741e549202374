# nn-decoding analysis helpers: rank evaluation and output-name parsing

This project models in Dafny the two pieces of `src/util.py` that have logic of their own.

- **Rank evaluation** (`eval_ranks`). Each prediction has a similarity to every dataset item. The function ranks the items for each prediction, with 0 for the most similar. Then it reads off the rank of the item the prediction was generated from. The source does this with a double `argsort`: `orders = (-similarities).argsort(axis=1)`, `ranks = orders.argsort(axis=1)`, then `ranks[arange(N), idxs]`.
  The model takes the similarity matrix as given integer scores.
  - `Permutations.Argsort` is NumPy's `argsort` along one axis. It is an insertion sort whose contract promises only what NumPy promises: a permutation of the indices along which the keys do not decrease. The order of equal keys is left open.
  - `RankEvaluation.RankRow` applies it to the negated row and then to the resulting order, exactly as the source does.
  - `RankEvaluation.EvalRanks` does the length assertion, ranks every row and looks up the targets. NumPy's negative-index wrap-around is included.
  - The proofs show four things. The first argsort lists columns from most to least similar. The second argsort is forced to be the inverse permutation, whatever happens to ties, and equals the reference loop `rank[order[k]] := k` (`Permutations.Invert`). A strictly more similar column always gets a strictly smaller rank. A target that is uniquely most similar gets rank 0 (the "perfect decoder").
- **Output-name parsers**.
  - `get_encoding_ckpt_id` parses `^([\w_]+)-(\d+)-(\d+)$`.
  - `get_decoder_id` parses `^([\w_]+)-(\d+)-(\d+)-([\w\d]+)$`.
  - The `load_decoding_preds` file-name pattern is `\.(\w+)-run(\d+)-(\d+)-([\w\d]+)\.pred\.npy$`, read with `findall(...)[0]`.
  Each pattern is written twice. One form is a parser that splits on hyphens. The other is a reference predicate over string concatenation that says which names the regular expression matches and what its groups capture.
  - Lemmas prove the two forms accept exactly the same names with the same groups.
  - They prove that every other name raises the source's exception: `ValueError` with its message, or `IndexError` from `[0]` on an empty match list.
  - They prove round trips in both directions. Formatting and then parsing gives the identifier back. A name with canonical numbers formats back to itself.
  - Python's `$` also matches just before a final newline, and the model includes this.

Modules:
- `Wrappers`: the `Option` and `Result` types.
- `Permutations`: argsort, permutations and inverses.
- `RankEvaluation`: `eval_ranks`.
- `NameFields`: ASCII `\w`/`\d`, hyphen fields, `int`/`str` on decimal numerals, last occurrence of a character.
- `OutputNames`: the three parsers.

Where the repository's own documentation of `eval_ranks` and the code differ, the model follows the code:
- A length mismatch between predictions and indices fails with `AssertionError`, from the `assert` at line 163. It is not a distinct shape-mismatch error.
- A target index in `[-M, 0)` is not rejected. NumPy's fancy indexing counts it from the end. Only indices outside `[-M, M)` raise `IndexError`.
- The sort is NumPy's default kind, which is not stable. Nothing in the model depends on a tie-break order.

## Model

| member | source | states |
|---|---|---|
| `Permutations.Argsort` | src/util.py:178-179 | the result is a permutation of the key indices along which the keys never decrease; the order of equal keys is left open, as with NumPy's unstable default sort |
| `Permutations.InsertBackwards` | src/util.py:178 | one insertion step of the sort: the entries up to `i` are rearranged into key order, the entries after `i` are unchanged, and the array stays a permutation |
| `Permutations.ArgsortOfPermutationIsInverse` | src/util.py:179 | argsorting a permutation can only give its inverse, in both directions, so `ranks = orders.argsort()` is determined whatever the sort does |
| `Permutations.InverseIsUnique` | src/util.py:178-179 | a permutation has exactly one inverse, so the double argsort and the loop `rank[order[k]] := k` agree |
| `Permutations.Invert` | src/util.py:179 | the loop `rank[order[k]] := k` over a fresh array yields a permutation that inverts `order` both ways |
| `Permutations.PermutationCovers` | src/util.py:156-158 | a ranking row, being a permutation of 0..M-1, takes every rank in that range |
| `RankEvaluation.Negated` | src/util.py:178 | `-similarities` has the row's length and reverses its order: an entry of the negated row is no larger than another exactly when the original entry is no smaller |
| `RankEvaluation.InBounds` | src/util.py:181 | NumPy accepts an index into an axis of length M exactly when it is a column, or a column once M is added; no index is accepted on an empty axis |
| `RankEvaluation.Column` | src/util.py:181 | the column an accepted index denotes lies in [0, M), is congruent to the index modulo M, and is the index itself when the index is not negative |
| `RankEvaluation.RankRow` | src/util.py:178-179 | `orders` is a permutation listing columns by non-increasing similarity, `ranks` is its inverse (`ranks[orders[k]] == k` and back), and a strictly more similar column gets a strictly smaller rank |
| `RankEvaluation.EvalRanks` | src/util.py:162-183 | fails with AssertionError exactly when `len(idxs) != N`, otherwise with IndexError exactly when some index lies outside [-M, M); on success every row of `ranks` is a ranking of its similarity row and `ranks_test[i] == ranks[i][idxs[i]]`, negative indices counted from the end |
| `RankEvaluation.DescendingInverseIsRanking` | src/util.py:178-179 | the inverse of a most-to-least-similar order gives strictly more similar columns strictly smaller ranks |
| `RankEvaluation.TargetRankInRange` | src/util.py:181 | every `ranks_test[i]` lies in [0, M) |
| `RankEvaluation.RankZeroIsMaximal` | src/util.py:156-158 | a non-empty row has a column of rank 0, and that column is a most similar one |
| `RankEvaluation.UniqueMaximumRanksFirst` | src/util.py:178-181 | a column strictly more similar than all others has rank 0 |
| `RankEvaluation.PerfectDecoderRanksZero` | src/util.py:152-153 | when each prediction is uniquely most similar to its own target, every `ranks_test[i]` is 0 |
| `RankEvaluation.OrthonormalExample` | src/util.py:178-181 | predictions e2, e0 against the orthonormal items e0..e3 with targets [2, 0] give `ranks_test == [0, 0]` |
| `NameFields.Split` | src/util.py:127 | splitting on hyphens yields at least one field and no field contains a hyphen |
| `NameFields.SplitJoin` | src/util.py:127 | fields without hyphens, joined by hyphens, split back into the same fields, so the `[\w_]+` groups are separated unambiguously |
| `NameFields.JoinSplit` | src/util.py:127 | joining the fields of a split restores the string |
| `NameFields.DecimalValue` | src/util.py:131 | `int(ds)` for a digit string; a leading zero does not change the value |
| `NameFields.DecimalString` | src/util.py:131 | `str(n)` is a non-empty digit string without a leading zero unless it is "0" |
| `NameFields.DecimalRoundTrip` | src/util.py:131 | `int(str(n)) == n` |
| `NameFields.CanonicalDecimalRoundTrip` | src/util.py:131 | `str(int(ds)) == ds` for every digit string without a superfluous leading zero |
| `NameFields.LastIndexOf` | src/util.py:107 | the result is the position of a `c` after which no `c` occurs, or absent exactly when `c` does not occur |
| `OutputNames.BeforeFinalNewline` | src/util.py:127 | the text an anchored pattern ending in `$` must match: the name itself, or the name without its final newline exactly when it ends in one |
| `OutputNames.GetEncodingCkptId` | src/util.py:121-131 | a success carries a non-empty word model name without hyphens; a failure is the ValueError with the source's message and the directory name |
| `OutputNames.CheckpointIdAccepts` | src/util.py:127-131 | every name of the form `W-R-S` (optionally followed by one final newline) with W a word and R, S digit strings parses to `(W, int(R), int(S))` |
| `OutputNames.CheckpointIdExact` | src/util.py:126-129 | a name parses exactly when the pattern matches it, and then with the matched groups; every other name raises ValueError |
| `OutputNames.CheckpointIdRoundTrip` | src/util.py:127-131 | formatting `(W, r, s)` as `W-r-s` and parsing gives `(W, r, s)` back |
| `OutputNames.CheckpointIdFormatsBack` | src/util.py:127-131 | a matching name with canonical numbers and no final newline is reproduced by formatting its parse |
| `OutputNames.GetDecoderId` | src/util.py:134-140 | a success carries word model and subject names; a failure is IndexError |
| `OutputNames.DecoderIdAccepts` | src/util.py:139-140 | every name of the form `W-R-S-T` (optionally followed by one final newline) parses to `(W, int(R), int(S), T)` |
| `OutputNames.DecoderIdExact` | src/util.py:139 | a name parses exactly when the pattern matches it, and then with the matched groups; every other name raises IndexError |
| `OutputNames.DecoderIdRoundTrip` | src/util.py:139-140 | formatting `(W, r, s, T)` as `W-r-s-T` and parsing gives it back |
| `OutputNames.DecoderIdFormatsBack` | src/util.py:139-140 | a matching name with canonical numbers and no final newline is reproduced by formatting its parse |
| `OutputNames.ParseKeyText` | src/util.py:107 | the groups after the dot: a success carries word model and subject names, a failure is IndexError |
| `OutputNames.ParsePredictionName` | src/util.py:107-112 | the key a prediction file is stored under: a success carries word model and subject names, a failure is IndexError |
| `OutputNames.PredictionNameAccepts` | src/util.py:107-113 | every name `P.W-runR-S-T.pred.npy` (any prefix P, optionally one final newline) yields `(W, int(R), int(S), T)` |
| `OutputNames.PredictionNameSound` | src/util.py:107-112 | a name that yields a key matches the pattern with exactly those groups |
| `OutputNames.PredictionNameExact` | src/util.py:107-112 | a name yields a key exactly when the unanchored pattern matches it; every other name raises IndexError |
| `OutputNames.PredictionNameRoundTrip` | src/util.py:112-113 | whatever the prefix, a formatted prediction file name yields the key that was formatted |

## Left out

- The floating-point steps of `eval_ranks` are not modelled: the `encodings_normed` centring and row normalisation of `Y_pred` (src/util.py:167-169) and the dot-product similarity (src/util.py:175). The similarity matrix is an input of integer scores. The in-place mutation of the caller's `Y_pred` is therefore not modelled either.
- `np.dot` rejects predictions and encodings of different widths (src/util.py:175). That error is not modelled, because the similarity matrix is taken as given.
- NaN similarities and floating-point ties are not modelled. Scores are integers under their usual total order.
- `RankEvaluation.EvalRanks` assumes Python runs with assertions enabled. Under `python -O` the `assert` at src/util.py:163 disappears. Both index arrays at src/util.py:181 then have length `len(idxs)`, so nothing is broadcast. If `len(idxs) < N`, the call succeeds and returns the target ranks of the first `len(idxs)` rows only. If `len(idxs) > N`, row index `N` is out of bounds and NumPy raises `IndexError`. The model covers only the behaviour with assertions enabled.
- `RankEvaluation.EvalRanks` returns the rank matrix as a sequence of rows, not as an `N x M` ndarray. NumPy checks every index before it builds the result. The model scans the indices in order. Both fail with the same exception exactly when some index is out of range.
- `NameFields.DecimalValue`, `OutputNames.GetEncodingCkptId`, `OutputNames.GetDecoderId`, `OutputNames.ParsePredictionName`, `OutputNames.CheckpointIdAccepts`, `OutputNames.DecoderIdAccepts` and `OutputNames.PredictionNameAccepts`: the model's `int` has no digit limit. CPython 3.11 and later, and the 3.7 to 3.10 security releases, raise `ValueError("Exceeds the limit (4300 digits) ...")` for longer digit strings, outside the `try` at src/util.py:126-129 and before the returns at src/util.py:131, 140 and 113. On those interpreters a matching name with a number longer than 4300 digits raises that `ValueError`, where the model returns `Success`. This behaviour depends on the interpreter, and the pipeline's names are far shorter.
- `\w` and `\d` are modelled over ASCII only. Python 3 also lets them match non-ASCII letters and digits, and `int` accepts non-ASCII decimal digits.
- The Path-to-name conversion in the parsers is not modelled (src/util.py:125, src/util.py:138). The parsers take the name as a string.
- In `load_decoding_preds`, the glob, the `np.load` calls and the empty-result `ValueError` are I/O and are not modelled (src/util.py:108-118). Only the file-name pattern and its key are modelled.
- `load_sentences`, `load_encodings`, `load_brain_data` and `load_decoding_perfs` are file I/O over NumPy, SciPy and pandas, and are not modelled (src/util.py:24-98). This includes their PCA projections, which are float-valued library calls.
- `wilcoxon_rank_preds` (src/util.py:186-215) calls SciPy tests and pandas joins and applies a float Bonferroni factor. It is not modelled.
- `load_bert_finetune_metadata` (src/util.py:218-303) reads TensorFlow checkpoints and event files and sums float losses. It is not modelled.
- Logging, progress bars and the matplotlib setup are not modelled.
