# Continuation generator of outlines: stopping test and EOS clean-up

This project models the two hooks that the unconstrained `Continuation`
generator of outlines supplies to the shared generation loop, and proves what
they promise:

- `is_finished` takes the batch of token-id rows that are still being
  generated and returns one flag per row, true exactly when the row's last
  token is the tokenizer's end-of-sequence id. It allocates an all-false flag
  array and sets entries to true through a masked assignment. In the model
  the batch is a `seq<seq<int>>`. `Continuation.FinishedFlags` is the pure
  specification. `Continuation.IsFinished` allocates the `array<bool>`, and
  `Continuation.MarkFinished` performs the masked assignment in a loop.
- `postprocess_completions` maps Python's `str.replace(eos_token, "")` over
  the decoded completions. `Replace.Remove` models `replace` as a
  left-to-right, non-overlapping removal. `Replace.ReplaceAll` is a second,
  independent definition built on the first-occurrence search `Replace.Find`.
  The two are proved equal. `Continuation.PostprocessCompletions` applies
  `Remove` to every completion.

The tokenizer's special-token fields (`eos_token`, `eos_token_id`,
`pad_token_id`, outlines/models/tokenizer.py:9-11) are the datatype
`Tokenizers.Tokenizer`. The hooks read its `eosTokenId` and `eosToken`.

Removal does not guarantee that the end-of-sequence text is gone. Removing
`"ab"` from `"aabb"` leaves `"ab"`, so removal is not idempotent either
(`Replace.RemoveMayLeaveOccurrence`). An empty end-of-sequence text leaves
every string unchanged, as Python's `replace` does.

## Model

| member | source | states |
|---|---|---|
| `Continuation.FinishedFlags` | outlines/text/generate/continuation.py:38-39 | one flag per row, and flag i is true iff the last token of row i equals the end-of-sequence id |
| `Continuation.MarkFinished` | outlines/text/generate/continuation.py:39 | the masked assignment: entry i becomes true when row i ends in the end-of-sequence id, and every other entry keeps its old value |
| `Continuation.IsFinished` | outlines/text/generate/continuation.py:23-41 | returns a fresh array whose contents are exactly `FinishedFlags` of the batch for the tokenizer's end-of-sequence id: rows that do not end in it keep the initial false |
| `Continuation.FinishedFlagsAppend` | outlines/text/generate/continuation.py:38-39 | flags are computed row by row: the flags of a concatenated batch are the concatenated flags of its parts |
| `Continuation.FinishedFlagsOnlyLastColumn` | outlines/text/generate/continuation.py:27-39 | two batches whose rows agree in their last token get the same flags, whatever their earlier tokens |
| `Continuation.EarlierEosIgnored` | outlines/text/generate/continuation.py:27-39 | an end-of-sequence id before the last column does not mark a row finished |
| `Continuation.FinishedFlagsExample` | outlines/text/generate/continuation.py:38-39 | a batch whose first row ends in the end-of-sequence id and whose second does not gives `[true, false]` |
| `Continuation.PostprocessCompletions` | outlines/text/generate/continuation.py:43-48 | one output per completion, in the same order, output i being the removal applied to completion i |
| `Continuation.PostprocessAppend` | outlines/text/generate/continuation.py:45-48 | post-processing two parts of a list separately gives the post-processed whole list |
| `Continuation.PostprocessOnlyDeletes` | outlines/text/generate/continuation.py:46 | every output is no longer than its completion and is a subsequence of it |
| `Continuation.PostprocessLength` | outlines/text/generate/continuation.py:46 | every output's length is its completion's length minus the end-of-sequence length times the number of non-overlapping occurrences removed |
| `Continuation.PostprocessUnchangedIff` | outlines/text/generate/continuation.py:46 | the list comes back unchanged iff no completion contains the end-of-sequence text; an empty end-of-sequence text changes nothing |
| `Continuation.PostprocessExample` | outlines/text/generate/continuation.py:43-48 | `["Hello<EOS>", "<EOS>World<EOS>"]` becomes `["Hello", "World"]`: every occurrence is removed, not only a trailing one |
| `Replace.Remove` | outlines/text/generate/continuation.py:46 | `str.replace(t, "")`: the result is never longer than the input |
| `Replace.Find` | outlines/text/generate/continuation.py:46 | the first-occurrence search behind `replace`: a returned index is an occurrence with none before it, and no result means the pattern does not occur |
| `Replace.RemoveIsReplaceAll` | outlines/text/generate/continuation.py:46 | the character-by-character removal equals the reference that copies up to the first occurrence, skips it and continues after it |
| `Replace.ReplaceAllLength` | outlines/text/generate/continuation.py:46 | the reference removal shortens the string by the pattern length once per occurrence it skips |
| `Replace.RemoveLength` | outlines/text/generate/continuation.py:46 | the length of the result is the input length minus the pattern length times the number of left-to-right non-overlapping occurrences |
| `Replace.RemoveUnchangedIff` | outlines/text/generate/continuation.py:46 | for a non-empty pattern, the string is returned unchanged iff the pattern does not occur in it |
| `Replace.RemoveEmptyPattern` | outlines/text/generate/continuation.py:46 | removing the empty pattern is the identity |
| `Replace.RemoveIsSubsequence` | outlines/text/generate/continuation.py:46 | the result is a subsequence of the input: characters are only deleted, never inserted or reordered |
| `Replace.RemoveMayLeaveOccurrence` | outlines/text/generate/continuation.py:46 | removing `"ab"` from `"aabb"` gives `"ab"`, which still contains the pattern and changes again if removal is repeated |

## Left out

- `Continuation.__init__` (outlines/text/generate/continuation.py:20-21) and the `continuation` factory (:51-52) only hand the model and `max_tokens` to the `Sequence` base class. The base class (outlines/text/generate/sequence.py) is not part of this model, so neither is the generation loop, the merging of finished flags or the `max_tokens` budget.
- The loop's promise that `is_finished` only sees rows that are not yet finished is an assumption of the caller. The model states what the flags are for any batch and does not model the loop that supplies it.
- The tokenizer's `encode` and `decode` (outlines/models/tokenizer.py:13-23) are abstract signatures with no behaviour. `pad_token_id` is carried in the datatype but neither hook reads it.
- NumPy mechanics (the `int64` and `bool_` dtypes, boolean-mask indexing as one vector operation) are modelled as a loop over the rows. The model's rows need not share one length, which is more general than a 2-D array.
- `Continuation.IsFinished` requires every row to have a last token, because `token_ids[:, -1]` raises `IndexError` on an array with no columns. A batch with no rows is allowed and gives no flags, so the model does not reproduce the `IndexError` that a `(0, 0)`-shaped array raises.
- The external model call, device placement and Python's Unicode string representation are not modelled; strings are sequences of `char`.
