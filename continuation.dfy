/** The unconstrained generator: its stopping test (`is_finished`) and the
    clean-up of decoded completions (`postprocess_completions`). */
module Continuation {
  import opened Tokenizers
  import opened Replace

  /** Every row has a last column, so that `token_ids[:, -1]` exists. */
  predicate NonEmptyRows(tokenIds: seq<seq<int>>) {
    forall i :: 0 <= i < |tokenIds| ==> |tokenIds[i]| > 0
  }

  function Last(row: seq<int>): int
    requires |row| > 0
  {
    row[|row| - 1]
  }

  /** Specification of `is_finished`: one flag per row, set exactly when the
      row's last token is the end-of-sequence id. */
  function FinishedFlags(tokenIds: seq<seq<int>>, eosTokenId: int): (flags: seq<bool>)
    requires NonEmptyRows(tokenIds)
    ensures |flags| == |tokenIds|
    ensures forall i :: 0 <= i < |tokenIds| ==> (flags[i] <==> Last(tokenIds[i]) == eosTokenId)
  {
    if tokenIds == [] then []
    else [Last(tokenIds[0]) == eosTokenId] + FinishedFlags(tokenIds[1..], eosTokenId)
  }

  /** The masked assignment: every entry whose row ends in the end-of-sequence
      id becomes true, and every other entry keeps its value. */
  method MarkFinished(flags: array<bool>, tokenIds: seq<seq<int>>, eosTokenId: int)
    requires flags.Length == |tokenIds| && NonEmptyRows(tokenIds)
    modifies flags
    ensures forall i :: 0 <= i < flags.Length ==>
      flags[i] == (old(flags[i]) || Last(tokenIds[i]) == eosTokenId)
  {
    for i := 0 to flags.Length
      invariant forall k :: 0 <= k < i ==> flags[k] == (old(flags[k]) || Last(tokenIds[k]) == eosTokenId)
      invariant forall k :: i <= k < flags.Length ==> flags[k] == old(flags[k])
    {
      if Last(tokenIds[i]) == eosTokenId {
        flags[i] := true;
      }
    }
  }

  /** `is_finished`: a fresh all-false array with one entry per row, then the
      masked assignment. */
  method IsFinished(tokenizer: Tokenizer, tokenIds: seq<seq<int>>) returns (flags: array<bool>)
    requires NonEmptyRows(tokenIds)
    ensures fresh(flags)
    ensures flags[..] == FinishedFlags(tokenIds, tokenizer.eosTokenId)
  {
    flags := new bool[|tokenIds|](_ => false);
    MarkFinished(flags, tokenIds, tokenizer.eosTokenId);
  }

  /** Flags are computed row by row, so evaluating two parts of a batch
      separately gives the flags of the whole batch. */
  lemma {:induction false} FinishedFlagsAppend(a: seq<seq<int>>, b: seq<seq<int>>, eosTokenId: int)
    requires NonEmptyRows(a) && NonEmptyRows(b)
    ensures NonEmptyRows(a + b)
    ensures FinishedFlags(a + b, eosTokenId) == FinishedFlags(a, eosTokenId) + FinishedFlags(b, eosTokenId)
  {
    assert forall i :: 0 <= i < |a + b| ==> (a + b)[i] == if i < |a| then a[i] else b[i - |a|];
  }

  /** Only the last column is inspected: batches whose rows agree in their last
      token get the same flags, whatever the earlier tokens are. */
  lemma FinishedFlagsOnlyLastColumn(a: seq<seq<int>>, b: seq<seq<int>>, eosTokenId: int)
    requires NonEmptyRows(a) && NonEmptyRows(b) && |a| == |b|
    requires forall i :: 0 <= i < |a| ==> Last(a[i]) == Last(b[i])
    ensures FinishedFlags(a, eosTokenId) == FinishedFlags(b, eosTokenId)
  {
  }

  /** An end-of-sequence id before the last column does not finish a row. */
  lemma EarlierEosIgnored(row: seq<int>, eosTokenId: int, j: nat)
    requires j < |row| - 1 && row[j] == eosTokenId && Last(row) != eosTokenId
    ensures FinishedFlags([row], eosTokenId) == [false]
  {
  }

  /** A row ending in the end-of-sequence id is finished and one that does not
      is not. */
  lemma FinishedFlagsExample()
    ensures FinishedFlags([[5, 7, 2], [2, 9]], 2) == [true, false]
  {
  }

  /** `postprocess_completions`: each completion with every occurrence of the
      end-of-sequence text removed. */
  function PostprocessCompletions(tokenizer: Tokenizer, completions: seq<string>): (r: seq<string>)
    ensures |r| == |completions|
    ensures forall i :: 0 <= i < |completions| ==> r[i] == Remove(completions[i], tokenizer.eosToken)
  {
    seq(|completions|, i requires 0 <= i < |completions| => Remove(completions[i], tokenizer.eosToken))
  }

  /** Completions are handled one by one: post-processing two parts of a list
      separately gives the post-processed whole list, in the same order. */
  lemma PostprocessAppend(tokenizer: Tokenizer, a: seq<string>, b: seq<string>)
    ensures PostprocessCompletions(tokenizer, a + b)
         == PostprocessCompletions(tokenizer, a) + PostprocessCompletions(tokenizer, b)
  {
  }

  /** Post-processing only deletes characters: each output is a subsequence
      of its completion and no longer than it. */
  lemma PostprocessOnlyDeletes(tokenizer: Tokenizer, completions: seq<string>)
    ensures forall i :: 0 <= i < |completions| ==>
      |PostprocessCompletions(tokenizer, completions)[i]| <= |completions[i]| &&
      IsSubsequence(PostprocessCompletions(tokenizer, completions)[i], completions[i])
  {
    forall i | 0 <= i < |completions|
      ensures IsSubsequence(Remove(completions[i], tokenizer.eosToken), completions[i])
    {
      RemoveIsSubsequence(completions[i], tokenizer.eosToken);
    }
  }

  /** Each output is its completion shortened by the length of the
      end-of-sequence text once per occurrence removed. */
  lemma PostprocessLength(tokenizer: Tokenizer, completions: seq<string>)
    requires |tokenizer.eosToken| > 0
    ensures forall i :: 0 <= i < |completions| ==>
      |PostprocessCompletions(tokenizer, completions)[i]|
        == |completions[i]| - |tokenizer.eosToken| * Occurrences(completions[i], tokenizer.eosToken)
  {
    forall i | 0 <= i < |completions|
      ensures |Remove(completions[i], tokenizer.eosToken)|
        == |completions[i]| - |tokenizer.eosToken| * Occurrences(completions[i], tokenizer.eosToken)
    {
      RemoveLength(completions[i], tokenizer.eosToken);
    }
  }

  /** The list comes back unchanged exactly when no completion contains the
      end-of-sequence text; an empty end-of-sequence text changes nothing. */
  lemma PostprocessUnchangedIff(tokenizer: Tokenizer, completions: seq<string>)
    ensures |tokenizer.eosToken| > 0 ==>
      (PostprocessCompletions(tokenizer, completions) == completions <==>
       forall i :: 0 <= i < |completions| ==> !Contains(completions[i], tokenizer.eosToken))
    ensures |tokenizer.eosToken| == 0 ==> PostprocessCompletions(tokenizer, completions) == completions
  {
    var r := PostprocessCompletions(tokenizer, completions);
    if |tokenizer.eosToken| > 0 {
      forall i | 0 <= i < |completions|
        ensures r[i] == completions[i] <==> !Contains(completions[i], tokenizer.eosToken)
      {
        RemoveUnchangedIff(completions[i], tokenizer.eosToken);
      }
      if r != completions {
        var i :| 0 <= i < |completions| && r[i] != completions[i];
      }
    }
  }

  lemma RemoveHelloEos()
    ensures Remove("Hello<EOS>", "<EOS>") == "Hello"
  {
    var eos := "<EOS>";
    assert Remove("<EOS>", eos) == "";
    assert Remove("o<EOS>", eos) == "o" + Remove("<EOS>", eos);
    assert Remove("lo<EOS>", eos) == "l" + Remove("o<EOS>", eos);
    assert Remove("llo<EOS>", eos) == "l" + Remove("lo<EOS>", eos);
    assert Remove("ello<EOS>", eos) == "e" + Remove("llo<EOS>", eos);
    assert Remove("Hello<EOS>", eos) == "H" + Remove("ello<EOS>", eos);
  }

  lemma RemoveWorldEos()
    ensures Remove("World<EOS>", "<EOS>") == "World"
  {
    var eos := "<EOS>";
    assert Remove("<EOS>", eos) == "";
    assert Remove("d<EOS>", eos) == "d" + Remove("<EOS>", eos);
    assert Remove("ld<EOS>", eos) == "l" + Remove("d<EOS>", eos);
    assert Remove("rld<EOS>", eos) == "r" + Remove("ld<EOS>", eos);
    assert Remove("orld<EOS>", eos) == "o" + Remove("rld<EOS>", eos);
    assert Remove("World<EOS>", eos) == "W" + Remove("orld<EOS>", eos);
  }

  lemma RemoveEosWorldEos()
    ensures Remove("<EOS>World<EOS>", "<EOS>") == "World"
  {
    var s := "<EOS>World<EOS>";
    assert s[..5] == "<EOS>" && s[5..] == "World<EOS>";
    RemoveWorldEos();
  }

  /** Every occurrence is removed, not only a trailing one. */
  lemma PostprocessExample()
    ensures PostprocessCompletions(Tokenizer("<EOS>", 2, 0), ["Hello<EOS>", "<EOS>World<EOS>"])
         == ["Hello", "World"]
  {
    RemoveHelloEos();
    RemoveEosWorldEos();
  }
}
