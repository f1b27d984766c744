/** The special-token fields of the tokenizer protocol. Encoding and decoding
    are abstract in the protocol and are not part of this model. */
module Tokenizers {

  /** Identifiers fixed when a tokenizer is built: the text of the
      end-of-sequence token, its id, and the padding id. */
  datatype Tokenizer = Tokenizer(eosToken: string, eosTokenId: int, padTokenId: int)
}
