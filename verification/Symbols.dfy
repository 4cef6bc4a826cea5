/** The symbols a parser extracts from a source file. */
module Symbols {
  import opened Wrappers

  /** Source text, as UTF-8 bytes. */
  type Utf8 = seq<bv8>

  datatype Kind = Function | Method | Class | Const

  /** A named item of a source file and the bytes it spans. */
  datatype Symbol = Symbol(
    filePath: string,
    language: string,
    kind: Kind,
    name: string,
    qualifiedName: Option<string>,
    siblingNames: seq<string>,
    spanStart: nat,
    spanEnd: nat,
    blobSha: string,
    sourceText: Utf8)
}
