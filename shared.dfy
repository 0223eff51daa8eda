/**
 * Name sanitising.  Snake-casing and the replacement of Rust keywords are
 * helpers outside this model; they are taken as given functions.
 */
module Shared {

  datatype Naming = Naming(snakeCase: string -> string, keywordReplace: string -> string)
  {
    /** The Rust identifier generated for a GraphQL name: snake-cased, then keyword-replaced. */
    function RustName(graphqlName: string): (r: string)
    {
      keywordReplace(snakeCase(graphqlName))
    }
  }
}
