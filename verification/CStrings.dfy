/** C strings: characters up to a NUL. */
module CStrings {

  const NUL := '\0'

  /** Free of NULs, as the contents of a C string are. */
  predicate Clean(s: string) { forall i | 0 <= i < |s| :: s[i] != NUL }

  lemma CleanIs(s: string)
    ensures Clean(s) <==> '\0' !in s
  {}
}
