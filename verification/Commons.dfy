/** What several modules share. */
module Commons {

  datatype Option<+T> = None | Some(value: T)

  predicate Starts(s: string, prefix: string) { |prefix| <= |s| && s[..|prefix|] == prefix }

  lemma StartsIff(s: string, prefix: string)
    ensures Starts(s, prefix) <==> exists rest :: s == prefix + rest
  {
    if Starts(s, prefix) {
      assert s == prefix + s[|prefix|..];
    }
  }
}
