/** Atom type names, shared by the cutoff pipeline and the per-type normalisation. */
module TypeNames {
  type TypeName = string

  /** The set of names in a type ordering. */
  function TypeSet(names: seq<TypeName>): set<TypeName>
  {
    set n | n in names
  }
}
