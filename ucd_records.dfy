/** The repertoire the table generator reads: one record per codepoint,
    in ascending codepoint order, so that a record's position is its
    codepoint. */
module UcdRecords {

  datatype Option<T> = None | Some(value: T)

  datatype Result<T, E> = Ok(value: T) | Err(error: E)

  /** The fields of one repertoire record that the generator looks at. */
  datatype Row = Row(
    gc: string,            // General_Category tag, e.g. "Lu"
    ccc: nat,              // Canonical_Combining_Class
    bmg: Option<nat>,      // Bidi_Mirroring_Glyph; None when the field is empty
    sc: string,            // Script tag, e.g. "Latn"
    dt: string,            // Decomposition_Type, e.g. "can"
    dm: Option<seq<nat>>,  // Decomposition_Mapping; None when it is "#" (the codepoint itself)
    compEx: bool)          // Full_Composition_Exclusion ("Comp_Ex" is "Y")
}
