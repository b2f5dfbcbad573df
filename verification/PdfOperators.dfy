/** The operators of content streams by what they are for, as annex A of ISO 32000-1 lists them. */
module PdfOperators {

  predicate ConstructsPath(op: string) { op in ["m", "l", "c", "v", "y", "h", "re"] }

  predicate PaintsPath(op: string) { op in ["S", "s", "f", "F", "f*", "B", "B*", "b", "b*", "n"] }

  predicate Clips(op: string) { op in ["W", "W*"] }

  predicate MarksContent(op: string) { op in ["MP", "DP", "BMC", "BDC", "EMC"] }

  /** General and special graphics state, and colour. */
  predicate SetsState(op: string) {
    op in ["w", "J", "j", "M", "d", "ri", "i", "gs", "q", "Q", "cm",
           "CS", "cs", "SC", "SCN", "sc", "scn", "G", "g", "RG", "rg", "K", "k"]
  }

  /** Text state, which may be set outside text objects too, type 3 fonts, and compatibility. */
  predicate IsNeither(op: string) { op in ["Tc", "Tw", "Tz", "TL", "Tf", "Tr", "Ts", "d0", "d1", "BX", "EX"] }
}
