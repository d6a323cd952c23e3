/** Values shared by the parts of the suggestion manager. */
module Types {

  /** `AIMode`: which task one generation call performs. */
  datatype Mode = Generation | Explain | Diagnose

  /** `AISuggestion`: a command and its (possibly empty) description. */
  datatype Suggestion = Suggestion(command: string, description: string)

  /** A SuggestionSet holds at most this many entries. */
  const MaxSuggestions: nat := 5
}
