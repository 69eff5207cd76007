/** Values shared by every quick-phrase provider: candidates, provider outcomes,
    the input context, and the whitespace set the dictionary format uses. */
module Common {

  datatype Option<+T> = None | Some(value: T)

  /** How the host applies a candidate: `Commit` candidates are offered for
      selection, `NoneSelectionCommit` ones are inserted without a selection. */
  datatype Action = Commit | NoneSelectionCommit

  datatype Candidate = Candidate(display: string, commitText: string, action: Action)

  /** What one `populate` call produces: the candidates it passed to the
      add-candidate callback, in order, and whether later providers run. */
  datatype Outcome = Outcome(candidates: seq<Candidate>, proceed: bool)

  /** The part of the input context the providers consult: the language code of
      the active input method entry, or None when the context has no entry. */
  datatype InputContext = InputContext(imLanguage: Option<string>)

  /** Membership in FCITX_WHITESPACE ("\f\v\r\t\n "); it is also the set that
      std::isspace accepts in the C locale. */
  predicate IsWhitespace(c: char)
  {
    c == ' ' || c == '\t' || c == '\n' || c == '\r' || c == '\U{C}' || c == '\U{B}'
  }

  /** stringutils::startsWith */
  predicate StartsWith(s: string, prefix: string)
  {
    |prefix| <= |s| && s[..|prefix|] == prefix
  }
}
