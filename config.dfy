/** The rule-set types of config/src/lib.rs, as the cleaner receives them once loaded. */
module Config {
  import opened Wrappers

  /** A compiled regular expression. Only its source text is kept: the matching itself
      belongs to the regex crate and is a parameter of the cleaner (see `Text.Replacen`). */
  datatype Regex = Regex(source: string)

  /** One substitution rule: replace at most `limit` matches of `pattern`
      (0 meaning all of them) by the template `replacement`. */
  datatype Replace = Replace(pattern: Regex, replacement: string, limit: nat)

  /** The configuration: whether repetitions are collapsed, and the optional rule list. */
  datatype Config = Config(textRepetitions: bool, replace: Option<seq<Replace>>)
}
