/** The one specification lexer.

    Every scanner of the translator and of the placeholder protocol keeps its own quote flags. Here the rules they
    share are a deterministic automaton over single characters; what differs between scanners is the dialect: which
    characters open a quoted fragment, in which of those a backslash escapes, and whether comments exist. */
module Lexer {
  datatype State =
    | Code
    | Dash                // just after a '-' outside quotes
    | Slash               // just after a '/' outside quotes
    | Quoted(quote: char)
    | Escaped(quote: char)  // just after a backslash that escapes
    | LineComment
    | BlockComment
    | Star                // just after a '*' inside a block comment
  {
    /** Outside quotes and comments. */
    predicate InCode() {
      Code? || Dash? || Slash?
    }

    predicate InQuote() {
      Quoted? || Escaped?
    }

    predicate InComment() {
      LineComment? || BlockComment? || Star?
    }
  }

  datatype Dialect = Dialect(quotes: set<char>, escaping: set<char>, comments: bool)

  const AllQuotes: set<char> := {'\'', '"', '`'}
  const StringQuotes: set<char> := {'\'', '"'}

  /** `rewrite_boolean_literals`. */
  const BooleanDialect := Dialect(AllQuotes, {}, false)
  /** `copy_quoted_fragment`, its callers, and the double-quote pre-pass. */
  const CallDialect := Dialect(AllQuotes, AllQuotes, false)
  /** `split_sql_csv`. */
  const CsvDialect := Dialect(AllQuotes, StringQuotes, false)
  /** `scan_prepare_placeholders`. */
  const PrepareDialect := Dialect(AllQuotes, StringQuotes, true)
  /** `mask_quoted_sql_fragments` and `normalize_mysql_string_literals`. */
  const LiteralDialect := Dialect(StringQuotes, StringQuotes, false)

  function Step(d: Dialect, st: State, c: char): State {
    match st
    case Quoted(q) => if c == '\\' && q in d.escaping then Escaped(q) else if c == q then Code else st
    case Escaped(q) => Quoted(q)
    case LineComment => if c == '\n' then Code else LineComment
    case BlockComment => if c == '*' then Star else BlockComment
    case Star => if c == '/' then Code else if c == '*' then Star else BlockComment
    case _ =>
      if c in d.quotes then Quoted(c)
      else if !d.comments then Code
      else if c == '#' || (c == '-' && st.Dash?) then LineComment
      else if c == '*' && st.Slash? then BlockComment
      else if c == '-' then Dash
      else if c == '/' then Slash
      else Code
  }

  /** The state reached from `st` after reading all of `s`. */
  function After(d: Dialect, st: State, s: string): State
    decreases s
  {
    if s == "" then st else After(d, Step(d, st, s[0]), s[1..])
  }

  /** The state in which the character at index `k` is read. */
  function At(d: Dialect, s: string, k: nat): State
    requires k <= |s|
  {
    After(d, Code, s[..k])
  }
}
