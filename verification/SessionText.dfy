/** How the session layer reads the statements it handles itself. */
module SessionText {
  import opened Text
  import opened Decimal

  function TrimStartMatches(c: char, s: string): string {
    if s != "" && s[0] == c then TrimStartMatches(c, s[1..]) else s
  }

  function TrimEndMatches(c: char, s: string): string {
    if s != "" && s[|s| - 1] == c then TrimEndMatches(c, s[..|s| - 1]) else s
  }

  lemma EndStops(c: char, s: string)
    requires s != "" ==> s[|s| - 1] != c
    ensures TrimEndMatches(c, s) == s
  {
  }

  /** `trim_matches`. */
  function TrimMatches(c: char, s: string): string {
    TrimEndMatches(c, TrimStartMatches(c, s))
  }

  function Unquoted(s: string): string {
    TrimMatches('"', TrimMatches('\'', s))
  }

  /** A statement without its surrounding blanks and closing semicolons. */
  function Bare(s: string): string {
    Trim(TrimEndMatches(';', Trim(s)))
  }

  predicate NotSpace(c: char) {
    !IsSpace(c)
  }

  /** Length of the first word. */
  function TokenLength(s: string): (n: nat)
    ensures n <= |s|
  {
    SpanLength(NotSpace, s)
  }

  // ---------------------------------------------------------------------------------------------------------------
  // KILL

  /** `str::parse::<u32>`: an optional plus sign, then digits, within 32 bits. */
  function ParseU32(s: string): (r: Option<nat>)
    ensures r.Some? ==> r.value < TwoTo32
  {
    var digits := if StartsWith(s, '+') then s[1..] else s;
    if digits == "" || !IsNumeral(digits) || Value(digits) >= TwoTo32 then None else Some(Value(digits))
  }

  /** `parse_kill_connection_id`. */
  function ParseKill(query: string): (r: Option<nat>)
    ensures r.Some? ==> r.value < TwoTo32
  {
    var upper := ToUpper(Bare(query));
    if "KILL " <= upper then ParseU32(Trim(upper[5..])) else None
  }

  // ---------------------------------------------------------------------------------------------------------------
  // Database names

  /** `parse_database_name`. */
  function DatabaseName(sql: string, prefix: string): Option<string> {
    var s := Trim(sql);
    if !(prefix <= s) then None
    else
      var rest := Trim(s[|prefix|..]);
      var name := Trim(if "IF NOT EXISTS " <= rest then rest[14..]
                       else if "IF EXISTS " <= rest then rest[10..]
                       else rest);
      var ident := TrimMatches('"', TrimMatches('`', TrimMatches(';', name[..TokenLength(name)])));
      if ident == "" then None else Some(ident)
  }

  /** The prefixes are tried in two spellings only, although the caller compares without case. */
  function CreateDatabaseName(sql: string): Option<string> {
    var upper := DatabaseName(sql, "CREATE DATABASE");
    if upper.Some? then upper else DatabaseName(sql, "create database")
  }

  function DropDatabaseName(sql: string): Option<string> {
    var upper := DatabaseName(sql, "DROP DATABASE");
    if upper.Some? then upper else DatabaseName(sql, "drop database")
  }

  predicate Blank(s: string) {
    Trim(s) == ""
  }

  predicate NoSpaces(s: string) {
    forall k :: 0 <= k < |s| ==> !IsSpace(s[k])
  }

  lemma {:induction false} TrimStartMatchesKeeps(c: char, s: string)
    requires NoSpaces(s)
    ensures NoSpaces(TrimStartMatches(c, s))
  {
    if s != "" && s[0] == c {
      TrimStartMatchesKeeps(c, s[1..]);
    }
  }

  lemma {:induction false} TrimEndMatchesKeeps(c: char, s: string)
    requires NoSpaces(s)
    ensures NoSpaces(TrimEndMatches(c, s))
    decreases |s|
  {
    if s != "" && s[|s| - 1] == c {
      TrimEndMatchesKeeps(c, s[..|s| - 1]);
    }
  }

  lemma TrimMatchesKeeps(c: char, s: string)
    requires NoSpaces(s)
    ensures NoSpaces(TrimMatches(c, s))
  {
    TrimStartMatchesKeeps(c, s);
    TrimEndMatchesKeeps(c, TrimStartMatches(c, s));
  }

  lemma NoSpacesIsTrimmed(s: string)
    requires NoSpaces(s)
    ensures Trim(s) == s
  {
  }

  /** A database name is one word, never blank. */
  lemma DatabaseNameIsAWord(sql: string, prefix: string)
    requires DatabaseName(sql, prefix).Some?
    ensures var name := DatabaseName(sql, prefix).value; Trim(name) == name && !Blank(name)
  {
    hide Trim, TrimMatches;
    var rest := Trim(Trim(sql)[|prefix|..]);
    var name := Trim(if "IF NOT EXISTS " <= rest then rest[14..]
                     else if "IF EXISTS " <= rest then rest[10..]
                     else rest);
    var word := name[..TokenLength(name)];
    assert NoSpaces(word);
    TrimMatchesKeeps(';', word);
    TrimMatchesKeeps('`', TrimMatches(';', word));
    TrimMatchesKeeps('"', TrimMatches('`', TrimMatches(';', word)));
    NoSpacesIsTrimmed(DatabaseName(sql, prefix).value);
  }

  lemma TrimTwice(s: string)
    ensures Trim(Trim(s)) == Trim(s)
  {
    hide Trim;
    var lead, trail := TrimSplits(s);
    TrimPadded("", Trim(s));
    assert "" + Trim(s) == Trim(s);
  }

  // ---------------------------------------------------------------------------------------------------------------
  // Statements that are recognised

  predicate IsSetSqlMode(upper: string) {
    || "SET SQL_MODE" <= upper
    || "SET SESSION SQL_MODE" <= upper
    || "SET @@SQL_MODE" <= upper
    || "SET @@SESSION.SQL_MODE" <= upper
  }

  const NoopPrefixes: seq<string> := [
    "SET WAIT_TIMEOUT", "SET SESSION WAIT_TIMEOUT", "SET @@WAIT_TIMEOUT", "SET @@SESSION.WAIT_TIMEOUT",
    "SET INTERACTIVE_TIMEOUT", "SET SESSION INTERACTIVE_TIMEOUT", "SET @@INTERACTIVE_TIMEOUT",
    "SET @@SESSION.INTERACTIVE_TIMEOUT", "SET SESSION GROUP_CONCAT_MAX_LEN", "SET @@SESSION.GROUP_CONCAT_MAX_LEN",
    "SET @@GROUP_CONCAT_MAX_LEN", "SET @@INNODB_LOCK_WAIT_TIMEOUT", "SET @@SESSION.INNODB_LOCK_WAIT_TIMEOUT",
    "SET SESSION SQL_REQUIRE_PRIMARY_KEY", "SET @@SESSION.SQL_REQUIRE_PRIMARY_KEY", "SET @@SQL_REQUIRE_PRIMARY_KEY",
    "SET GLOBAL INNODB_FORCE_PRIMARY_KEY", "SET SESSION CHARACTER_SET_CLIENT", "SET SESSION CHARACTER_SET_RESULTS",
    "SET SESSION COLLATION_CONNECTION", "SET CHARACTER_SET_CLIENT", "SET CHARACTER_SET_RESULTS",
    "SET COLLATION_CONNECTION", "SET TIME_ZONE", "SET SESSION TIME_ZONE", "SET FOREIGN_KEY_CHECKS",
    "SET UNIQUE_CHECKS", "SET SQL_NOTES", "SET SESSION TRANSACTION ISOLATION LEVEL",
    "SET TRANSACTION ISOLATION LEVEL"]

  /** `is_compat_noop_query`. */
  predicate IsCompatNoop(query: string) {
    var upper := ToUpper(Trim(query));
    || "SET NAMES " <= upper
    || IsSetSqlMode(upper)
    || "CREATE DATABASE " <= upper
    || "DROP DATABASE " <= upper
    || exists k :: 0 <= k < |NoopPrefixes| && NoopPrefixes[k] <= upper
  }

  predicate IsLoadData(query: string) {
    var upper := ToUpper(TrimStart(query));
    "LOAD DATA LOCAL INFILE" <= upper || "LOAD DATA INFILE" <= upper
  }

  /** `canned_response_for_query` has an answer. */
  predicate IsCanned(query: string) {
    var text := Trim(query);
    || EqIgnoreCase(text, "SELECT VERSION()")
    || EqIgnoreCase(text, "SELECT @@VERSION")
    || EqIgnoreCase(text, "SELECT @@VERSION_COMMENT")
    || EqIgnoreCase(text, "SELECT @@SESSION.SQL_MODE")
    || EqIgnoreCase(text, "SELECT @@SQL_MODE")
  }

  /** What the pattern for system variables can match at most: it begins with SELECT and has no other characters. The
      last two fold to ASCII letters. */
  predicate InVariablePattern(c: char) {
    IsSpace(c) || IsIdentifierChar(c) || c in "@.;`" || c == '\U{17F}' || c == '\U{212A}'
  }

  predicate MayNameVariable(text: string) {
    && text != "" && (Upper(text[0]) == 'S' || text[0] == '\U{17F}')
    && forall k :: 0 <= k < |text| ==> InVariablePattern(text[k])
  }

  /** `dynamic_canned_response_for_query` may have an answer; the pattern for system variables is a library's. */
  predicate MayBeDynamic(query: string) {
    var text := Trim(query);
    || EqIgnoreCase(text, "SELECT CONNECTION_ID()")
    || EqIgnoreCase(text, "SELECT DATABASE()")
    || EqIgnoreCase(text, "SELECT @@COLLATION_CONNECTION")
    || EqIgnoreCase(text, "SHOW GLOBAL VARIABLES LIKE 'T%_ISOLATION'")
    || MayNameVariable(text)
  }

  // ---------------------------------------------------------------------------------------------------------------
  // SET

  /** What follows the first equals sign, without its quotes. */
  function SqlModeValue(sql: string): string {
    var n := SpanLength(c => c != '=', sql);
    if n == |sql| then "" else Unquoted(Bare(sql[n + 1..]))
  }

  /** `split_whitespace`. */
  function Words(s: string): seq<string>
    decreases |s|
  {
    var skip := SpanLength(IsSpace, s);
    var n := TokenLength(s[skip..]);
    if n == 0 then [] else [s[skip..][..n]] + Words(s[skip..][n..])
  }

  /** `normalize_transaction_isolation`. */
  function IsolationValue(level: string): string {
    ToUpper(Join(Words(level), "-"))
  }

  /** `normalize_mysql_charset`. */
  function CharsetName(charset: string): string {
    if ToLower(charset) == "utf8mb3" then "utf8" else ToLower(charset)
  }

  /** `default_mysql_collation_for_charset`. */
  function DefaultCollation(charset: string): Option<string> {
    if charset == "utf8" then Some("utf8_general_ci")
    else if charset == "utf8mb4" then Some("utf8mb4_general_ci")
    else None
  }

  /** `normalize_mysql_collation`, for a known character set. */
  function CollationName(charset: string, collation: string): Option<string> {
    var name := ToLower(collation);
    if name in ["default", "utf8", "utf8mb3", "utf8mb4"] then DefaultCollation(charset) else Some(name)
  }

  /** `collation_matches_charset`. */
  predicate CollationMatches(charset: string, collation: string) {
    charset + "_" <= collation
  }

  /** The character set and the collation, if one is given, in what follows SET NAMES. */
  function NamesCharset(payload: string): string {
    CharsetName(Trim(Unquoted(payload[..TokenLength(payload)])))
  }

  function NamesCollation(payload: string): Option<string> {
    var n := TokenLength(payload);
    if n == |payload| then None
    else
      var rest := Trim(payload[n + 1..]);
      if "COLLATE " <= ToUpper(rest) then Some(ToLower(Unquoted(Trim(rest[8..])))) else None
  }
}
