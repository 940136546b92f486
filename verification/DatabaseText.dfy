/** What CREATE DATABASE, DROP DATABASE and COM_INIT_DB do, for statements as clients write them. */
module DatabaseText {
  import opened Text
  import opened SessionText
  import opened Session
  import opened SessionEffects
  import opened KillText
  import opened Settings

  const Guards: set<string> := {"", "IF NOT EXISTS ", "IF EXISTS "}

  /** A name, in backticks or in double quotes or bare. */
  predicate IsDatabaseQuoting(q: string) {
    q in {"", "`", "\""}
  }

  /** What may follow the name: semicolons, or a blank and options. */
  predicate IsTail(tail: string) {
    tail == "" || AllSemicolons(tail) || (tail[0] == ' ' && !IsSpace(tail[|tail| - 1]))
  }

  /** `name` and what follows it are no guard themselves. */
  predicate IsNamed(guard: string, q: string, name: string, tail: string) {
    && guard in Guards && IsDatabaseQuoting(q) && IsWord(name) && IsTail(tail)
    && (guard == "" && q == "" && name == "IF" ==> tail == "" || tail[0] != ' ')
  }

  function NamePart(q: string, name: string, tail: string): string {
    (q + (name + q)) + tail
  }

  function DatabaseStatement(keyword: string, guard: string, q: string, name: string, tail: string): string {
    keyword + (" " + (guard + NamePart(q, name, tail)))
  }

  lemma NamePartEnds(q: string, name: string, tail: string)
    requires IsDatabaseQuoting(q) && IsWord(name) && IsTail(tail)
    ensures var x := NamePart(q, name, tail); x != "" && Trimmed(x) && x[0] == (q + (name + q))[0] && x[0] != ';'
    ensures forall k :: 0 <= k < |q + (name + q)| ==> NotSpace((q + (name + q))[k])
  {
    var x := q + (name + q);
    assert x[0] == if q == "" then name[0] else q[0];
    assert x[|x| - 1] == if q == "" then name[|name| - 1] else q[0];
    assert NamePart(q, name, tail)[|x + tail| - 1] == if tail == "" then x[|x| - 1] else tail[|tail| - 1];
  }

  /** The first word of what follows the guard is the name in its quotes, and what is left of it without semicolons and
      quotes is the name. */
  lemma NameIsRead(q: string, name: string, tail: string)
    requires IsDatabaseQuoting(q) && IsWord(name) && IsTail(tail)
    ensures var x := NamePart(q, name, tail);
            TrimMatches('"', TrimMatches('`', TrimMatches(';', x[..TokenLength(x)]))) == name
  {
    hide TokenLength, TrimStartMatches, TrimEndMatches, IsSpace;
    var (x, word) := (NamePart(q, name, tail), q + (name + q));
    NamePartEnds(q, name, tail);
    if tail != "" && tail[0] == ' ' {
      SpaceIsSpace();
      FirstToken(word, tail);
      assert x[..|word|] == word;
      TrailGoes(word, "");
      assert word + "" == word;
    } else {
      SemicolonIsNoSpace();
      FirstToken(x, "");
      assert x + "" == x && x[..|x|] == x;
      TrailGoes(word, tail);
    }
    QuotesOfName(q, name);
  }

  lemma QuotesOfName(q: string, name: string)
    requires IsDatabaseQuoting(q) && IsWord(name)
    ensures TrimMatches('"', TrimMatches('`', q + (name + q))) == name
  {
    hide TrimMatches;
    NameHasNoQuotes(name);
    OneQuoteGoes('`', name);
    OneQuoteGoes('"', name);
    if q == "\"" {
      var x := ['"'] + (name + ['"']);
      assert x[0] == '"' && x[|x| - 1] == '"';
      OneQuoteGoes('`', x);
    } else if q == "" {
      assert q + (name + q) == name;
    }
  }

  lemma NameHasNoQuotes(name: string)
    requires IsWord(name)
    ensures name[0] !in {'\'', '"', '`', ';'} && name[|name| - 1] !in {'\'', '"', '`', ';'}
  {
    assert IsIdentifierChar(name[0]) && IsIdentifierChar(name[|name| - 1]);
  }

  lemma TrailGoes(word: string, tail: string)
    requires word != "" && word[0] != ';' && word[|word| - 1] != ';' && AllSemicolons(tail)
    ensures TrimMatches(';', word + tail) == word
  {
    hide TrimStartMatches, TrimEndMatches;
    StartStops(';', word + tail);
    SemicolonsGo(word, tail);
  }

  /** What is left when the guard is taken off. */
  function Unguarded(rest: string): string {
    Trim(if "IF NOT EXISTS " <= rest then rest[14..] else if "IF EXISTS " <= rest then rest[10..] else rest)
  }

  lemma GuardGoes(guard: string, q: string, name: string, tail: string)
    requires IsNamed(guard, q, name, tail)
    ensures Unguarded(guard + NamePart(q, name, tail)) == NamePart(q, name, tail)
  {
    hide Trim, IsWord;
    var x := NamePart(q, name, tail);
    NamePartEnds(q, name, tail);
    TrimmedStays(x);
    var rest := guard + x;
    if guard == "" {
      assert rest == x;
      NoGuardInName(q, name, tail);
    } else if guard == "IF EXISTS " {
      assert rest[3] == 'E' && rest[10..] == x;
    } else {
      assert rest[14..] == x;
    }
  }

  lemma NoGuardInName(q: string, name: string, tail: string)
    requires IsNamed("", q, name, tail)
    ensures var x := NamePart(q, name, tail); !("IF NOT EXISTS " <= x) && !("IF EXISTS " <= x)
  {
    var x := NamePart(q, name, tail);
    if q != "" {
      assert x[0] == q[0];
    } else if |name| > 2 {
      assert x[2] == name[2] && IsIdentifierChar(name[2]);
    } else if tail != "" {
      assert x[|name|] == tail[0] && tail[0] in {' ', ';'};
      assert x[0] == name[0] && (|name| == 2 ==> x[1] == name[1]);
      assert name[0] == 'I' && |name| == 2 && name[1] == 'F' ==> name == "IF";
    }
  }

  /** The name is read behind the keyword, if this is spelled as given. */
  lemma DatabaseNameIsRead(keyword: string, guard: string, q: string, name: string, tail: string, prefix: string)
    requires IsNamed(guard, q, name, tail) && keyword != "" && !IsSpace(keyword[0]) && |prefix| == |keyword|
    ensures DatabaseName(DatabaseStatement(keyword, guard, q, name, tail), prefix) ==
            if keyword == prefix then Some(name) else None
  {
    hide Trim, TrimMatches, IsSpace, TokenLength;
    var body := guard + NamePart(q, name, tail);
    var text := keyword + (" " + body);
    NamePartEnds(q, name, tail);
    BodyEnds(guard, NamePart(q, name, tail));
    assert text[0] == keyword[0] && text[|text| - 1] == body[|body| - 1];
    TrimmedStays(text);
    assert text[..|keyword|] == keyword && text[|keyword|..] == " " + body;
    SpaceIsSpace();
    TrimPadded(" ", body);
    GuardGoes(guard, q, name, tail);
    NameIsRead(q, name, tail);
    if keyword == prefix {
      var rest := Trim(Trim(text)[|prefix|..]);
      assert rest == body;
      assert Unguarded(rest) == NamePart(q, name, tail);
    }
  }

  lemma BodyEnds(guard: string, x: string)
    requires guard in Guards && x != "" && Trimmed(x)
    ensures guard + x != "" && Trimmed(guard + x)
  {
    assert (guard + x)[0] == if guard == "" then x[0] else guard[0];
  }

  /** The code compares the keywords without case to find out whether it has to do with such a statement, but knows each
      in two spellings only when it looks for the name. */
  lemma CreateNamesAreRead(keyword: string, guard: string, q: string, name: string, tail: string)
    requires IsNamed(guard, q, name, tail) && ToUpper(keyword) == "CREATE DATABASE"
    ensures var text := DatabaseStatement(keyword, guard, q, name, tail);
            && CreateDatabaseName(text) ==
               (if keyword in {"CREATE DATABASE", "create database"} then Some(name) else None)
            && DropDatabaseName(text) == None
  {
    hide ToUpper, DatabaseName, DatabaseStatement, IsNamed;
    KeywordIsWord(keyword);
    DatabaseNameIsRead(keyword, guard, q, name, tail, "CREATE DATABASE");
    DatabaseNameIsRead(keyword, guard, q, name, tail, "create database");
    OtherKeyword(keyword, guard, q, name, tail, "DROP DATABASE");
    OtherKeyword(keyword, guard, q, name, tail, "drop database");
  }

  lemma DropNamesAreRead(keyword: string, guard: string, q: string, name: string, tail: string)
    requires IsNamed(guard, q, name, tail) && ToUpper(keyword) == "DROP DATABASE"
    ensures var text := DatabaseStatement(keyword, guard, q, name, tail);
            && CreateDatabaseName(text) == None
            && DropDatabaseName(text) ==
               (if keyword in {"DROP DATABASE", "drop database"} then Some(name) else None)
  {
    hide ToUpper, DatabaseName, DatabaseStatement, IsNamed;
    KeywordIsWord(keyword);
    DatabaseNameIsRead(keyword, guard, q, name, tail, "DROP DATABASE");
    DatabaseNameIsRead(keyword, guard, q, name, tail, "drop database");
    OtherKeyword(keyword, guard, q, name, tail, "CREATE DATABASE");
    OtherKeyword(keyword, guard, q, name, tail, "create database");
  }

  lemma KeywordIsWord(keyword: string)
    requires ToUpper(keyword) in {"CREATE DATABASE", "DROP DATABASE"}
    ensures |keyword| in {13, 15} && !IsSpace(keyword[0]) && keyword[0] != ';'
    ensures Upper(keyword[0]) == if |keyword| == 15 then 'C' else 'D'
    ensures ToUpper(keyword) == if |keyword| == 15 then "CREATE DATABASE" else "DROP DATABASE"
  {
    hide ToUpper;
    assert |ToUpper(keyword)| == |keyword|;
    assert Upper(keyword[0]) == ToUpper(keyword)[0];
  }

  lemma StatementIsTrimmed(keyword: string, guard: string, q: string, name: string, tail: string)
    requires IsNamed(guard, q, name, tail) && keyword != "" && !IsSpace(keyword[0])
    ensures var text := DatabaseStatement(keyword, guard, q, name, tail);
            text[0] == keyword[0] && Trimmed(text) && Trim(text) == text
  {
    hide Trim, IsSpace;
    var body := guard + NamePart(q, name, tail);
    var text := keyword + (" " + body);
    NamePartEnds(q, name, tail);
    BodyEnds(guard, NamePart(q, name, tail));
    assert text[0] == keyword[0] && text[|text| - 1] == body[|body| - 1];
    TrimmedStays(text);
  }

  lemma OtherKeyword(keyword: string, guard: string, q: string, name: string, tail: string, prefix: string)
    requires IsNamed(guard, q, name, tail) && keyword != "" && !IsSpace(keyword[0])
    requires prefix != "" && Upper(prefix[0]) != Upper(keyword[0])
    ensures DatabaseName(DatabaseStatement(keyword, guard, q, name, tail), prefix) == None
  {
    hide Trim, TrimMatches, IsSpace, TokenLength, DatabaseStatement;
    StatementIsTrimmed(keyword, guard, q, name, tail);
  }

  lemma StatementIsNoop(s: State, keyword: string, guard: string, q: string, name: string, tail: string)
    requires IsNamed(guard, q, name, tail) && ToUpper(keyword) in {"CREATE DATABASE", "DROP DATABASE"}
    ensures var text := DatabaseStatement(keyword, guard, q, name, tail);
            && Trim(text) == text && ParseKill(text) == None && SessionStep(s, text) == Untouched && IsCompatNoop(text)
  {
    hide Trim, Bare, ToUpper, SessionStep, ParseKill, NamePart;
    var text := DatabaseStatement(keyword, guard, q, name, tail);
    KeywordIsWord(keyword);
    StatementIsTrimmed(keyword, guard, q, name, tail);
    HeadIsKept(text);
    NoSetIsUntouched(s, text);
    NoKill(text);
    KeywordIsPrefix(keyword, guard + NamePart(q, name, tail));
    assert "CREATE DATABASE" + " " == "CREATE DATABASE " && "DROP DATABASE" + " " == "DROP DATABASE ";
  }

  /** CREATE DATABASE, with or without a guard, quotes, options and semicolons, selects the database, for the session
      and for those to come, if its schema could be created, and else ends the connection; but if the keyword is written
      in any but the two spellings, the statement is acknowledged without an effect. */
  lemma {:induction false} CreateSelects(s: State, g: Globals, keyword: string, guard: string, q: string,
                                         name: string, tail: string, a: Answers)
    requires IsNamed(guard, q, name, tail) && ToUpper(keyword) == "CREATE DATABASE"
    requires s.id !in g.killed && !a.dynamic
    ensures Step(s, g, Query(DatabaseStatement(keyword, guard, q, name, tail)), a) ==
            if keyword !in {"CREATE DATABASE", "create database"} then (s, g, Done)
            else if !a.schemaOk then (s, g, Broken)
            else (s.(currentDb := Some(name)), g.(defaultDb := Some(name)), Done)
  {
    hide Trim, SessionStep, ParseKill, IsCompatNoop, CreateDatabaseName, DropDatabaseName, ToUpper, DatabaseStatement;
    KeywordIsWord(keyword);
    StatementIsNoop(s, keyword, guard, q, name, tail);
    CreateNamesAreRead(keyword, guard, q, name, tail);
    NameEnds(name);
  }

  /** DROP DATABASE likewise gives the database up, where it is the one selected. */
  lemma {:induction false} DropForgets(s: State, g: Globals, keyword: string, guard: string, q: string,
                                       name: string, tail: string, a: Answers)
    requires IsNamed(guard, q, name, tail) && ToUpper(keyword) == "DROP DATABASE"
    requires s.id !in g.killed && !a.dynamic
    ensures Step(s, g, Query(DatabaseStatement(keyword, guard, q, name, tail)), a) ==
            if keyword !in {"DROP DATABASE", "drop database"} then (s, g, Done)
            else if !a.schemaOk then (s, g, Broken)
            else (if s.currentDb == Some(name) then s.(currentDb := None) else s,
                  if g.defaultDb == Some(name) then g.(defaultDb := None) else g, Done)
  {
    hide Trim, SessionStep, ParseKill, IsCompatNoop, CreateDatabaseName, DropDatabaseName, ToUpper, DatabaseStatement;
    KeywordIsWord(keyword);
    StatementIsNoop(s, keyword, guard, q, name, tail);
    DropNamesAreRead(keyword, guard, q, name, tail);
  }

  /** COM_INIT_DB selects the name without the blanks around it, and a blank name deselects. */
  lemma {:induction false} InitSelects(s: State, g: Globals, lead: string, name: string, trail: string, a: Answers)
    requires AllSpace(lead) && AllSpace(trail) && Trimmed(name)
    ensures Step(s, g, Init(lead + (name + trail)), a) ==
            var db := if name == "" then None else Some(name);
            (s.(currentDb := db), g.(defaultDb := db), Done)
  {
    hide Trim;
    if name == "" {
      AllSpaceGoes(lead + (name + trail));
    } else {
      TrimAround(lead, name, trail);
      TrimmedStays(name);
    }
  }

  lemma {:induction false} AllSpaceGoes(s: string)
    requires AllSpace(s)
    ensures Trim(s) == ""
  {
    TrimPadded(s, "");
    assert s + "" == s;
  }
}
