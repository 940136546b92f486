/** CREATE TABLE: columns and the CHECK constraints that stand for what PostgreSQL's types cannot express. */
module CreateTable {
  import opened Text
  import opened Decimal
  import opened Literals
  import opened PostgresDdl

  // ---------------------------------------------------------------------------------------------------------------
  // MySQL tables

  /** A name as written, with backquotes or bare. */
  datatype Ident = Ident(value: string, backquoted: bool)

  datatype Size = Tiny | Small | Medium | Regular | Big

  datatype MySqlType = Signed(size: Size) | Unsigned(size: Size) | Enum(members: seq<string>)

  /** Column options. `Dropped` stands for ON UPDATE, CHARACTER SET, COLLATE, COMMENT and INVISIBLE. */
  datatype ColumnOption = Kept(clause: Clause) | AutoIncrement | Dropped

  datatype ColumnDef = ColumnDef(name: Ident, dataType: MySqlType, options: seq<ColumnOption>)

  datatype Warning = BigIntUnsigned(column: string) | WidenedUnsigned(column: string) | EnumAsText(column: string)
                   | AutoIncrementAsIdentity(column: string) | OptionDropped(column: string)
                   | IndexSeparated(name: string) | TableOptionsStripped

  /** A table constraint as it is rendered: in its place, or as a CREATE INDEX statement of its own; or it cannot be
      rendered. */
  datatype TableConstraint = InPlace(text: Option<string>) | AsIndex(name: string, statement: Option<string>)
  {
    predicate IsRendered() {
      if InPlace? then text.Some? else statement.Some?
    }
  }

  /** Section 11.1.2 of the MySQL 8.4 Reference Manual. */
  function SignedMax(size: Size): int {
    match size
    case Tiny => 127
    case Small => 32767
    case Medium => 8388607
    case Regular => 2147483647
    case Big => 9223372036854775807
  }

  function UnsignedMax(size: Size): int {
    2 * SignedMax(size) + 1
  }

  /** The non-null values of a type; an ENUM holds its members as they are spelled. */
  predicate Domain(t: MySqlType, v: Datum) {
    match t
    case Signed(size) => v.Int? && -SignedMax(size) - 1 <= v.n <= SignedMax(size)
    case Unsigned(size) => v.Int? && 0 <= v.n <= UnsignedMax(size)
    case Enum(members) => v.Str? && v.s in members
  }

  predicate MySqlNullable(options: seq<ColumnOption>) {
    Kept(NotNull) !in options && Kept(Identity) !in options && AutoIncrement !in options
  }

  predicate MySqlAccepts(columns: seq<ColumnDef>, row: seq<Datum>) {
    && |row| == |columns|
    && forall k :: 0 <= k < |row| ==>
         if row[k].Null? then MySqlNullable(columns[k].options) else Domain(columns[k].dataType, row[k])
  }

  // ---------------------------------------------------------------------------------------------------------------
  // Translation

  /** `quote_ident`. */
  function QuoteIdent(v: string): string {
    "\"" + (Doubled('"', v) + "\"")
  }

  /** A name as SQL text, the way it was quoted. */
  function Display(name: Ident): string {
    if name.backquoted then "`" + (Doubled('`', name.value) + "`") else name.value
  }

  function TypeText(t: MySqlType): string {
    match t
    case Signed(Tiny) => "SMALLINT"
    case Signed(Small) => "SMALLINT"
    case Signed(Medium) => "INTEGER"
    case Signed(Regular) => "INTEGER"
    case Signed(Big) => "BIGINT"
    case Unsigned(Tiny) => "SMALLINT"
    case Unsigned(Small) => "INTEGER"
    case Unsigned(Medium) => "INTEGER"
    case Unsigned(Regular) => "BIGINT"
    case Unsigned(Big) => "BIGINT"
    case Enum(_) => "TEXT"
  }

  function RangeText(column: string, max: nat): string {
    "CHECK (" + (column + (" >= 0 AND " + (column + (" <= " + (Numeral(max) + ")")))))
  }

  function StringTexts(values: seq<string>): seq<string> {
    if values == [] then [] else ["'" + (Doubled('\'', values[0]) + "'")] + StringTexts(values[1..])
  }

  function EnumText(column: string, members: seq<string>): string {
    "CHECK (" + (column + (" IN (" + (Join(StringTexts(members), ", ") + "))")))
  }

  /** The CHECK constraints for a type: none, or one. */
  function CheckTexts(column: string, t: MySqlType): seq<string> {
    match t
    case Signed(_) => []
    case Unsigned(Tiny) => [RangeText(column, 255)]
    case Unsigned(Small) => [RangeText(column, 65535)]
    case Unsigned(Medium) => [RangeText(column, 16777215)]
    case Unsigned(Regular) => [RangeText(column, 4294967295)]
    case Unsigned(Big) => []
    case Enum(members) => [EnumText(column, members)]
  }

  function TypeWarnings(column: string, t: MySqlType): seq<Warning> {
    match t
    case Signed(_) => []
    case Unsigned(Big) => [BigIntUnsigned(column)]
    case Unsigned(_) => [WidenedUnsigned(column)]
    case Enum(_) => [EnumAsText(column)]
  }

  /** `translate_data_type`, with its two growing lists. */
  method TranslateDataType(column: string, t: MySqlType, checks: seq<string>, warnings: seq<Warning>)
    returns (text: string, checks': seq<string>, warnings': seq<Warning>)
    ensures text == TypeText(t)
    ensures checks' == checks + CheckTexts(column, t)
    ensures warnings' == warnings + TypeWarnings(column, t)
  {
    checks', warnings' := checks, warnings;
    match t {
      case Signed(size) =>
        text := if size.Tiny? || size.Small? then "SMALLINT" else if size.Big? then "BIGINT" else "INTEGER";
      case Unsigned(Big) =>
        warnings' := warnings' + [BigIntUnsigned(column)];
        text := "BIGINT";
      case Unsigned(Regular) =>
        warnings' := warnings' + [WidenedUnsigned(column)];
        checks' := checks' + [RangeText(column, 4294967295)];
        text := "BIGINT";
      case Unsigned(Small) =>
        warnings' := warnings' + [WidenedUnsigned(column)];
        checks' := checks' + [RangeText(column, 65535)];
        text := "INTEGER";
      case Unsigned(Tiny) =>
        warnings' := warnings' + [WidenedUnsigned(column)];
        checks' := checks' + [RangeText(column, 255)];
        text := "SMALLINT";
      case Unsigned(Medium) =>
        warnings' := warnings' + [WidenedUnsigned(column)];
        checks' := checks' + [RangeText(column, 16777215)];
        text := "INTEGER";
      case Enum(members) =>
        warnings' := warnings' + [EnumAsText(column)];
        checks' := checks' + [EnumText(column, members)];
        text := "TEXT";
    }
  }

  function KeptClauses(options: seq<ColumnOption>): seq<Clause> {
    if options == [] then []
    else (if options[0].Kept? then [options[0].clause] else []) + KeptClauses(options[1..])
  }

  /** The clauses written for a column: the kept ones in order, then the identity clause. */
  function Clauses(options: seq<ColumnOption>): seq<Clause> {
    KeptClauses(options) + (if AutoIncrement in options then [Identity] else [])
  }

  function ClauseTexts(clauses: seq<Clause>): seq<string> {
    if clauses == [] then [] else [ClauseText(clauses[0])] + ClauseTexts(clauses[1..])
  }

  function OptionWarnings(column: string, options: seq<ColumnOption>): seq<Warning> {
    if options == [] then []
    else
      (match options[0]
       case AutoIncrement => [AutoIncrementAsIdentity(column)]
       case Dropped => [OptionDropped(column)]
       case Kept(_) => [])
      + OptionWarnings(column, options[1..])
  }

  function ColumnText(c: ColumnDef): string {
    var clauses := ClauseTexts(Clauses(c.options));
    QuoteIdent(c.name.value) +
    (" " + (TypeText(c.dataType) + (if clauses == [] then "" else " " + Join(clauses, " "))))
  }

  function AllKept(clauses: seq<Clause>): seq<ColumnOption> {
    if clauses == [] then [] else [Kept(clauses[0])] + AllKept(clauses[1..])
  }

  lemma {:induction false} KeptStay(column: string, clauses: seq<Clause>, more: seq<ColumnOption>)
    ensures KeptClauses(AllKept(clauses) + more) == clauses + KeptClauses(more)
    ensures OptionWarnings(column, AllKept(clauses) + more) == OptionWarnings(column, more)
    ensures AutoIncrement in AllKept(clauses) + more <==> AutoIncrement in more
  {
    hide KeptClauses, OptionWarnings;
    if clauses == [] {
      assert AllKept(clauses) + more == more;
    } else {
      var options := AllKept(clauses) + more;
      assert options == [Kept(clauses[0])] + (AllKept(clauses[1..]) + more);
      assert options[1..] == AllKept(clauses[1..]) + more;
      OptionSteps(column, options, 0);
      assert options[0..] == options;
      KeptStay(column, clauses[1..], more);
      assert [clauses[0]] + clauses[1..] == clauses;
      ConcatAssoc([clauses[0]], clauses[1..], KeptClauses(more));
    }
  }

  /** AUTO_INCREMENT, wherever it stands, is written last and warned of as an identity; an option that is dropped leaves
      the others in order and is warned of too. */
  lemma {:induction false} OptionsAreWritten(column: string, a: seq<Clause>, b: seq<Clause>)
    ensures var options := AllKept(a) + ([AutoIncrement] + AllKept(b));
            && Clauses(options) == a + b + [Identity]
            && OptionWarnings(column, options) == [AutoIncrementAsIdentity(column)]
    ensures var options := AllKept(a) + ([Dropped] + AllKept(b));
            Clauses(options) == a + b && OptionWarnings(column, options) == [OptionDropped(column)]
  {
    hide KeptClauses, OptionWarnings, AllKept;
    KeptStay(column, a, [AutoIncrement] + AllKept(b));
    KeptStay(column, a, [Dropped] + AllKept(b));
    FirstIsTaken(column, AutoIncrement, b);
    FirstIsTaken(column, Dropped, b);
  }

  lemma FirstIsTaken(column: string, x: ColumnOption, b: seq<Clause>)
    requires !x.Kept?
    ensures var options := [x] + AllKept(b);
            && KeptClauses(options) == b && (AutoIncrement in options <==> x == AutoIncrement)
            && OptionWarnings(column, options) ==
               [if x == AutoIncrement then AutoIncrementAsIdentity(column) else OptionDropped(column)]
  {
    KeptStay(column, b, []);
    assert AllKept(b) + [] == AllKept(b) && b + [] == b;
    assert ([x] + AllKept(b))[1..] == AllKept(b);
  }

  lemma {:induction false} ClauseTextsConcat(a: seq<Clause>, b: seq<Clause>)
    ensures ClauseTexts(a + b) == ClauseTexts(a) + ClauseTexts(b)
  {
    if a == [] {
      assert a + b == b;
    } else {
      assert (a + b)[1..] == a[1..] + b;
      ClauseTextsConcat(a[1..], b);
    }
  }

  lemma OptionSteps(column: string, options: seq<ColumnOption>, i: nat)
    requires i < |options|
    ensures KeptClauses(options[i..]) ==
            (if options[i].Kept? then [options[i].clause] else []) + KeptClauses(options[i + 1..])
    ensures OptionWarnings(column, options[i..]) ==
            (match options[i]
             case AutoIncrement => [AutoIncrementAsIdentity(column)]
             case Dropped => [OptionDropped(column)]
             case Kept(_) => [])
            + OptionWarnings(column, options[i + 1..])
  {
    assert options[i..][1..] == options[i + 1..];
  }

  /** `translate_column`. */
  method TranslateColumn(c: ColumnDef, warnings: seq<Warning>)
    returns (text: string, checks: seq<string>, warnings': seq<Warning>)
    ensures text == ColumnText(c)
    ensures checks == CheckTexts(Display(c.name), c.dataType)
    ensures warnings' == warnings + TypeWarnings(Display(c.name), c.dataType)
                         + OptionWarnings(Display(c.name), c.options)
  {
    hide KeptClauses, OptionWarnings, QuoteIdent, TypeText, CheckTexts, TypeWarnings;
    var column := Display(c.name);
    var translatedType;
    translatedType, checks, warnings' := TranslateDataType(column, c.dataType, [], warnings);
    ghost var typed := warnings';
    var autoIncrement := false;
    var rendered: seq<string> := [];
    ghost var kept: seq<Clause> := [];
    var i := 0;
    assert c.options[0..] == c.options;
    while i < |c.options|
      invariant i <= |c.options|
      invariant autoIncrement <==> AutoIncrement in c.options[..i]
      invariant rendered == ClauseTexts(kept)
      invariant kept + KeptClauses(c.options[i..]) == KeptClauses(c.options)
      invariant warnings' + OptionWarnings(column, c.options[i..]) == typed + OptionWarnings(column, c.options)
    {
      OptionSteps(column, c.options, i);
      assert c.options[..i + 1] == c.options[..i] + [c.options[i]];
      match c.options[i] {
        case AutoIncrement =>
          autoIncrement := true;
          warnings' := warnings' + [AutoIncrementAsIdentity(column)];
        case Dropped =>
          warnings' := warnings' + [OptionDropped(column)];
        case Kept(clause) =>
          rendered := rendered + [ClauseText(clause)];
          ClauseTextsConcat(kept, [clause]);
          kept := kept + [clause];
      }
      i := i + 1;
    }
    assert c.options[..i] == c.options && c.options[i..] == [];
    NoOptions(column);
    assert kept == KeptClauses(c.options);
    if autoIncrement {
      rendered := rendered + ["GENERATED BY DEFAULT AS IDENTITY"];
      ClauseTextsConcat(kept, [Identity]);
    }
    assert rendered == ClauseTexts(Clauses(c.options));
    text := QuoteIdent(c.name.value) + (" " + translatedType);
    if rendered != [] {
      text := text + (" " + Join(rendered, " "));
    }
    ghost var tail := if rendered == [] then "" else " " + Join(rendered, " ");
    ConcatAssoc(QuoteIdent(c.name.value), " " + translatedType, tail);
    ConcatAssoc(" ", translatedType, tail);
  }

  lemma NoOptions(column: string)
    ensures KeptClauses([]) == [] && OptionWarnings(column, []) == []
  {
  }

  function ColumnTexts(columns: seq<ColumnDef>): seq<string> {
    if columns == [] then [] else [ColumnText(columns[0])] + ColumnTexts(columns[1..])
  }

  function AllCheckTexts(columns: seq<ColumnDef>): seq<string> {
    if columns == [] then []
    else CheckTexts(Display(columns[0].name), columns[0].dataType) + AllCheckTexts(columns[1..])
  }

  function AllWarnings(columns: seq<ColumnDef>): seq<Warning> {
    if columns == [] then []
    else
      (TypeWarnings(Display(columns[0].name), columns[0].dataType)
       + OptionWarnings(Display(columns[0].name), columns[0].options)) + AllWarnings(columns[1..])
  }

  lemma ColumnSteps(columns: seq<ColumnDef>, i: nat)
    requires i < |columns|
    ensures ColumnTexts(columns[i..]) == [ColumnText(columns[i])] + ColumnTexts(columns[i + 1..])
    ensures AllCheckTexts(columns[i..]) ==
            CheckTexts(Display(columns[i].name), columns[i].dataType) + AllCheckTexts(columns[i + 1..])
    ensures AllWarnings(columns[i..]) ==
            (TypeWarnings(Display(columns[i].name), columns[i].dataType)
             + OptionWarnings(Display(columns[i].name), columns[i].options)) + AllWarnings(columns[i + 1..])
  {
    assert columns[i..][1..] == columns[i + 1..];
  }

  lemma NoColumns()
    ensures ColumnTexts([]) == [] && AllCheckTexts([]) == [] && AllWarnings([]) == []
  {
  }

  predicate AllRendered(constraints: seq<TableConstraint>) {
    forall k :: 0 <= k < |constraints| ==> constraints[k].IsRendered()
  }

  function InPlaceTexts(constraints: seq<TableConstraint>): seq<string>
    requires AllRendered(constraints)
  {
    if constraints == [] then []
    else
      var c := constraints[0];
      assert c.IsRendered();
      (if c.InPlace? then [c.text.value] else []) + InPlaceTexts(constraints[1..])
  }

  function IndexStatements(constraints: seq<TableConstraint>): seq<string>
    requires AllRendered(constraints)
  {
    if constraints == [] then []
    else
      var c := constraints[0];
      assert c.IsRendered();
      (if c.AsIndex? then [c.statement.value] else []) + IndexStatements(constraints[1..])
  }

  function IndexWarnings(constraints: seq<TableConstraint>): seq<Warning> {
    if constraints == [] then []
    else
      (if constraints[0].AsIndex? then [IndexSeparated(constraints[0].name)] else [])
      + IndexWarnings(constraints[1..])
  }

  /** One more constraint at the end. */
  lemma {:induction false} ConstraintSteps(before: seq<TableConstraint>, c: TableConstraint)
    requires AllRendered(before) && c.IsRendered()
    ensures AllRendered(before + [c])
    ensures InPlaceTexts(before + [c]) == InPlaceTexts(before) + (if c.InPlace? then [c.text.value] else [])
    ensures IndexStatements(before + [c]) == IndexStatements(before) + (if c.AsIndex? then [c.statement.value] else [])
    ensures IndexWarnings(before + [c]) == IndexWarnings(before) + (if c.AsIndex? then [IndexSeparated(c.name)] else [])
  {
    hide InPlaceTexts, IndexStatements, IndexWarnings;
    var all := before + [c];
    assert AllRendered(all);
    ConstraintHead(all);
    if before == [] {
      assert all == [c] && all[1..] == [];
      NoConstraints();
    } else {
      assert all[0] == before[0] && all[1..] == before[1..] + [c];
      ConstraintHead(before);
      ConstraintSteps(before[1..], c);
    }
  }

  lemma ConstraintHead(constraints: seq<TableConstraint>)
    requires constraints != [] && AllRendered(constraints)
    ensures var (c, rest) := (constraints[0], constraints[1..]);
            && AllRendered(rest) && c.IsRendered()
            && InPlaceTexts(constraints) == (if c.InPlace? then [c.text.value] else []) + InPlaceTexts(rest)
            && IndexStatements(constraints) == (if c.AsIndex? then [c.statement.value] else []) + IndexStatements(rest)
            && IndexWarnings(constraints) == (if c.AsIndex? then [IndexSeparated(c.name)] else []) + IndexWarnings(rest)
  {
  }

  /** The loop over the columns. */
  method TranslateColumns(columns: seq<ColumnDef>, warnings: seq<Warning>)
    returns (items: seq<string>, extra: seq<string>, warnings': seq<Warning>)
    ensures items == ColumnTexts(columns) && extra == AllCheckTexts(columns)
    ensures warnings' == warnings + AllWarnings(columns)
  {
    hide ColumnTexts, AllCheckTexts, AllWarnings, ColumnText, CheckTexts, TypeWarnings, OptionWarnings, Display;
    items, extra, warnings' := [], [], warnings;
    var i := 0;
    assert columns[0..] == columns;
    while i < |columns|
      invariant i <= |columns|
      invariant items + ColumnTexts(columns[i..]) == ColumnTexts(columns)
      invariant extra + AllCheckTexts(columns[i..]) == AllCheckTexts(columns)
      invariant warnings' + AllWarnings(columns[i..]) == warnings + AllWarnings(columns)
    {
      ColumnSteps(columns, i);
      var (column, t, options) := (Display(columns[i].name), columns[i].dataType, columns[i].options);
      ghost var before := warnings';
      var rendered, constraints;
      rendered, constraints, warnings' := TranslateColumn(columns[i], warnings');
      ConcatAssoc(items, [rendered], ColumnTexts(columns[i + 1..]));
      ConcatAssoc(extra, constraints, AllCheckTexts(columns[i + 1..]));
      ConcatAssoc(before, TypeWarnings(column, t), OptionWarnings(column, options));
      ConcatAssoc(before, TypeWarnings(column, t) + OptionWarnings(column, options), AllWarnings(columns[i + 1..]));
      items := items + [rendered];
      extra := extra + constraints;
      i := i + 1;
    }
    NoColumns();
    assert columns[i..] == [];
  }

  /** The items of the statement and the statements that follow it. */
  datatype Created = Created(items: seq<string>, statements: seq<string>)

  /** `translate_create_table`: every column, every constraint in its place and every CHECK; or an error, if some
      constraint cannot be rendered. */
  method TranslateCreateTable(columns: seq<ColumnDef>, constraints: seq<TableConstraint>, hasOptions: bool,
                              warnings: seq<Warning>)
    returns (created: Option<Created>, warnings': seq<Warning>)
    ensures created.Some? <==> AllRendered(constraints)
    ensures created.Some? ==>
              && created.value.items == ColumnTexts(columns) + InPlaceTexts(constraints) + AllCheckTexts(columns)
              && created.value.statements == IndexStatements(constraints)
              && warnings' == warnings + AllWarnings(columns) + IndexWarnings(constraints)
                              + (if hasOptions then [TableOptionsStripped] else [])
  {
    hide ColumnTexts, AllCheckTexts, AllWarnings, InPlaceTexts, IndexStatements, IndexWarnings;
    var items, extra;
    items, extra, warnings' := TranslateColumns(columns, warnings);
    var statements: seq<string> := [];
    var i := 0;
    NoConstraints();
    while i < |constraints|
      invariant i <= |constraints| && AllRendered(constraints[..i])
      invariant items == ColumnTexts(columns) + InPlaceTexts(constraints[..i])
      invariant statements == IndexStatements(constraints[..i])
      invariant warnings' == warnings + AllWarnings(columns) + IndexWarnings(constraints[..i])
    {
      var c := constraints[i];
      assert constraints[..i + 1] == constraints[..i] + [c];
      if !c.IsRendered() {
        return None, warnings';
      }
      ConstraintSteps(constraints[..i], c);
      match c {
        case InPlace(text) =>
          items := items + [text.value];
        case AsIndex(name, statement) =>
          statements := statements + [statement.value];
          warnings' := warnings' + [IndexSeparated(name)];
      }
      i := i + 1;
    }
    assert constraints[..i] == constraints;
    items := items + extra;
    if hasOptions {
      warnings' := warnings' + [TableOptionsStripped];
    }
    created := Some(Created(items, statements));
  }

  lemma NoConstraints()
    ensures InPlaceTexts([]) == [] && IndexStatements([]) == [] && IndexWarnings([]) == []
  {
  }

  /** `replace_backticks`, which comes after. */
  function ReplaceBackticks(s: string): (r: string)
    ensures |r| == |s|
  {
    seq(|s|, k requires 0 <= k < |s| => if s[k] == '`' then '"' else s[k])
  }

  /** Items as PostgreSQL gets them. */
  function Emitted(texts: seq<string>): seq<string> {
    if texts == [] then [] else [ReplaceBackticks(texts[0])] + Emitted(texts[1..])
  }

  /** The items of a table without further constraints. */
  function PostgresItems(columns: seq<ColumnDef>): seq<string> {
    Emitted(ColumnTexts(columns) + AllCheckTexts(columns))
  }
}
