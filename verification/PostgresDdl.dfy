/** How PostgreSQL reads the items of a CREATE TABLE statement, in the fragment of its grammar that the translator
    writes, and which rows the table then accepts. Identifiers and string constants are read by section 4.1 of the
    PostgreSQL documentation; a CHECK is satisfied unless it is false (section 5.5.1). */
module PostgresDdl {
  import opened Text
  import opened Decimal
  import opened Literals

  datatype Datum = Null | Int(n: int) | Str(s: string)

  datatype PgType = SmallInt | Integer | BigInt | TextType

  datatype Clause = NotNull | Nullable | Identity

  /** What PostgreSQL makes of a bare word in an expression: a name, nothing, or a value of the session such as the
      current user or schema, which is of type name and may be null. */
  datatype Word = Ordinary | Keyword | SessionValue(value: Datum)

  /** What a CHECK compares: a column or such a value. */
  datatype Operand = Named(column: string) | Constant(value: Datum)

  datatype Item = Column(name: string, pgType: PgType, clauses: seq<Clause>)
                | Range(low: Operand, high: Operand, max: nat)
                | OneOf(tested: Operand, values: seq<string>)

  // ---------------------------------------------------------------------------------------------------------------
  // Reading

  /** Characters of bare identifiers. */
  predicate IsWordChar(c: char) {
    IsIdentifierChar(c) || c == '$' || c >= '\U{80}'
  }

  predicate IsWordStart(c: char) {
    IsWordChar(c) && c != '$' && !IsDigit(c)
  }

  /** A bare word. */
  function Meaning(word: string, words: string -> Word): Option<Operand> {
    match words(word)
    case Ordinary => Some(Named(word))
    case Keyword => None
    case SessionValue(value) => Some(Constant(value))
  }

  /** An operand: a quoted name as it stands, which must not be empty, or a bare word, which is folded. */
  function ReadOperand(s: string, words: string -> Word): Option<(Operand, string)> {
    if StartsWith(s, '"') then
      var body := PostgresBody('"', s[1..]);
      if body.value == "" then None else Some((Named(body.value), s[1 + body.length..]))
    else
      var n := SpanLength(IsWordChar, s);
      if n == 0 || !IsWordStart(s[0]) then None
      else
        match Meaning(ToLower(s[..n]), words)
        case None => None
        case Some(operand) => Some((operand, s[n..]))
  }

  function ReadType(s: string): Option<(PgType, string)> {
    match Expect("SMALLINT", s)
    case Some(rest) => Some((SmallInt, rest))
    case None =>
      match Expect("INTEGER", s)
      case Some(rest) => Some((Integer, rest))
      case None =>
        match Expect("BIGINT", s)
        case Some(rest) => Some((BigInt, rest))
        case None =>
          match Expect("TEXT", s)
          case Some(rest) => Some((TextType, rest))
          case None => None
  }

  function ClauseText(c: Clause): string {
    match c
    case NotNull => "NOT NULL"
    case Nullable => "NULL"
    case Identity => "GENERATED BY DEFAULT AS IDENTITY"
  }

  function NextClause(s: string): (r: Option<Clause>)
    ensures r.Some? ==> 1 + |ClauseText(r.value)| <= |s|
  {
    if " " + ClauseText(NotNull) <= s then Some(NotNull)
    else if " " + ClauseText(Nullable) <= s then Some(Nullable)
    else if " " + ClauseText(Identity) <= s then Some(Identity)
    else None
  }

  function ReadClauses(s: string): Option<seq<Clause>>
    decreases |s|
  {
    if s == "" then Some([])
    else
      var next := NextClause(s);
      if next.None? then None
      else
        match ReadClauses(s[1 + |ClauseText(next.value)|..])
        case Some(clauses) => Some([next.value] + clauses)
        case None => None
  }

  function ReadColumn(s: string, words: string -> Word): Option<Item> {
    match ReadOperand(s, words)
    case None => None
    case Some((Constant(_), _)) => None
    case Some((Named(name), s1)) =>
      if !StartsWith(s1, ' ') then None
      else
        match ReadType(s1[1..])
        case None => None
        case Some((pgType, s2)) =>
          match ReadClauses(s2)
          case Some(clauses) => Some(Column(name, pgType, clauses))
          case None => None
  }

  /** One or more string constants between commas. */
  function ReadStrings(s: string): Option<(seq<string>, string)>
    decreases |s|
  {
    if !StartsWith(s, '\'') then None
    else
      var body := PostgresBody('\'', s[1..]);
      var rest := s[1 + body.length..];
      match Expect(", ", rest)
      case None => Some(([body.value], rest))
      case Some(more) =>
        match ReadStrings(more)
        case None => None
        case Some((values, end)) => Some(([body.value] + values, end))
  }

  /** What follows the name in `name >= 0 AND name <= max)`. */
  function ReadRange(low: Operand, s: string, words: string -> Word): Option<Item> {
    match ReadOperand(s, words)
    case None => None
    case Some((high, s1)) =>
      match Expect(" <= ", s1)
      case None => None
      case Some(s2) =>
        var (max, end) := ReadNumeral(s2);
        if end == ")" && end != s2 then Some(Range(low, high, max)) else None
  }

  function ReadCheck(s: string, words: string -> Word): Option<Item> {
    match ReadOperand(s, words)
    case None => None
    case Some((operand, s1)) =>
      match Expect(" >= 0 AND ", s1)
      case Some(s2) => ReadRange(operand, s2, words)
      case None =>
        match Expect(" IN (", s1)
        case None => None
        case Some(s2) =>
          match ReadStrings(s2)
          case Some((values, end)) => if end == "))" then Some(OneOf(operand, values)) else None
          case None => None
  }

  function ReadItem(s: string, words: string -> Word): Option<Item> {
    match Expect("CHECK (", s)
    case Some(rest) => ReadCheck(rest, words)
    case None => ReadColumn(s, words)
  }

  /** All items, or nothing if one cannot be read. */
  function ReadItems(texts: seq<string>, words: string -> Word): Option<seq<Item>> {
    if texts == [] then Some([])
    else
      match ReadItem(texts[0], words)
      case None => None
      case Some(item) =>
        match ReadItems(texts[1..], words)
        case None => None
        case Some(items) => Some([item] + items)
  }

  // ---------------------------------------------------------------------------------------------------------------
  // Accepting rows

  function Columns(items: seq<Item>): (r: seq<Item>)
    ensures forall k :: 0 <= k < |r| ==> r[k].Column?
  {
    if items == [] then []
    else (if items[0].Column? then [items[0]] else []) + Columns(items[1..])
  }

  function IndexOf(columns: seq<Item>, name: string): (r: Option<nat>)
    requires forall k :: 0 <= k < |columns| ==> columns[k].Column?
    ensures r.Some? ==> r.value < |columns| && columns[r.value].name == name
    ensures r.None? ==> forall k :: 0 <= k < |columns| ==> columns[k].name != name
  {
    if columns == [] then None
    else if columns[0].name == name then Some(0)
    else
      match IndexOf(columns[1..], name)
      case None => None
      case Some(k) => Some(k + 1)
  }

  /** The operand is a column of text, or of integers. */
  predicate IsColumn(columns: seq<Item>, operand: Operand, text: bool)
    requires forall k :: 0 <= k < |columns| ==> columns[k].Column?
  {
    && operand.Named?
    && var k := IndexOf(columns, operand.column);
    && k.Some? && (columns[k.value].pgType == TextType) == text
  }

  predicate MayBeNull(clauses: seq<Clause>) {
    NotNull !in clauses && Identity !in clauses
  }

  /** The item causes no error when the table is created: no column is both NULL and NOT NULL, identity columns are
      integers and say so once, and CHECKs compare columns of their kind, or values of the session with strings. */
  predicate ItemIsSound(columns: seq<Item>, item: Item)
    requires forall k :: 0 <= k < |columns| ==> columns[k].Column?
  {
    match item
    case Column(_, pgType, clauses) =>
      && (Nullable in clauses ==> MayBeNull(clauses))
      && multiset(clauses)[Identity] <= (if pgType == TextType then 0 else 1)
    case Range(low, high, _) => IsColumn(columns, low, false) && IsColumn(columns, high, false)
    case OneOf(tested, _) => tested.Constant? || IsColumn(columns, tested, true)
  }

  /** The CREATE TABLE statement succeeds. */
  predicate Creates(items: seq<Item>) {
    var columns := Columns(items);
    && (forall i, j :: 0 <= i < j < |columns| ==> columns[i].name != columns[j].name)
    && (forall item :: item in items ==> ItemIsSound(columns, item))
  }

  predicate Fits(t: PgType, v: Datum) {
    match t
    case SmallInt => v.Int? && -32768 <= v.n <= 32767
    case Integer => v.Int? && -2147483648 <= v.n <= 2147483647
    case BigInt => v.Int? && -9223372036854775808 <= v.n <= 9223372036854775807
    case TextType => v.Str?
  }

  predicate ColumnAccepts(column: Item, v: Datum)
    requires column.Column?
  {
    if v.Null? then MayBeNull(column.clauses) else Fits(column.pgType, v)
  }

  datatype Truth = True | False | Unknown

  function And(a: Truth, b: Truth): Truth {
    if a == False || b == False then False else if a == Unknown || b == Unknown then Unknown else True
  }

  function AtLeast(v: Datum, bound: int): Truth {
    if !v.Int? then Unknown else if v.n >= bound then True else False
  }

  function AtMost(v: Datum, bound: int): Truth {
    if !v.Int? then Unknown else if v.n <= bound then True else False
  }

  function In(v: Datum, values: seq<string>): Truth {
    if !v.Str? then Unknown else if v.s in values then True else False
  }

  /** The value a row has in a named column. */
  function Cell(columns: seq<Item>, row: seq<Datum>, name: string): Datum
    requires |row| == |columns|
    requires forall k :: 0 <= k < |columns| ==> columns[k].Column?
  {
    match IndexOf(columns, name)
    case None => Null
    case Some(k) => row[k]
  }

  function ValueOf(columns: seq<Item>, row: seq<Datum>, operand: Operand): Datum
    requires |row| == |columns|
    requires forall k :: 0 <= k < |columns| ==> columns[k].Column?
  {
    match operand
    case Named(name) => Cell(columns, row, name)
    case Constant(value) => value
  }

  predicate ItemAccepts(columns: seq<Item>, item: Item, row: seq<Datum>)
    requires |row| == |columns|
    requires forall k :: 0 <= k < |columns| ==> columns[k].Column?
  {
    match item
    case Column(_, _, _) => ColumnAccepts(item, Cell(columns, row, item.name))
    case Range(low, high, max) =>
      And(AtLeast(ValueOf(columns, row, low), 0), AtMost(ValueOf(columns, row, high), max)) != False
    case OneOf(tested, values) => In(ValueOf(columns, row, tested), values) != False
  }

  /** The row can be stored in the table: every column and every CHECK accepts it. */
  predicate Accepts(items: seq<Item>, row: seq<Datum>) {
    var columns := Columns(items);
    |row| == |columns| && forall item :: item in items ==> ItemAccepts(columns, item, row)
  }
}
