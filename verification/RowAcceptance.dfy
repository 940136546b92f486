/** Which rows a translated table accepts, against the MySQL column domains. */
module RowAcceptance {
  import opened Text
  import opened Literals
  import opened PostgresDdl
  import opened CreateTable
  import opened TableReading

  // ---------------------------------------------------------------------------------------------------------------
  // Columns read back

  function PgTypeOf(t: MySqlType): PgType {
    match t
    case Signed(Tiny) => SmallInt
    case Signed(Small) => SmallInt
    case Signed(Medium) => Integer
    case Signed(Regular) => Integer
    case Signed(Big) => BigInt
    case Unsigned(Tiny) => SmallInt
    case Unsigned(Small) => Integer
    case Unsigned(Medium) => Integer
    case Unsigned(Regular) => BigInt
    case Unsigned(Big) => BigInt
    case Enum(_) => TextType
  }

  function ColumnItem(c: ColumnDef): Item {
    Column(c.name.value, PgTypeOf(c.dataType), Clauses(c.options))
  }

  function Spaced(clauses: seq<Clause>): string {
    if clauses == [] then "" else " " + (ClauseText(clauses[0]) + Spaced(clauses[1..]))
  }

  lemma {:induction false} OptionsAreSpaced(clauses: seq<Clause>)
    requires clauses != []
    ensures " " + Join(ClauseTexts(clauses), " ") == Spaced(clauses)
    ensures '`' !in Spaced(clauses)
    decreases clauses
  {
    hide Join, Spaced;
    var texts := ClauseTexts(clauses);
    assert texts[1..] == ClauseTexts(clauses[1..]);
    SpacedSteps(clauses);
    JoinSteps(texts);
    if |clauses| == 1 {
      assert clauses[1..] == [];
      SpacedSteps([]);
      assert ClauseText(clauses[0]) + "" == ClauseText(clauses[0]);
    } else {
      OptionsAreSpaced(clauses[1..]);
      assert texts[1..] != [];
      ConcatAssoc(texts[0], " ", Join(texts[1..], " "));
    }
  }

  lemma {:induction false} SpacedSteps(clauses: seq<Clause>)
    ensures clauses == [] ==> Spaced(clauses) == ""
    ensures clauses != [] ==> Spaced(clauses) == " " + (ClauseText(clauses[0]) + Spaced(clauses[1..]))
  {
  }

  lemma {:induction false} JoinSteps(texts: seq<string>)
    requires texts != []
    ensures Join(texts, " ") == if |texts| == 1 then texts[0] else texts[0] + " " + Join(texts[1..], " ")
  {
  }

  lemma {:induction false} ClausesRead(clauses: seq<Clause>)
    ensures ReadClauses(Spaced(clauses)) == Some(clauses)
    decreases clauses
  {
    hide ReadClauses, Spaced;
    SpacedSteps(clauses);
    if clauses == [] {
      NothingReads();
    } else {
      ClausesRead(clauses[1..]);
      ClauseReads(clauses[0], Spaced(clauses[1..]));
      assert [clauses[0]] + clauses[1..] == clauses;
    }
  }

  lemma {:induction false} NothingReads()
    ensures ReadClauses("") == Some([])
  {
  }

  lemma {:induction false} ClauseReads(clause: Clause, rest: string)
    ensures ReadClauses(" " + (ClauseText(clause) + rest)) ==
            match ReadClauses(rest) case None => None case Some(clauses) => Some([clause] + clauses)
  {
    hide NextClause;
    var s := " " + (ClauseText(clause) + rest);
    assert s == (" " + ClauseText(clause)) + rest;
    assert s[1 + |ClauseText(clause)|..] == rest;
    ClauseIsNext(clause, rest);
  }

  lemma {:induction false} Differs(p: string, s: string, k: nat)
    requires k < |p| && k < |s| && p[k] != s[k]
    ensures !(p <= s)
  {
  }

  lemma {:induction false} ClauseIsNext(clause: Clause, rest: string)
    ensures NextClause((" " + ClauseText(clause)) + rest) == Some(clause)
  {
    var text := " " + ClauseText(clause);
    var s := text + rest;
    assert text <= s;
    assert s[1] == ClauseText(clause)[0] && s[2] == ClauseText(clause)[1];
    if clause != NotNull {
      Differs(" " + ClauseText(NotNull), s, 2);
    }
    if clause == Identity {
      Differs(" " + ClauseText(Nullable), s, 1);
    }
  }

  lemma {:induction false} TypeReads(t: MySqlType, rest: string)
    ensures ReadType(TypeText(t) + rest) == Some((PgTypeOf(t), rest))
  {
    var s := TypeText(t) + rest;
    ExpectPrefix(TypeText(t), rest);
    assert s[0] == TypeText(t)[0];
  }

  lemma {:induction false} NoClauseTexts(clauses: seq<Clause>)
    ensures ClauseTexts(clauses) == [] <==> clauses == []
  {
  }

  /** A column definition comes back as it was meant exactly if the name holds no backtick. */
  lemma {:induction false} ColumnReads(c: ColumnDef, words: string -> Word)
    requires c.name.value != ""
    ensures ReadItem(ReplaceBackticks(ColumnText(c)), words) == Some(ColumnItem(c)) <==> '`' !in c.name.value
  {
    hide ReadClauses, ReplaceBackticks, Join, Clauses, ClauseTexts, ReadType, TypeText, Doubled, ReadOperand;
    var clauses := Clauses(c.options);
    var typed := TypeText(c.dataType) + Spaced(clauses);
    NoClauseTexts(clauses);
    if clauses != [] {
      OptionsAreSpaced(clauses);
    }
    assert ColumnText(c) == QuoteIdent(c.name.value) + (" " + typed);
    TypeHasNoBacktick(c.dataType);
    FirstIsKept(ColumnText(c));
    if '`' in c.name.value {
      ReadColumnName(c, words);
    } else {
      ColumnNameIsReadBack(c.name.value, " " + typed, words);
      TypeReads(c.dataType, Spaced(clauses));
      ClausesRead(clauses);
    }
  }

  /** What is read as a column has no backtick in its name. */
  lemma {:induction false} ReadColumnName(c: ColumnDef, words: string -> Word)
    ensures var item := ReadColumn(ReplaceBackticks(ColumnText(c)), words);
            item.Some? ==> item.value.Column? && '`' !in item.value.name
  {
    hide ReplaceBackticks, ReadClauses, ReadType, PostgresBody, Join, Clauses, ClauseTexts, TypeText, Doubled;
    var s := ColumnText(c);
    assert s[0] == '"';
    NoBackticksLeft(s);
    FirstIsKept(s);
    BodyChars('"', ReplaceBackticks(s)[1..], '`');
  }

  lemma {:induction false} TypeHasNoBacktick(t: MySqlType)
    ensures '`' !in TypeText(t)
  {
  }

  // ---------------------------------------------------------------------------------------------------------------
  // CHECK constraints read back

  /** Types that need a CHECK and get one. */
  predicate Checked(t: MySqlType) {
    t.Enum? || (t.Unsigned? && t.size != Big)
  }

  function CheckItem(t: MySqlType, operand: Operand): Item
    requires Checked(t)
  {
    if t.Enum? then OneOf(operand, ReplacedAll(t.members)) else Range(operand, operand, UnsignedMax(t.size))
  }

  lemma {:induction false} CheckReads(c: ColumnDef, words: string -> Word)
    requires Checked(c.dataType) && IsPlain(c.name) && (c.dataType.Enum? ==> c.dataType.members != [])
    ensures var texts := CheckTexts(Display(c.name), c.dataType);
            && |texts| == 1
            && ReadItem(ReplaceBackticks(texts[0]), words) ==
               match RefOf(c.name, words)
               case None => None
               case Some(x) => Some(CheckItem(c.dataType, x))
  {
    hide ReadItem, ReplaceBackticks, RefOf, RangeText, EnumText, Display;
    match c.dataType {
      case Enum(members) => EnumReads(c.name, members, words);
      case Unsigned(Tiny) => RangeReads(c.name, 255, words);
      case Unsigned(Small) => RangeReads(c.name, 65535, words);
      case Unsigned(Medium) => RangeReads(c.name, 16777215, words);
      case Unsigned(Regular) => RangeReads(c.name, 4294967295, words);
    }
  }

  // ---------------------------------------------------------------------------------------------------------------
  // Whole tables read back

  /** A column as MySQL has it, whose name the translation can carry: a quoted name has no backtick in it, and no
      double quote if the column gets a CHECK. */
  predicate IsWritten(c: ColumnDef) {
    && IsIdent(c.name) && '`' !in c.name.value
    && (Checked(c.dataType) ==> IsPlain(c.name))
    && (c.dataType.Enum? ==> c.dataType.members != [])
  }

  /** Column names are distinct, whatever their case. */
  predicate Written(columns: seq<ColumnDef>) {
    && (forall k :: 0 <= k < |columns| ==> IsWritten(columns[k]))
    && (forall i, j :: 0 <= i < j < |columns| ==> ToLower(columns[i].name.value) != ToLower(columns[j].name.value))
  }

  function ColumnItems(columns: seq<ColumnDef>): (r: seq<Item>)
    ensures |r| == |columns|
    ensures forall k :: 0 <= k < |r| ==> r[k] == ColumnItem(columns[k])
  {
    if columns == [] then [] else [ColumnItem(columns[0])] + ColumnItems(columns[1..])
  }

  /** The CHECK of a column, if there is one and its name can be read. */
  function CheckOf(c: ColumnDef, words: string -> Word): seq<Item>
    requires IsWritten(c)
  {
    if Checked(c.dataType) && RefOf(c.name, words).Some? then
      [CheckItem(c.dataType, RefOf(c.name, words).value)]
    else []
  }

  function CheckItems(columns: seq<ColumnDef>, words: string -> Word): seq<Item>
    requires forall k :: 0 <= k < |columns| ==> IsWritten(columns[k])
  {
    if columns == [] then [] else CheckOf(columns[0], words) + CheckItems(columns[1..], words)
  }

  predicate AllRefer(columns: seq<ColumnDef>, words: string -> Word)
    requires forall k :: 0 <= k < |columns| ==> IsWritten(columns[k])
  {
    forall k :: 0 <= k < |columns| ==> Checked(columns[k].dataType) ==> RefOf(columns[k].name, words).Some?
  }

  lemma {:induction false} EmittedConcat(a: seq<string>, b: seq<string>)
    ensures Emitted(a + b) == Emitted(a) + Emitted(b)
  {
    if a == [] {
      assert a + b == b;
    } else {
      assert (a + b)[1..] == a[1..] + b;
      EmittedConcat(a[1..], b);
    }
  }

  lemma {:induction false} ReadConcat(a: seq<string>, b: seq<string>, words: string -> Word)
    ensures ReadItems(a + b, words) ==
            if ReadItems(a, words).Some? && ReadItems(b, words).Some? then
              Some(ReadItems(a, words).value + ReadItems(b, words).value)
            else None
  {
    hide ReadItem;
    if a == [] {
      assert a + b == b;
      assert ReadItems(b, words).Some? ==> [] + ReadItems(b, words).value == ReadItems(b, words).value;
    } else {
      assert (a + b)[1..] == a[1..] + b && (a + b)[0] == a[0];
      ReadConcat(a[1..], b, words);
      if ReadItem(a[0], words).Some? && ReadItems(a[1..], words).Some? && ReadItems(b, words).Some? {
        ConcatAssoc([ReadItem(a[0], words).value], ReadItems(a[1..], words).value, ReadItems(b, words).value);
      }
    }
  }

  lemma {:induction false} ColumnsRead(columns: seq<ColumnDef>, words: string -> Word)
    requires forall k :: 0 <= k < |columns| ==> IsWritten(columns[k])
    ensures ReadItems(Emitted(ColumnTexts(columns)), words) == Some(ColumnItems(columns))
  {
    hide ReadItem, ReplaceBackticks, ColumnText, ColumnItem, IsPlain;
    if columns != [] {
      assert IsWritten(columns[0]);
      ColumnReads(columns[0], words);
      ColumnsRead(columns[1..], words);
      var texts := Emitted(ColumnTexts(columns));
      assert texts[1..] == Emitted(ColumnTexts(columns[1..]));
    }
  }

  lemma {:induction false} ReadOne(text: string, words: string -> Word)
    ensures ReadItems(Emitted([text]), words) ==
            match ReadItem(ReplaceBackticks(text), words) case None => None case Some(item) => Some([item])
  {
    hide ReadItem, ReplaceBackticks;
    var one := [text];
    assert one[1..] == [] && Emitted(one[1..]) == [];
    var read := [ReplaceBackticks(text)];
    assert Emitted(one) == read && read[1..] == [];
    assert ReadItems(read[1..], words) == Some([]);
    var item := ReadItem(read[0], words);
    assert item.Some? ==> [item.value] + [] == [item.value];
  }

  lemma {:induction false} CheckTextsRead(c: ColumnDef, words: string -> Word)
    requires IsWritten(c)
    ensures ReadItems(Emitted(CheckTexts(Display(c.name), c.dataType)), words) ==
            if Checked(c.dataType) ==> RefOf(c.name, words).Some? then Some(CheckOf(c, words)) else None
  {
    hide ReadItem, ReplaceBackticks, RefOf, CheckItem, Display;
    if Checked(c.dataType) {
      CheckReads(c, words);
      var texts := CheckTexts(Display(c.name), c.dataType);
      assert texts == [texts[0]];
      ReadOne(texts[0], words);
    } else {
      assert CheckTexts(Display(c.name), c.dataType) == [];
    }
  }

  lemma {:induction false} ChecksRead(columns: seq<ColumnDef>, words: string -> Word)
    requires forall k :: 0 <= k < |columns| ==> IsWritten(columns[k])
    ensures ReadItems(Emitted(AllCheckTexts(columns)), words) ==
            if AllRefer(columns, words) then Some(CheckItems(columns, words)) else None
  {
    hide ReadItem, ReplaceBackticks, RefOf, CheckItem, Display, CheckTexts, CheckOf, IsIdent, IsPlain;
    if columns != [] {
      var c := columns[0];
      CheckTextsRead(c, words);
      ChecksRead(columns[1..], words);
      EmittedConcat(CheckTexts(Display(c.name), c.dataType), AllCheckTexts(columns[1..]));
      ReadConcat(Emitted(CheckTexts(Display(c.name), c.dataType)), Emitted(AllCheckTexts(columns[1..])), words);
      AllReferSteps(columns, words);
    }
  }

  lemma {:induction false} AllReferSteps(columns: seq<ColumnDef>, words: string -> Word)
    requires columns != [] && forall k :: 0 <= k < |columns| ==> IsWritten(columns[k])
    ensures AllRefer(columns, words) <==>
            (Checked(columns[0].dataType) ==> RefOf(columns[0].name, words).Some?)
            && AllRefer(columns[1..], words)
  {
    hide RefOf, IsIdent, IsPlain;
    assert columns == [columns[0]] + columns[1..];
    if AllRefer(columns, words) {
      forall k | 0 <= k < |columns[1..]| && Checked(columns[1..][k].dataType)
        ensures RefOf(columns[1..][k].name, words).Some?
      {
        assert columns[1..][k] == columns[k + 1];
      }
    }
  }

  /** PostgreSQL reads back every column and every CHECK that was meant, or rejects the statement over a name. */
  lemma {:induction false} TableIsReadBack(columns: seq<ColumnDef>, words: string -> Word)
    requires forall k :: 0 <= k < |columns| ==> IsWritten(columns[k])
    ensures ReadItems(PostgresItems(columns), words) ==
            if AllRefer(columns, words) then Some(ColumnItems(columns) + CheckItems(columns, words)) else None
  {
    hide ReadItems, Emitted, ColumnTexts, AllCheckTexts, IsWritten;
    EmittedConcat(ColumnTexts(columns), AllCheckTexts(columns));
    ReadConcat(Emitted(ColumnTexts(columns)), Emitted(AllCheckTexts(columns)), words);
    ColumnsRead(columns, words);
    ChecksRead(columns, words);
  }

  // ---------------------------------------------------------------------------------------------------------------
  // Creating the table

  lemma {:induction false} ColumnsOf(columns: seq<ColumnDef>, rest: seq<Item>)
    requires forall k :: 0 <= k < |rest| ==> !rest[k].Column?
    ensures Columns(ColumnItems(columns) + rest) == ColumnItems(columns)
  {
    if columns == [] {
      assert ColumnItems(columns) + rest == rest;
      NoColumnsIn(rest);
    } else {
      var items := ColumnItems(columns) + rest;
      assert items[1..] == ColumnItems(columns[1..]) + rest;
      ColumnsOf(columns[1..], rest);
    }
  }

  lemma {:induction false} NoColumnsIn(rest: seq<Item>)
    requires forall k :: 0 <= k < |rest| ==> !rest[k].Column?
    ensures Columns(rest) == []
  {
    if rest != [] {
      NoColumnsIn(rest[1..]);
    }
  }

  lemma {:induction false} ChecksAreMembers(columns: seq<ColumnDef>, words: string -> Word, item: Item)
    requires forall k :: 0 <= k < |columns| ==> IsWritten(columns[k])
    ensures item in CheckItems(columns, words) <==>
            exists k :: 0 <= k < |columns| && item in CheckOf(columns[k], words)
    ensures item in CheckItems(columns, words) ==> !item.Column?
  {
    hide IsWritten, RefOf;
    if columns != [] {
      ChecksAreMembers(columns[1..], words, item);
      if k :| 0 <= k < |columns| && item in CheckOf(columns[k], words) {
        assert k > 0 ==> columns[k] == columns[1..][k - 1];
      }
      if k :| 0 <= k < |columns[1..]| && item in CheckOf(columns[1..][k], words) {
        assert columns[1..][k] == columns[k + 1];
      }
    }
  }

  lemma {:induction false} IndexOfName(items: seq<Item>, k: nat)
    requires k < |items| && forall j :: 0 <= j < |items| ==> items[j].Column?
    requires forall i, j :: 0 <= i < j < |items| ==> items[i].name != items[j].name
    ensures IndexOf(items, items[k].name) == Some(k)
  {
    var r := IndexOf(items, items[k].name);
    assert r.Some?;
  }

  lemma {:induction false} DistinctNames(columns: seq<ColumnDef>)
    requires Written(columns)
    ensures forall i, j :: 0 <= i < j < |columns| ==> ColumnItems(columns)[i].name != ColumnItems(columns)[j].name
  {
    hide ToLower, IsWritten;
  }

  lemma {:induction false} FindColumn(columns: seq<ColumnDef>, k: nat)
    requires Written(columns) && k < |columns|
    ensures IndexOf(ColumnItems(columns), columns[k].name.value) == Some(k)
  {
    hide IndexOf, ToLower, IsWritten;
    DistinctNames(columns);
    IndexOfName(ColumnItems(columns), k);
  }

  lemma {:induction false} FoldTwice(v: string)
    ensures ToLower(ToLower(v)) == ToLower(v)
  {
  }

  /** A folded name that differs from its column's names no column at all. */
  lemma {:induction false} FoldedNameIsLost(columns: seq<ColumnDef>, k: nat)
    requires Written(columns) && k < |columns| && ToLower(columns[k].name.value) != columns[k].name.value
    ensures IndexOf(ColumnItems(columns), ToLower(columns[k].name.value)) == None
  {
    hide ToLower, IsWritten;
    var name := ToLower(columns[k].name.value);
    FoldTwice(columns[k].name.value);
    forall j | 0 <= j < |columns| ensures ColumnItems(columns)[j].name != name {
      assert ColumnItems(columns)[j] == ColumnItem(columns[j]);
      assert j < k ==> ToLower(columns[j].name.value) != ToLower(columns[k].name.value);
      assert j > k ==> ToLower(columns[k].name.value) != ToLower(columns[j].name.value);
    }
  }

  /** No column is declared both NULL and NOT NULL. */
  predicate NoConflict(options: seq<ColumnOption>) {
    Kept(Nullable) in options ==> MySqlNullable(options)
  }

  /** The column is an identity column once, and an integer one, if at all. */
  predicate IdentityFits(c: ColumnDef) {
    multiset(c.options)[Kept(Identity)] + (if AutoIncrement in c.options then 1 else 0) <=
    (if c.dataType.Enum? then 0 else 1)
  }

  lemma {:induction false} KeptCount(options: seq<ColumnOption>, clause: Clause)
    ensures multiset(KeptClauses(options))[clause] == multiset(options)[Kept(clause)]
  {
    if options != [] {
      KeptCount(options[1..], clause);
      assert options == [options[0]] + options[1..];
      assert multiset(options) == multiset{options[0]} + multiset(options[1..]);
    }
  }

  lemma {:induction false} IdentityCount(c: ColumnDef)
    ensures multiset(ColumnItem(c).clauses)[Identity] <= (if ColumnItem(c).pgType == TextType then 0 else 1) <==>
            IdentityFits(c)
  {
    KeptCount(c.options, Identity);
  }

  lemma {:induction false} KeptMembers(options: seq<ColumnOption>, clause: Clause)
    ensures clause in KeptClauses(options) <==> Kept(clause) in options
  {
    if options != [] {
      KeptMembers(options[1..], clause);
      assert options == [options[0]] + options[1..];
    }
  }

  /** NULL is allowed in a column by both systems or by neither. */
  lemma {:induction false} SameNullability(options: seq<ColumnOption>)
    ensures MayBeNull(Clauses(options)) <==> MySqlNullable(options)
    ensures Nullable in Clauses(options) <==> Kept(Nullable) in options
  {
    KeptMembers(options, NotNull);
    KeptMembers(options, Identity);
    KeptMembers(options, Nullable);
  }

  predicate IsCreated(columns: seq<ColumnDef>, words: string -> Word) {
    var items := ReadItems(PostgresItems(columns), words);
    items.Some? && Creates(items.value)
  }

  /** The value of the session that the CHECK of an ENUM column tests instead of the column. */
  function TestedInstead(c: ColumnDef, words: string -> Word): Option<Datum> {
    match RefOf(c.name, words)
    case Some(Constant(value)) => if c.dataType.Enum? then Some(value) else None
    case _ => None
  }

  /** The column raises no error: its options agree, an identity fits its type, and the name in its CHECK is read back
      as itself, or else means a value that can be compared with strings. */
  predicate IsSound(c: ColumnDef, words: string -> Word) {
    && NoConflict(c.options) && IdentityFits(c)
    && (Checked(c.dataType) ==> Portable(c.name, words) || TestedInstead(c, words).Some?)
  }

  lemma {:induction false} ColumnIsSound(columns: seq<ColumnDef>, k: nat, words: string -> Word)
    requires Written(columns) && k < |columns|
    requires Checked(columns[k].dataType) ==> RefOf(columns[k].name, words).Some?
    ensures var items := ColumnItems(columns);
            IsSound(columns[k], words) <==>
            ItemIsSound(items, ColumnItem(columns[k]))
            && forall item :: item in CheckOf(columns[k], words) ==> ItemIsSound(items, item)
  {
    hide IndexOf, ToLower, Clauses, MayBeNull, Portable, RefOf, IsPlain, IsIdent, CheckItem, ItemIsSound;
    var (c, items) := (columns[k], ColumnItems(columns));
    SameNullability(c.options);
    ColumnClauseSound(items, c);
    if Checked(c.dataType) {
      assert IsWritten(c);
      RefOfPortable(c.name, words);
      CheckIsSound(columns, k, words);
      assert CheckOf(c, words) == [CheckItem(c.dataType, RefOf(c.name, words).value)];
      assert CheckItem(c.dataType, RefOf(c.name, words).value) in CheckOf(c, words);
    }
  }

  lemma {:induction false} ColumnClauseSound(items: seq<Item>, c: ColumnDef)
    requires forall k :: 0 <= k < |items| ==> items[k].Column?
    ensures ItemIsSound(items, ColumnItem(c)) <==> NoConflict(c.options) && IdentityFits(c)
  {
    hide Clauses, IdentityFits;
    SameNullability(c.options);
    IdentityCount(c);
  }

  /** A CHECK raises no error exactly if the name it holds is the column's, or means a value that an ENUM is
      tested for. */
  lemma {:induction false} CheckIsSound(columns: seq<ColumnDef>, k: nat, words: string -> Word)
    requires Written(columns) && k < |columns| && Checked(columns[k].dataType)
    requires RefOf(columns[k].name, words).Some?
    ensures ItemIsSound(ColumnItems(columns), CheckItem(columns[k].dataType, RefOf(columns[k].name, words).value))
            <==> RefOf(columns[k].name, words) == Some(Named(columns[k].name.value))
                 || TestedInstead(columns[k], words).Some?
  {
    hide IndexOf, ToLower, Clauses, IsWritten;
    var c := columns[k];
    FindColumn(columns, k);
    assert ColumnItems(columns)[k] == ColumnItem(c);
    assert PgTypeOf(c.dataType) == TextType <==> c.dataType.Enum?;
    if RefOf(c.name, words).value.Named? && RefOf(c.name, words) != Some(Named(c.name.value)) {
      RefIsFolded(c.name, words);
      FoldedNameIsLost(columns, k);
    }
  }

  lemma RefIsFolded(name: Ident, words: string -> Word)
    requires RefOf(name, words).Some? && RefOf(name, words).value.Named?
    ensures RefOf(name, words) in {Some(Named(name.value)), Some(Named(ToLower(name.value)))}
  {
  }

  /** The statement succeeds exactly if every column is sound: a bare name that is checked must be lower case, begin
      as an identifier does and be an ordinary word, for the CHECK repeats it without quotes; or, in an ENUM, it may
      mean a value of the session. */
  lemma {:induction false} CreatedExactly(columns: seq<ColumnDef>, words: string -> Word)
    requires Written(columns)
    ensures IsCreated(columns, words) <==> forall k :: 0 <= k < |columns| ==> IsSound(columns[k], words)
  {
    hide ReadItems, PostgresItems, RefOf, CheckOf, IsWritten, ItemIsSound, IsSound, ToLower, Portable, ColumnItem;
    TableIsReadBack(columns, words);
    if AllRefer(columns, words) {
      Assemble(columns, words);
      forall k | 0 <= k < |columns|
        ensures IsSound(columns[k], words) <==>
                ItemIsSound(ColumnItems(columns), ColumnItem(columns[k]))
                && forall item :: item in CheckOf(columns[k], words) ==> ItemIsSound(ColumnItems(columns), item)
      {
        ColumnIsSound(columns, k, words);
      }
      SoundByColumn(columns, words);
      DistinctNames(columns);
    } else {
      var k :| 0 <= k < |columns| && Checked(columns[k].dataType) && RefOf(columns[k].name, words).None?;
      NoReference(columns[k], words);
    }
  }

  lemma {:induction false} NoReference(c: ColumnDef, words: string -> Word)
    requires IsWritten(c) && Checked(c.dataType) && RefOf(c.name, words).None?
    ensures !IsSound(c, words)
  {
    RefOfPortable(c.name, words);
  }

  lemma {:induction false} Assemble(columns: seq<ColumnDef>, words: string -> Word)
    requires forall k :: 0 <= k < |columns| ==> IsWritten(columns[k])
    ensures Columns(ColumnItems(columns) + CheckItems(columns, words)) == ColumnItems(columns)
  {
    hide IsWritten, Columns, ColumnItem, CheckItems;
    var checks := CheckItems(columns, words);
    forall k | 0 <= k < |checks| ensures !checks[k].Column? {
      ChecksAreMembers(columns, words, checks[k]);
    }
    ColumnsOf(columns, checks);
  }

  lemma {:induction false} SoundByColumn(columns: seq<ColumnDef>, words: string -> Word)
    requires forall k :: 0 <= k < |columns| ==> IsWritten(columns[k])
    ensures var all := ColumnItems(columns);
            (forall item :: item in all + CheckItems(columns, words) ==> ItemIsSound(all, item)) <==>
            (forall k :: 0 <= k < |columns| ==>
               ItemIsSound(all, ColumnItem(columns[k]))
               && forall item :: item in CheckOf(columns[k], words) ==> ItemIsSound(all, item))
  {
    hide IsWritten, ItemIsSound, ColumnItem, CheckOf, CheckItems;
    var all := ColumnItems(columns);
    forall item ensures item in CheckItems(columns, words) <==>
                        exists k :: 0 <= k < |columns| && item in CheckOf(columns[k], words) {
      ChecksAreMembers(columns, words, item);
    }
    forall k | 0 <= k < |columns| ensures ColumnItem(columns[k]) in all {
      assert all[k] == ColumnItem(columns[k]);
    }
  }

  // ---------------------------------------------------------------------------------------------------------------
  // Rows

  /** The table that PostgreSQL has created, if it has. */
  function TableOf(columns: seq<ColumnDef>, words: string -> Word): seq<Item> {
    match ReadItems(PostgresItems(columns), words)
    case Some(items) => items
    case None => []
  }

  /** PostgreSQL's type and CHECK together let the non-null value through. */
  predicate Holds(t: MySqlType, v: Datum) {
    && Fits(PgTypeOf(t), v)
    && (Checked(t) ==> if t.Enum? then v.Str? && v.s in ReplacedAll(t.members)
                       else v.Int? && 0 <= v.n <= UnsignedMax(t.size))
  }

  /** The CHECK tests a value of the session that is no member: no row passes. */
  predicate Blocks(c: ColumnDef, words: string -> Word) {
    && TestedInstead(c, words).Some?
    && In(TestedInstead(c, words).value, ReplacedAll(c.dataType.members)) == False
  }

  predicate Stores(c: ColumnDef, v: Datum, words: string -> Word) {
    && !Blocks(c, words)
    && if v.Null? then MySqlNullable(c.options)
       else if TestedInstead(c, words).Some? then v.Str?
       else Holds(c.dataType, v)
  }

  lemma {:induction false} ColumnStores(columns: seq<ColumnDef>, k: nat, row: seq<Datum>, words: string -> Word)
    requires Written(columns) && k < |columns| == |row| && IsSound(columns[k], words)
    ensures var items := ColumnItems(columns);
            Stores(columns[k], row[k], words) <==>
            ItemAccepts(items, ColumnItem(columns[k]), row)
            && forall item :: item in CheckOf(columns[k], words) ==> ItemAccepts(items, item, row)
  {
    hide IndexOf, ToLower, Clauses, Portable, RefOf, IsPlain, IsIdent, ReplacedAll;
    var c := columns[k];
    SameNullability(c.options);
    FindColumn(columns, k);
    assert ColumnItems(columns)[k] == ColumnItem(c);
    assert Cell(ColumnItems(columns), row, c.name.value) == row[k];
    if Checked(c.dataType) {
      assert IsWritten(c);
      RefOfPortable(c.name, words);
      var operand := RefOf(c.name, words).value;
      assert CheckOf(c, words) == [CheckItem(c.dataType, operand)];
      assert CheckItem(c.dataType, operand) in CheckOf(c, words);
    } else {
      assert CheckOf(c, words) == [];
    }
  }

  lemma {:induction false} AcceptsByItem(columns: seq<ColumnDef>, row: seq<Datum>, words: string -> Word)
    requires |row| == |columns| && forall k :: 0 <= k < |columns| ==> IsWritten(columns[k])
    ensures var all := ColumnItems(columns);
            (forall item :: item in all + CheckItems(columns, words) ==> ItemAccepts(all, item, row)) <==>
            (forall k :: 0 <= k < |columns| ==>
               ItemAccepts(all, ColumnItem(columns[k]), row)
               && forall item :: item in CheckOf(columns[k], words) ==> ItemAccepts(all, item, row))
  {
    hide IsWritten, ItemAccepts, ColumnItem, CheckOf, CheckItems;
    var all := ColumnItems(columns);
    forall item ensures item in CheckItems(columns, words) <==>
                        exists k :: 0 <= k < |columns| && item in CheckOf(columns[k], words) {
      ChecksAreMembers(columns, words, item);
    }
    forall k | 0 <= k < |columns| ensures ColumnItem(columns[k]) in all {
      assert all[k] == ColumnItem(columns[k]);
    }
  }

  /** The created table accepts a row exactly if each column lets its value through: no CHECK reaches past its own
      column, and none is satisfied by NULL alone where NULL is barred. */
  lemma {:induction false} AcceptsByColumn(columns: seq<ColumnDef>, row: seq<Datum>, words: string -> Word)
    requires Written(columns)
    ensures IsCreated(columns, words) ==>
              (Accepts(TableOf(columns, words), row) <==>
               |row| == |columns| && forall k :: 0 <= k < |row| ==> Stores(columns[k], row[k], words))
  {
    hide ReadItems, PostgresItems, RefOf, CheckOf, IsWritten, ItemAccepts, IsSound, ToLower, Stores, ColumnItem,
         Creates;
    CreatedExactly(columns, words);
    TableIsReadBack(columns, words);
    Assemble(columns, words);
    if IsCreated(columns, words) && |row| == |columns| {
      forall k | 0 <= k < |columns|
        ensures Stores(columns[k], row[k], words) <==>
                ItemAccepts(ColumnItems(columns), ColumnItem(columns[k]), row)
                && forall item :: item in CheckOf(columns[k], words) ==>
                     ItemAccepts(ColumnItems(columns), item, row)
      {
        ColumnStores(columns, k, row, words);
      }
      AcceptsByItem(columns, row, words);
    }
  }

  // ---------------------------------------------------------------------------------------------------------------
  // The two directions, column by column

  /** PostgreSQL holds every value that MySQL holds. */
  predicate TypeLosesNothing(t: MySqlType) {
    t != Unsigned(Big) && (t.Enum? ==> forall m :: m in t.members ==> '`' !in m)
  }

  /** PostgreSQL holds no value that MySQL does not. */
  predicate TypeAddsNothing(t: MySqlType) {
    && t != Signed(Tiny) && t != Signed(Medium) && t != Unsigned(Big)
    && (t.Enum? ==> forall m :: m in t.members ==> ReplaceBackticks(m) in t.members)
  }

  predicate LosesNothing(c: ColumnDef, words: string -> Word) {
    if TestedInstead(c, words).Some? then !Blocks(c, words) else TypeLosesNothing(c.dataType)
  }

  predicate AddsNothing(c: ColumnDef, words: string -> Word) {
    TestedInstead(c, words).None? && TypeAddsNothing(c.dataType)
  }

  lemma {:induction false} ReplacedMembers(members: seq<string>, s: string)
    ensures s in ReplacedAll(members) <==> exists m :: m in members && s == ReplaceBackticks(m)
  {
    if s in ReplacedAll(members) {
      var k :| 0 <= k < |members| && ReplacedAll(members)[k] == s;
      assert members[k] in members;
    }
    if m :| m in members && s == ReplaceBackticks(m) {
      var k :| 0 <= k < |members| && members[k] == m;
      assert ReplacedAll(members)[k] == s;
    }
  }

  lemma {:induction false} ColumnLosesNothing(c: ColumnDef, v: Datum, words: string -> Word)
    requires LosesNothing(c, words) && Domain(c.dataType, v) && !v.Null?
    ensures Stores(c, v, words)
  {
    hide ReplacedAll, RefOf;
    var t := c.dataType;
    if t.Enum? && TestedInstead(c, words).None? {
      ReplaceNothing(v.s);
      ReplacedMembers(t.members, v.s);
    }
  }

  lemma {:induction false} ColumnAddsNothing(c: ColumnDef, v: Datum, words: string -> Word)
    requires AddsNothing(c, words) && Stores(c, v, words) && !v.Null?
    ensures Domain(c.dataType, v)
  {
    hide ReplacedAll, RefOf, Blocks;
    if c.dataType.Enum? {
      ReplacedMembers(c.dataType.members, v.s);
    }
  }

  lemma {:induction false} LostValue(c: ColumnDef, words: string -> Word) returns (v: Datum)
    requires !LosesNothing(c, words) && (c.dataType.Enum? ==> c.dataType.members != [])
    ensures !v.Null? && Domain(c.dataType, v) && !Stores(c, v, words)
  {
    hide ReplacedAll, RefOf;
    var t := c.dataType;
    if TestedInstead(c, words).Some? {
      v := MySqlSample(t);
      Samples(t);
    } else if t.Enum? {
      var m :| m in t.members && '`' in m;
      ReplacedMembers(t.members, m);
      v := Str(m);
    } else {
      v := Int(18446744073709551615);
    }
  }

  /** A text longer than all members. */
  lemma {:induction false} Longer(members: seq<string>) returns (s: string)
    ensures forall m :: m in members ==> |m| < |s|
  {
    s := "x";
    if members != [] {
      s := Longer(members[1..]);
      s := s + members[0] + "x";
    }
  }

  lemma {:induction false} AddedValue(c: ColumnDef, words: string -> Word) returns (v: Datum)
    requires !AddsNothing(c, words) && !Blocks(c, words)
    ensures !v.Null? && Stores(c, v, words) && !Domain(c.dataType, v)
  {
    hide ReplacedAll, RefOf;
    if TestedInstead(c, words).Some? {
      var s := Longer(c.dataType.members);
      return Str(s);
    }
    match c.dataType {
      case Enum(members) =>
        var m :| m in members && ReplaceBackticks(m) !in members;
        ReplacedMembers(members, ReplaceBackticks(m));
        v := Str(ReplaceBackticks(m));
      case Signed(Tiny) => v := Int(128);
      case Signed(_) => v := Int(8388608);
      case Unsigned(_) => v := Int(-1);
    }
  }

  /** Any type has a value on either side. */
  function MySqlSample(t: MySqlType): Datum
    requires t.Enum? ==> t.members != []
  {
    if t.Enum? then Str(t.members[0]) else Int(0)
  }

  function PgSample(t: MySqlType): Datum
    requires t.Enum? ==> t.members != []
  {
    if t.Enum? then Str(ReplaceBackticks(t.members[0])) else Int(0)
  }

  lemma {:induction false} Samples(t: MySqlType)
    requires t.Enum? ==> t.members != []
    ensures Domain(t, MySqlSample(t)) && !MySqlSample(t).Null?
    ensures Holds(t, PgSample(t)) && !PgSample(t).Null?
  {
    if t.Enum? {
      assert t.members[0] in t.members;
      ReplacedMembers(t.members, ReplaceBackticks(t.members[0]));
    }
  }

  // ---------------------------------------------------------------------------------------------------------------
  // The two directions, table by table

  /** Every row that MySQL accepts stays acceptable exactly if no column is BIGINT UNSIGNED, no ENUM member holds a
      backtick, and no ENUM has a bare name that means a value of the session which is no member. */
  lemma {:induction false} NoRowIsLost(columns: seq<ColumnDef>, words: string -> Word)
    requires Written(columns)
    ensures IsCreated(columns, words) ==>
              ((forall row :: MySqlAccepts(columns, row) ==> Accepts(TableOf(columns, words), row)) <==>
               forall k :: 0 <= k < |columns| ==> LosesNothing(columns[k], words))
  {
    hide LosesNothing, Domain, Stores, TableOf, Accepts, IsCreated, ToLower;
    forall row: seq<Datum> | IsCreated(columns, words) && MySqlAccepts(columns, row)
                             && forall k :: 0 <= k < |columns| ==> LosesNothing(columns[k], words)
      ensures Accepts(TableOf(columns, words), row)
    {
      AcceptsByColumn(columns, row, words);
      forall k | 0 <= k < |row| ensures Stores(columns[k], row[k], words) {
        if row[k].Null? {
          NullIsStored(columns[k], words);
        } else {
          ColumnLosesNothing(columns[k], row[k], words);
        }
      }
    }
    if k :| 0 <= k < |columns| && !LosesNothing(columns[k], words) {
      assert IsWritten(columns[k]);
      var lost := LostValue(columns[k], words);
      var row := seq(|columns|, j requires 0 <= j < |columns| =>
                       assert IsWritten(columns[j]); if j == k then lost else MySqlSample(columns[j].dataType));
      forall j | 0 <= j < |row| ensures !row[j].Null? && Domain(columns[j].dataType, row[j]) {
        assert IsWritten(columns[j]);
        Samples(columns[j].dataType);
      }
      AcceptsByColumn(columns, row, words);
      assert !Stores(columns[k], row[k], words);
      assert MySqlAccepts(columns, row);
      assert IsCreated(columns, words) ==> !Accepts(TableOf(columns, words), row);
    }
  }

  lemma {:induction false} NullIsStored(c: ColumnDef, words: string -> Word)
    requires LosesNothing(c, words) && MySqlNullable(c.options)
    ensures Stores(c, Null, words)
  {
    hide RefOf, ReplacedAll;
  }

  /** No row becomes acceptable that MySQL rejects exactly if no column is a signed TINYINT or MEDIUMINT, which get a
      wider type and no CHECK, or BIGINT UNSIGNED, which gets no CHECK either, replacing backticks leads from no
      ENUM member to a text that is none, and no ENUM has a bare name that means a value of the session; or if the table
      accepts no row at all, because such a value is no member. */
  lemma {:induction false} NoRowIsAdded(columns: seq<ColumnDef>, words: string -> Word)
    requires Written(columns)
    ensures IsCreated(columns, words) ==>
              ((forall row :: Accepts(TableOf(columns, words), row) ==> MySqlAccepts(columns, row)) <==>
               (exists k :: 0 <= k < |columns| && Blocks(columns[k], words))
               || forall k :: 0 <= k < |columns| ==> AddsNothing(columns[k], words))
  {
    hide AddsNothing, Domain, Stores, Blocks, TableOf, Accepts, IsCreated, ToLower;
    if k :| 0 <= k < |columns| && Blocks(columns[k], words) {
      forall row: seq<Datum> | IsCreated(columns, words) ensures !Accepts(TableOf(columns, words), row) {
        AcceptsByColumn(columns, row, words);
        if |row| == |columns| {
          BlockedStoresNothing(columns[k], row[k], words);
        }
      }
    } else if k :| 0 <= k < |columns| && !AddsNothing(columns[k], words) {
      RowIsAdded(columns, k, words);
    } else {
      forall row: seq<Datum> | IsCreated(columns, words) && Accepts(TableOf(columns, words), row)
        ensures MySqlAccepts(columns, row)
      {
        AcceptsByColumn(columns, row, words);
        forall k | 0 <= k < |row|
          ensures if row[k].Null? then MySqlNullable(columns[k].options) else Domain(columns[k].dataType, row[k])
        {
          assert Stores(columns[k], row[k], words);
          if row[k].Null? {
            StoredNull(columns[k], words);
          } else {
            ColumnAddsNothing(columns[k], row[k], words);
          }
        }
      }
    }
  }

  lemma {:induction false} BlockedStoresNothing(c: ColumnDef, v: Datum, words: string -> Word)
    requires Blocks(c, words)
    ensures !Stores(c, v, words)
  {
    hide Blocks;
  }

  lemma {:induction false} StoredNull(c: ColumnDef, words: string -> Word)
    requires Stores(c, Null, words)
    ensures MySqlNullable(c.options)
  {
    hide Blocks;
  }

  lemma {:induction false} RowIsAdded(columns: seq<ColumnDef>, k: nat, words: string -> Word)
    requires Written(columns) && k < |columns| && !AddsNothing(columns[k], words)
    requires forall j :: 0 <= j < |columns| ==> !Blocks(columns[j], words)
    ensures IsCreated(columns, words) ==>
              exists row :: Accepts(TableOf(columns, words), row) && !MySqlAccepts(columns, row)
  {
    hide AddsNothing, Domain, Stores, Blocks, TableOf, Accepts, IsCreated, ToLower;
    var added := AddedValue(columns[k], words);
    var row := seq(|columns|, j requires 0 <= j < |columns| =>
                     assert IsWritten(columns[j]); if j == k then added else PgSample(columns[j].dataType));
    forall j | 0 <= j < |row| ensures Stores(columns[j], row[j], words) {
      assert IsWritten(columns[j]);
      SampleIsStored(columns[j], words);
    }
    AcceptsByColumn(columns, row, words);
    assert row[k] == added;
    assert !MySqlAccepts(columns, row);
  }

  lemma {:induction false} SampleIsStored(c: ColumnDef, words: string -> Word)
    requires (c.dataType.Enum? ==> c.dataType.members != []) && !Blocks(c, words)
    ensures Stores(c, PgSample(c.dataType), words)
  {
    hide Blocks, RefOf, ReplacedAll;
    Samples(c.dataType);
  }

  /** A table that loses a row was translated with the BIGINT UNSIGNED warning, or has an ENUM member with a backtick,
      or an ENUM whose bare name means a value of the session; for the last two there is no warning of their own. */
  lemma {:induction false} LossIsWarned(columns: seq<ColumnDef>, row: seq<Datum>, words: string -> Word)
    requires Written(columns)
    ensures IsCreated(columns, words) && MySqlAccepts(columns, row) && !Accepts(TableOf(columns, words), row) ==>
              exists k :: 0 <= k < |columns|
                && (|| BigIntUnsigned(Display(columns[k].name)) in AllWarnings(columns)
                    || Blocks(columns[k], words)
                    || (columns[k].dataType.Enum? && exists m :: m in columns[k].dataType.members && '`' in m))
  {
    hide TableOf, Accepts, IsCreated, ToLower, AllWarnings, MySqlAccepts, RefOf, Blocks;
    NoRowIsLost(columns, words);
    if IsCreated(columns, words) && MySqlAccepts(columns, row) && !Accepts(TableOf(columns, words), row) {
      var k :| 0 <= k < |columns| && !LosesNothing(columns[k], words);
      if columns[k].dataType == Unsigned(Big) {
        WarningOf(columns, k);
      }
    }
  }

  lemma {:induction false} WarningOf(columns: seq<ColumnDef>, k: nat)
    requires k < |columns| && columns[k].dataType == Unsigned(Big)
    ensures BigIntUnsigned(Display(columns[k].name)) in AllWarnings(columns)
  {
    if k > 0 {
      assert columns[1..][k - 1] == columns[k];
      WarningOf(columns[1..], k - 1);
    } else {
      assert BigIntUnsigned(Display(columns[0].name)) in TypeWarnings(Display(columns[0].name), columns[0].dataType);
    }
  }

  // ---------------------------------------------------------------------------------------------------------------
  // Failing inputs

  lemma {:induction false} OneColumn(c: ColumnDef, v: Datum, words: string -> Word)
    requires IsWritten(c)
    ensures Written([c]) && (IsCreated([c], words) <==> IsSound(c, words))
    ensures IsSound(c, words) ==> (Accepts(TableOf([c], words), [v]) <==> Stores(c, v, words))
    ensures MySqlAccepts([c], [v]) <==>
            if v.Null? then MySqlNullable(c.options) else Domain(c.dataType, v)
  {
    hide IsWritten, IsSound, Stores, Accepts, TableOf, IsCreated, ToLower;
    var columns := [c];
    CreatedExactly(columns, words);
    AcceptsByColumn(columns, [v], words);
    assert forall k :: 0 <= k < |columns| ==> columns[k] == c;
    assert columns[0] == c && [v][0] == v;
  }

  /** An unsigned column with an upper-case bare name, and an ENUM that counts itself up, are rejected. */
  lemma RejectedTables(words: string -> Word)
    ensures var upper := ColumnDef(Ident("Id", false), Unsigned(Regular), []);
            Written([upper]) && !IsCreated([upper], words)
    ensures var counting := ColumnDef(Ident("e", true), Enum(["a"]), [AutoIncrement]);
            Written([counting]) && !IsCreated([counting], words)
  {
    var upper := ColumnDef(Ident("Id", false), Unsigned(Regular), []);
    var counting := ColumnDef(Ident("e", true), Enum(["a"]), [AutoIncrement]);
    assert upper.name.value[0] == 'I';
    assert AutoIncrement in counting.options;
    OneColumn(upper, Null, words);
    OneColumn(counting, Null, words);
  }

  /** The largest BIGINT UNSIGNED and an ENUM member with a backtick are lost; 128 in a TINYINT and -1 in a BIGINT
      UNSIGNED are added. */
  lemma LostAndAddedRows(words: string -> Word)
    ensures var big := [ColumnDef(Ident("n", true), Unsigned(Big), [])];
            && Written(big) && IsCreated(big, words)
            && MySqlAccepts(big, [Int(18446744073709551615)])
            && !Accepts(TableOf(big, words), [Int(18446744073709551615)])
            && !MySqlAccepts(big, [Int(-1)]) && Accepts(TableOf(big, words), [Int(-1)])
    ensures var ticked := [ColumnDef(Ident("e", true), Enum(["a`b"]), [])];
            && Written(ticked) && IsCreated(ticked, words)
            && MySqlAccepts(ticked, [Str("a`b")]) && !Accepts(TableOf(ticked, words), [Str("a`b")])
    ensures var tiny := [ColumnDef(Ident("n", true), Signed(Tiny), [])];
            && Written(tiny) && IsCreated(tiny, words)
            && !MySqlAccepts(tiny, [Int(128)]) && Accepts(TableOf(tiny, words), [Int(128)])
  {
    hide Accepts, TableOf, IsCreated, Written, MySqlAccepts;
    var big := ColumnDef(Ident("n", true), Unsigned(Big), []);
    var ticked := ColumnDef(Ident("e", true), Enum(["a`b"]), []);
    var tiny := ColumnDef(Ident("n", true), Signed(Tiny), []);
    OneColumn(big, Int(18446744073709551615), words);
    OneColumn(big, Int(-1), words);
    OneColumn(tiny, Int(128), words);
    OneColumn(ticked, Str("a`b"), words);
    assert "a`b" in ticked.dataType.members && '`' in "a`b" by { assert "a`b"[1] == '`'; }
    assert "a`b" !in ReplacedAll(["a`b"]) by {
      ReplacedMembers(["a`b"], "a`b");
      NoBackticksLeft("a`b");
    }
  }

  /** An ENUM with the bare name `user` is created, and then no row is accepted while the session is that of another
      user than its members name. */
  lemma UserLosesRows(words: string -> Word)
    requires words("user") == SessionValue(Str("postgres"))
    ensures var user := [ColumnDef(Ident("user", false), Enum(["a", "b"]), [])];
            && Written(user) && IsCreated(user, words)
            && MySqlAccepts(user, [Str("a")]) && !Accepts(TableOf(user, words), [Str("a")])
            && BigIntUnsigned("user") !in AllWarnings(user)
  {
    hide Accepts, TableOf, IsCreated, Written, MySqlAccepts;
    var user := ColumnDef(Ident("user", false), Enum(["a", "b"]), []);
    assert ToLower("user") == "user" && "user"[0] == 'u';
    assert "postgres" !in ReplacedAll(["a", "b"]) by {
      ReplacedMembers(["a", "b"], "postgres");
      assert |"postgres"| == 8;
    }
    OneColumn(user, Str("a"), words);
    assert AllWarnings([user]) == [EnumAsText("user")] by {
      assert [user][1..] == [];
    }
  }

  /** A column without CHECK whose name holds a backtick is not read back as it was meant. */
  lemma BacktickInNameIsLost(words: string -> Word)
    ensures var c := ColumnDef(Ident("a`b", true), Signed(Regular), []);
            ReadItem(ReplaceBackticks(ColumnText(c)), words) != Some(ColumnItem(c))
  {
    hide ReadItem, ColumnText, ReplaceBackticks;
    var c := ColumnDef(Ident("a`b", true), Signed(Regular), []);
    assert c.name.value[1] == '`';
    ColumnReads(c, words);
  }
}
