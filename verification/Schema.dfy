/**
 * Table schemas (src/schema/table.rs): which declarations are accepted, and their byte encoding. The
 * encoding is a bijection between accepted declarations and the byte strings that decode.
 */
module Schemas {
  import opened Wrappers
  import opened Bytes
  import opened Utf8Text
  import opened Columns
  import opened Rows

  const SCHEMA_MAGIC: seq<byte> := [0x4E, 0x53, 0x43, 0x48]
  const SCHEMA_FORMAT_VERSION: u16 := 1
  const MAX_COLUMNS := 1024
  const MAX_IDENTIFIER_BYTES := 255

  datatype SchemaError =
    | InvalidIdentifier(kind: string, identifier: Text)
    | NoColumns
    | TooManyColumns(count: nat)
    | DuplicateColumn(name: Text)
    | MissingPrimaryKey
    | MultiplePrimaryKeys
    | NullablePrimaryKey(name: Text)
    | SchemaTooWide(minimumRowSize: nat)
    | CorruptEncoding(reason: string)

  /** An accepted declaration, its key column, and the row layout compiled from it. */
  datatype TableSchema = TableSchema(name: Text, columns: seq<ColumnSchema>, primaryKeyIndex: nat, layout: RowLayout)

  // ----- Which declarations are accepted -----

  predicate IdentifierStart(b: byte) {
    b == 0x5F || 0x41 <= b <= 0x5A || 0x61 <= b <= 0x7A
  }

  predicate IdentifierPart(b: byte) {
    IdentifierStart(b) || 0x30 <= b <= 0x39
  }

  /** An ASCII name: a letter or underscore, then letters, digits and underscores, 255 bytes at most. */
  predicate Identifier(name: Text) {
    && 1 <= |name| <= MAX_IDENTIFIER_BYTES && IdentifierStart(name[0])
    && forall i | 1 <= i < |name| :: IdentifierPart(name[i])
  }

  ghost predicate NamesDistinct(columns: seq<ColumnSchema>) {
    forall i, j | 0 <= i < j < |columns| :: columns[i].name != columns[j].name
  }

  /** Column `k` is the one primary key, and not nullable. */
  ghost predicate KeyAt(columns: seq<ColumnSchema>, k: nat) {
    && k < |columns| && columns[k].primaryKey && !columns[k].nullable
    && forall j | 0 <= j < |columns| && j != k :: !columns[j].primaryKey
  }

  /** Exactly the declarations that are accepted. */
  ghost predicate Declarable(name: Text, columns: seq<ColumnSchema>) {
    && Identifier(name) && 1 <= |columns| <= MAX_COLUMNS
    && (forall i | 0 <= i < |columns| :: Identifier(columns[i].name))
    && NamesDistinct(columns) && (exists k :: KeyAt(columns, k))
    && MinimumSize(columns) <= MAX_ROW_SIZE
  }

  ghost predicate SchemaValid(s: TableSchema) {
    Declarable(s.name, s.columns) && KeyAt(s.columns, s.primaryKeyIndex) && Lays(s.layout, s.columns)
  }

  /** A required key column of any type, by itself, makes a table. */
  lemma OneColumnTable(name: Text, column: Text, t: DataType)
    requires Identifier(name) && Identifier(column)
    ensures Declarable(name, [ColumnSchema(column, t, false, true)])
  {
    var columns := [ColumnSchema(column, t, false, true)];
    assert KeyAt(columns, 0);
    assert Offset(columns, 1) == Offset(columns, 0) + Width(t);
    hide Identifier;
  }

  /** What is wrong with one column, given those before it. */
  function ColumnProblem(columns: seq<ColumnSchema>, i: nat): Option<SchemaError>
    requires i < |columns|
  {
    var c := columns[i];
    if !Identifier(c.name) then Some(InvalidIdentifier("column", c.name))
    else if exists j | 0 <= j < i :: columns[j].name == c.name then Some(DuplicateColumn(c.name))
    else if c.primaryKey && exists j | 0 <= j < i :: columns[j].primaryKey then Some(MultiplePrimaryKeys)
    else if c.primaryKey && c.nullable then Some(NullablePrimaryKey(c.name))
    else None
  }

  /** The first problem of a declaration, in the order in which it is looked at. */
  ghost predicate DeclarationProblem(name: Text, columns: seq<ColumnSchema>, e: SchemaError) {
    if !Identifier(name) then e == InvalidIdentifier("table", name)
    else if columns == [] then e == NoColumns
    else if |columns| > MAX_COLUMNS then e == TooManyColumns(|columns|)
    else
      || FirstColumnProblem(columns, e)
      || (&& (forall i | 0 <= i < |columns| :: ColumnProblem(columns, i).None?)
          && if forall j | 0 <= j < |columns| :: !columns[j].primaryKey then e == MissingPrimaryKey
             else MinimumSize(columns) > MAX_ROW_SIZE && e == SchemaTooWide(MinimumSize(columns)))
  }

  /** The key column found among the first `n` columns, and their names. */
  ghost predicate Surveyed(columns: seq<ColumnSchema>, n: nat, names: set<Text>, key: Option<nat>)
    requires n <= |columns|
  {
    && (forall i | 0 <= i < n :: ColumnProblem(columns, i).None?)
    && (forall name :: name in names <==> exists i | 0 <= i < n :: columns[i].name == name)
    && (key.Some? ==> key.value < n && columns[key.value].primaryKey)
    && (forall i | 0 <= i < n :: columns[i].primaryKey ==> key == Some(i))
  }

  lemma SurveyStep(columns: seq<ColumnSchema>, n: nat, names: set<Text>, key: Option<nat>)
    requires n < |columns| && Surveyed(columns, n, names, key)
    ensures var c := columns[n];
      && (c.name in names <==> exists j | 0 <= j < n :: columns[j].name == c.name)
      && (key.Some? <==> exists j | 0 <= j < n :: columns[j].primaryKey)
      && (ColumnProblem(columns, n).None? ==>
            Surveyed(columns, n + 1, names + {c.name}, if c.primaryKey then Some(n) else key))
  {
    hide Identifier;
  }

  lemma SurveyedDeclaration(columns: seq<ColumnSchema>, names: set<Text>, key: Option<nat>)
    requires Surveyed(columns, |columns|, names, key)
    ensures forall i | 0 <= i < |columns| :: Identifier(columns[i].name)
    ensures NamesDistinct(columns)
    ensures if key.Some? then KeyAt(columns, key.value) else forall i | 0 <= i < |columns| :: !columns[i].primaryKey
  {
    hide Identifier;
    forall i | 0 <= i < |columns| ensures Identifier(columns[i].name) {
      assert ColumnProblem(columns, i).None?;
    }
    forall i, j | 0 <= i < j < |columns| ensures columns[i].name != columns[j].name {
      assert ColumnProblem(columns, j).None?;
    }
    if key.Some? {
      assert ColumnProblem(columns, key.value).None?;
    }
  }

  lemma ProblemRefuses(name: Text, columns: seq<ColumnSchema>, i: nat)
    requires i < |columns| && ColumnProblem(columns, i).Some?
    ensures !Declarable(name, columns)
  {
    hide Identifier, Offset, MinimumSize;
  }

  lemma NotDeclarable(name: Text, columns: seq<ColumnSchema>, e: SchemaError)
    requires FirstColumnProblem(columns, e) || forall i | 0 <= i < |columns| :: !columns[i].primaryKey
    ensures !Declarable(name, columns)
  {
    hide Identifier, ColumnProblem;
    if FirstColumnProblem(columns, e) {
      var i :| 0 <= i < |columns| && ColumnProblem(columns, i) == Some(e);
      ProblemRefuses(name, columns, i);
    }
  }

  /** Some column has a problem, and `e` is the first one. */
  ghost predicate FirstColumnProblem(columns: seq<ColumnSchema>, e: SchemaError) {
    exists i :: 0 <= i < |columns| && ColumnProblem(columns, i) == Some(e) && forall j | 0 <= j < i :: ColumnProblem(columns, j).None?
  }

  /** Looks through the columns for the key, refusing bad names, repeated names and a second or nullable key. */
  method FindKey(columns: seq<ColumnSchema>) returns (r: Result<nat, SchemaError>)
    ensures r.Ok? ==> KeyAt(columns, r.value) && NamesDistinct(columns)
    ensures r.Ok? ==> forall i | 0 <= i < |columns| :: Identifier(columns[i].name) && ColumnProblem(columns, i).None?
    ensures r.Err? ==>
      || FirstColumnProblem(columns, r.error)
      || (r.error == MissingPrimaryKey && forall i | 0 <= i < |columns| :: ColumnProblem(columns, i).None? && !columns[i].primaryKey)
  {
    var names: set<Text>, key: Option<nat> := {}, None;
    for index := 0 to |columns|
      invariant Surveyed(columns, index, names, key)
    {
      SurveyStep(columns, index, names, key);
      assert ColumnProblem(columns, index).Some? ==> FirstColumnProblem(columns, ColumnProblem(columns, index).value);
      hide Identifier, Surveyed, FirstColumnProblem;
      var column := columns[index];
      if !Identifier(column.name) {
        return Err(InvalidIdentifier("column", column.name));
      }
      if column.name in names {
        return Err(DuplicateColumn(column.name));
      }
      names := names + {column.name};
      if column.primaryKey {
        if key.Some? {
          return Err(MultiplePrimaryKeys);
        }
        key := Some(index);
        if column.nullable {
          return Err(NullablePrimaryKey(column.name));
        }
      }
    }
    SurveyedDeclaration(columns, names, key);
    return if key.Some? then Ok(key.value) else Err(MissingPrimaryKey);
  }

  /** Accepts exactly the declarable tables and reports the first problem of any other. */
  method New(name: Text, columns: seq<ColumnSchema>) returns (r: Result<TableSchema, SchemaError>)
    ensures r.Ok? <==> Declarable(name, columns)
    ensures r.Ok? ==> r.value.name == name && r.value.columns == columns && SchemaValid(r.value)
    ensures r.Err? ==> DeclarationProblem(name, columns, r.error)
  {
    hide Identifier, Offset, ColumnProblem, NamesDistinct, FirstColumnProblem;
    if !Identifier(name) {
      return Err(InvalidIdentifier("table", name));
    }
    if columns == [] {
      return Err(NoColumns);
    }
    if |columns| > MAX_COLUMNS {
      return Err(TooManyColumns(|columns|));
    }
    var key := FindKey(columns);
    if key.Err? {
      NotDeclarable(name, columns, key.error);
      return Err(key.error);
    }
    var layout := Compile(columns);
    if layout.minimumRowSize > MAX_ROW_SIZE {
      return Err(SchemaTooWide(layout.minimumRowSize));
    }
    return Ok(TableSchema(name, columns, key.value, layout));
  }

  // ----- The encoding of a declaration -----

  function Tag(t: DataType): byte {
    match t
    case IntType => 1
    case FloatType => 2
    case BoolType => 3
    case TextType => 4
    case BytesType => 5
  }

  function FromTag(tag: byte): (r: Option<DataType>)
    ensures r.Some? <==> 1 <= tag <= 5
    ensures forall t :: r == Some(t) <==> Tag(t) == tag
  {
    match tag
    case 1 => Some(IntType)
    case 2 => Some(FloatType)
    case 3 => Some(BoolType)
    case 4 => Some(TextType)
    case 5 => Some(BytesType)
    case _ => None
  }

  function Flags(c: ColumnSchema): byte {
    (if c.nullable then 1 else 0) + (if c.primaryKey then 2 else 0)
  }

  function StringBytes(t: Text): (b: seq<byte>)
    requires |t| <= U16_MAX
    ensures |b| == 2 + |t|
  {
    Le16(|t|) + t
  }

  function ColumnBytes(c: ColumnSchema): (b: seq<byte>)
    requires |c.name| <= U16_MAX
    ensures |b| == 4 + |c.name|
  {
    StringBytes(c.name) + [Tag(c.dataType), Flags(c)]
  }

  ghost predicate NamesFit(columns: seq<ColumnSchema>) {
    forall i | 0 <= i < |columns| :: |columns[i].name| <= U16_MAX
  }

  /** The encodings of the first `n` columns, one after another. */
  function ColumnsBytes(columns: seq<ColumnSchema>, n: nat): seq<byte>
    requires n <= |columns| && NamesFit(columns)
  {
    if n == 0 then [] else ColumnsBytes(columns, n - 1) + ColumnBytes(columns[n - 1])
  }

  function PreambleBytes(count: u16): (b: seq<byte>)
    ensures |b| == 8
  {
    SCHEMA_MAGIC + Le16(SCHEMA_FORMAT_VERSION) + Le16(count)
  }

  function SchemaBytes(name: Text, columns: seq<ColumnSchema>): seq<byte>
    requires |name| <= U16_MAX && |columns| <= U16_MAX && NamesFit(columns)
  {
    PreambleBytes(|columns|) + StringBytes(name) + ColumnsBytes(columns, |columns|)
  }

  lemma DeclarableFits(name: Text, columns: seq<ColumnSchema>)
    requires Declarable(name, columns)
    ensures |name| <= U16_MAX && |columns| <= U16_MAX && NamesFit(columns)
  {
    hide Offset, NamesDistinct, KeyAt;
  }

  /** Writes the declarations only; the layout is never stored. */
  method Encode(s: TableSchema) returns (bytes: seq<byte>)
    requires SchemaValid(s)
    ensures |s.name| <= U16_MAX && |s.columns| <= U16_MAX && NamesFit(s.columns)
    ensures bytes == SchemaBytes(s.name, s.columns)
  {
    DeclarableFits(s.name, s.columns);
    hide Declarable, Le16, KeyAt, NamesFit, Lays;
    bytes := SCHEMA_MAGIC;
    bytes := bytes + Le16(SCHEMA_FORMAT_VERSION);
    bytes := bytes + Le16(|s.columns|);
    bytes := WriteString(bytes, s.name);
    bytes := WriteColumns(bytes, s.columns);
  }

  method WriteColumns(bytes: seq<byte>, columns: seq<ColumnSchema>) returns (longer: seq<byte>)
    requires NamesFit(columns)
    ensures longer == bytes + ColumnsBytes(columns, |columns|)
  {
    hide ColumnBytes, NamesFit;
    longer := bytes;
    for i := 0 to |columns|
      invariant longer == bytes + ColumnsBytes(columns, i)
    {
      NameFits(columns, i);
      longer := WriteColumn(longer, columns[i]);
    }
  }

  lemma NameFits(columns: seq<ColumnSchema>, i: nat)
    requires i < |columns|
    ensures NamesFit(columns) ==> |columns[i].name| <= U16_MAX
  {
  }

  method WriteColumn(bytes: seq<byte>, column: ColumnSchema) returns (longer: seq<byte>)
    requires |column.name| <= U16_MAX
    ensures longer == bytes + ColumnBytes(column)
  {
    longer := WriteString(bytes, column.name);
    longer := longer + [Tag(column.dataType)];
    var flags := 0;
    if column.nullable {
      flags := flags + 1;
    }
    if column.primaryKey {
      flags := flags + 2;
    }
    longer := longer + [flags];
  }

  method WriteString(bytes: seq<byte>, value: Text) returns (longer: seq<byte>)
    requires |value| <= U16_MAX
    ensures longer == bytes + StringBytes(value)
  {
    longer := bytes + Le16(|value|);
    longer := longer + value;
  }

  // ----- Reading it back -----

  /** A string at `pos`, and where it ends. */
  function ParseString(b: seq<byte>, pos: nat): Option<(Text, nat)> {
    if pos + 2 > |b| then None
    else
      var end := pos + 2 + U16At(b, pos) as int;
      if end > |b| || !Utf8(b[pos + 2..end]) then None else Some((b[pos + 2..end], end))
  }

  function ParseColumn(b: seq<byte>, pos: nat): Option<(ColumnSchema, nat)> {
    match ParseString(b, pos)
    case None => None
    case Some((name, end)) =>
      if end + 2 > |b| || FromTag(b[end]).None? || b[end + 1] >= 4 then None
      else Some((ColumnSchema(name, FromTag(b[end]).value, b[end + 1] % 2 == 1, b[end + 1] / 2 == 1), end + 2))
  }

  /** The first `n` columns from `pos` on, and where they end. */
  function ParseColumns(b: seq<byte>, pos: nat, n: nat): Option<(seq<ColumnSchema>, nat)> {
    if n == 0 then Some(([], pos))
    else
      match ParseColumns(b, pos, n - 1)
      case None => None
      case Some((columns, end)) =>
        match ParseColumn(b, end)
        case None => None
        case Some((column, next)) => Some((columns + [column], next))
  }

  function ParseSchema(b: seq<byte>): Option<(Text, seq<ColumnSchema>)> {
    if |b| < 8 || b[..4] != SCHEMA_MAGIC || U16At(b, 4) != SCHEMA_FORMAT_VERSION then None
    else
      var count: int := U16At(b, 6);
      if count == 0 || count > MAX_COLUMNS then None
      else
        match ParseString(b, 8)
        case None => None
        case Some((name, start)) =>
          match ParseColumns(b, start, count)
          case None => None
          case Some((columns, end)) => if end == |b| then Some((name, columns)) else None
  }

  /** `part` stands in `b` from `pos` to `end`. */
  ghost predicate StandsAt(b: seq<byte>, pos: nat, end: nat, part: seq<byte>) {
    end == pos + |part| <= |b| && b[pos..end] == part
  }

  lemma StandsJoined(b: seq<byte>, pos: nat, mid: nat, end: nat, first: seq<byte>, second: seq<byte>)
    requires mid == pos + |first|
    ensures StandsAt(b, pos, end, first + second) <==> StandsAt(b, pos, mid, first) && StandsAt(b, mid, end, second)
  {
    if end == pos + |first| + |second| <= |b| {
      assert b[pos..end] == b[pos..mid] + b[mid..end];
      assert (first + second)[..|first|] == first && (first + second)[|first|..] == second;
      assert b[pos..end][..|first|] == b[pos..mid] && b[pos..end][|first|..] == b[mid..end];
    }
  }

  lemma FieldStands(b: seq<byte>, pos: nat, v: u16)
    ensures StandsAt(b, pos, pos + 2, Le16(v)) <==> pos + 2 <= |b| && U16At(b, pos) == v
  {
    if pos + 2 <= |b| {
      Le16Unique(b, pos);
      Le16RoundTrip(v);
      assert b[pos..pos + 2] == [b[pos], b[pos + 1]];
    }
  }

  /** Parsing a string finds `t` exactly when the encoding of `t` stands there. */
  lemma StringParses(b: seq<byte>, pos: nat, t: Text, end: nat)
    ensures ParseString(b, pos) == Some((t, end)) <==> |t| <= U16_MAX && StandsAt(b, pos, end, StringBytes(t))
  {
    hide Utf8, Le16, U16At, StandsAt;
    if |t| <= U16_MAX {
      FieldStands(b, pos, |t|);
      StandsJoined(b, pos, pos + 2, end, Le16(|t|), t);
    }
    TailStands(b, pos + 2, end, t);
  }

  lemma TailStands(b: seq<byte>, pos: nat, end: nat, t: seq<byte>)
    ensures StandsAt(b, pos, end, t) <==> pos <= end <= |b| && t == b[pos..end]
  {
  }

  lemma PairStands(b: seq<byte>, pos: nat, x: byte, y: byte)
    ensures StandsAt(b, pos, pos + 2, [x, y]) <==> pos + 2 <= |b| && b[pos] == x && b[pos + 1] == y
  {
    if pos + 2 <= |b| {
      assert b[pos..pos + 2] == [b[pos], b[pos + 1]];
    }
  }

  lemma ColumnParses(b: seq<byte>, pos: nat, c: ColumnSchema, end: nat)
    ensures ParseColumn(b, pos) == Some((c, end)) <==> |c.name| <= U16_MAX && StandsAt(b, pos, end, ColumnBytes(c))
  {
    hide Utf8, ParseString, StringBytes;
    if end >= 2 {
      StringParses(b, pos, c.name, end - 2);
    }
    if |c.name| <= U16_MAX {
      var mid := pos + 2 + |c.name|;
      StringParses(b, pos, c.name, mid);
      StandsJoined(b, pos, mid, end, StringBytes(c.name), [Tag(c.dataType), Flags(c)]);
      PairStands(b, mid, Tag(c.dataType), Flags(c));
    }
  }

  lemma {:induction false} ColumnsBytesPrefix(columns: seq<ColumnSchema>, longer: seq<ColumnSchema>, n: nat)
    requires n <= |columns| && n <= |longer| && NamesFit(columns) && NamesFit(longer)
    requires forall i | 0 <= i < n :: columns[i] == longer[i]
    ensures ColumnsBytes(columns, n) == ColumnsBytes(longer, n)
  {
    if n > 0 {
      ColumnsBytesPrefix(columns, longer, n - 1);
    }
  }

  lemma {:induction false} ColumnsParse(b: seq<byte>, pos: nat, columns: seq<ColumnSchema>, end: nat)
    requires pos <= |b|
    ensures ParseColumns(b, pos, |columns|) == Some((columns, end)) <==>
      NamesFit(columns) && StandsAt(b, pos, end, ColumnsBytes(columns, |columns|))
    decreases |columns|
  {
    hide ParseColumn, ColumnBytes;
    if columns != [] {
      var init, last := columns[..|columns| - 1], columns[|columns| - 1];
      assert columns == init + [last];
      if ParseColumns(b, pos, |columns|) == Some((columns, end)) {
        var mid := ParseColumns(b, pos, |init|).value.1;
        assert ParseColumns(b, pos, |init|).value.0 == init;
        ColumnsParse(b, pos, init, mid);
        ColumnParses(b, mid, last, end);
        AppendStands(b, pos, mid, end, init, last);
      }
      if NamesFit(columns) && StandsAt(b, pos, end, ColumnsBytes(columns, |columns|)) {
        var mid := pos + |ColumnsBytes(init, |init|)|;
        ColumnsParse(b, pos, init, mid);
        ColumnParses(b, mid, last, end);
        AppendStands(b, pos, mid, end, init, last);
      }
    }
  }

  lemma AppendStands(b: seq<byte>, pos: nat, mid: nat, end: nat, init: seq<ColumnSchema>, last: ColumnSchema)
    requires NamesFit(init) && |last.name| <= U16_MAX && mid == pos + |ColumnsBytes(init, |init|)|
    ensures NamesFit(init + [last])
    ensures StandsAt(b, pos, end, ColumnsBytes(init + [last], |init| + 1)) <==>
      StandsAt(b, pos, mid, ColumnsBytes(init, |init|)) && StandsAt(b, mid, end, ColumnBytes(last))
  {
    hide ColumnBytes, StandsAt;
    ColumnsBytesPrefix(init, init + [last], |init|);
    StandsJoined(b, pos, mid, end, ColumnsBytes(init, |init|), ColumnBytes(last));
  }

  lemma PreambleStands(b: seq<byte>, count: u16)
    ensures StandsAt(b, 0, 8, PreambleBytes(count)) <==>
      |b| >= 8 && b[..4] == SCHEMA_MAGIC && U16At(b, 4) == SCHEMA_FORMAT_VERSION && U16At(b, 6) == count
  {
    hide StandsAt, Le16, U16At;
    StandsJoined(b, 0, 6, 8, SCHEMA_MAGIC + Le16(SCHEMA_FORMAT_VERSION), Le16(count));
    StandsJoined(b, 0, 4, 6, SCHEMA_MAGIC, Le16(SCHEMA_FORMAT_VERSION));
    FieldStands(b, 4, SCHEMA_FORMAT_VERSION);
    FieldStands(b, 6, count);
    TailStands(b, 0, 4, SCHEMA_MAGIC);
    if |b| >= 4 {
      assert b[0..4] == b[..4];
    }
  }

  /** `b` is the encoding of these declarations. */
  ghost predicate Encodes(b: seq<byte>, name: Text, columns: seq<ColumnSchema>) {
    |name| <= U16_MAX && |columns| <= U16_MAX && NamesFit(columns) && b == SchemaBytes(name, columns)
  }

  /** Parsing finds declarations exactly in their encoding, whatever else is true of them. */
  lemma {:induction false} ParsesIffEncodes(b: seq<byte>, name: Text, columns: seq<ColumnSchema>)
    ensures ParseSchema(b) == Some((name, columns)) <==> 1 <= |columns| <= MAX_COLUMNS && Encodes(b, name, columns)
  {
    hide ParseString, ParseColumns, StringBytes, ColumnsBytes, PreambleBytes, U16At, NamesFit;
    if |columns| <= MAX_COLUMNS && |name| <= U16_MAX && 10 + |name| <= |b| {
      var start := 10 + |name|;
      StringParses(b, 8, name, start);
      ColumnsParse(b, start, columns, |b|);
      PreambleStands(b, |columns|);
      if NamesFit(columns) {
        SchemaStands(b, name, columns);
      }
    }
    if ParseSchema(b) == Some((name, columns)) {
      ParsedParts(b);
      var start := ParseString(b, 8).value.1;
      StringParses(b, 8, name, start);
      ColumnsParse(b, start, columns, |b|);
      PreambleStands(b, |columns|);
    }
  }

  lemma SchemaStands(b: seq<byte>, name: Text, columns: seq<ColumnSchema>)
    requires |name| <= U16_MAX && |columns| <= U16_MAX && NamesFit(columns)
    ensures b == SchemaBytes(name, columns) <==>
      && StandsAt(b, 0, 8, PreambleBytes(|columns|)) && StandsAt(b, 8, 10 + |name|, StringBytes(name))
      && StandsAt(b, 10 + |name|, |b|, ColumnsBytes(columns, |columns|))
  {
    hide StringBytes, ColumnsBytes, PreambleBytes, NamesFit;
    var head, body, tail := PreambleBytes(|columns|), StringBytes(name), ColumnsBytes(columns, |columns|);
    StandsJoined(b, 0, 10 + |name|, |b|, head + body, tail);
    StandsJoined(b, 0, 8, 10 + |name|, head, body);
    assert b[0..|b|] == b;
  }

  lemma {:induction false} ParsedParts(b: seq<byte>)
    requires ParseSchema(b).Some?
    ensures |b| >= 8 && ParseString(b, 8).Some?
    ensures ParseSchema(b).value.0 == ParseString(b, 8).value.0
    ensures ParseColumns(b, ParseString(b, 8).value.1, U16At(b, 6)) == Some((ParseSchema(b).value.1, |b|))
    ensures |ParseSchema(b).value.1| == U16At(b, 6)
  {
    ParsedCount(b, ParseString(b, 8).value.1, U16At(b, 6));
  }

  lemma {:induction false} ParsedCount(b: seq<byte>, pos: nat, n: nat)
    ensures ParseColumns(b, pos, n).Some? ==> |ParseColumns(b, pos, n).value.0| == n
  {
    if n > 0 {
      ParsedCount(b, pos, n - 1);
    }
  }

  /** A reader that advances through the encoding. */
  class Cursor {
    const bytes: seq<byte>
    var position: nat

    constructor (bytes: seq<byte>)
      ensures this.bytes == bytes && position == 0
    {
      this.bytes := bytes;
      this.position := 0;
    }

    method Take(length: nat) returns (r: Result<seq<byte>, SchemaError>)
      modifies this
      ensures r.Ok? <==> old(position) + length <= |bytes|
      ensures r.Ok? ==> position == old(position) + length && r.value == bytes[old(position)..position]
      ensures r.Err? ==> position == old(position) && r.error.CorruptEncoding?
    {
      if position + length > |bytes| {
        return Err(CorruptEncoding("truncated schema encoding"));
      }
      r := Ok(bytes[position..position + length]);
      position := position + length;
    }

    method ReadU8() returns (r: Result<byte, SchemaError>)
      modifies this
      ensures r.Ok? <==> old(position) + 1 <= |bytes|
      ensures r.Ok? ==> position == old(position) + 1 && r.value == bytes[old(position)]
      ensures r.Err? ==> r.error.CorruptEncoding?
    {
      var taken := Take(1);
      return if taken.Ok? then Ok(taken.value[0]) else Err(taken.error);
    }

    method ReadU16() returns (r: Result<u16, SchemaError>)
      modifies this
      ensures r.Ok? <==> old(position) + 2 <= |bytes|
      ensures r.Ok? ==> position == old(position) + 2 && r.value == U16At(bytes, old(position))
      ensures r.Err? ==> r.error.CorruptEncoding?
    {
      var taken := Take(2);
      return if taken.Ok? then Ok(U16At(taken.value, 0)) else Err(taken.error);
    }

    method ReadString() returns (r: Result<Text, SchemaError>)
      modifies this
      ensures r.Ok? <==> ParseString(bytes, old(position)).Some?
      ensures r.Ok? ==> ParseString(bytes, old(position)) == Some((r.value, position))
      ensures r.Err? ==> r.error.CorruptEncoding?
    {
      hide Utf8, U16At;
      var length := ReadU16();
      if length.Err? {
        return Err(length.error);
      }
      var taken := Take(length.value);
      if taken.Err? {
        return Err(taken.error);
      }
      if !Utf8(taken.value) {
        return Err(CorruptEncoding("schema identifier is not UTF-8"));
      }
      return Ok(taken.value);
    }

    method ReadColumn() returns (r: Result<ColumnSchema, SchemaError>)
      modifies this
      ensures r.Ok? <==> ParseColumn(bytes, old(position)).Some?
      ensures r.Ok? ==> ParseColumn(bytes, old(position)) == Some((r.value, position))
      ensures r.Err? ==> r.error.CorruptEncoding?
    {
      hide ParseString;
      var name := ReadString();
      if name.Err? {
        return Err(name.error);
      }
      var tag := ReadU8();
      if tag.Err? {
        return Err(tag.error);
      }
      var dataType := FromTag(tag.value);
      if dataType.None? {
        return Err(CorruptEncoding("unknown column type tag"));
      }
      var flags := ReadU8();
      if flags.Err? {
        return Err(flags.error);
      }
      if flags.value / 4 != 0 {
        return Err(CorruptEncoding("unknown column flags"));
      }
      return Ok(ColumnSchema(name.value, dataType.value, flags.value % 2 == 1, flags.value / 2 % 2 == 1));
    }

    predicate IsEmpty()
      reads this
    {
      position == |bytes|
    }
  }

  /** Reads the declarations back, without yet looking at what they declare. */
  method ReadDeclarations(bytes: seq<byte>) returns (r: Result<(Text, seq<ColumnSchema>), SchemaError>)
    ensures r.Ok? <==> ParseSchema(bytes).Some?
    ensures r.Ok? ==> ParseSchema(bytes) == Some(r.value)
    ensures r.Err? ==> r.error.CorruptEncoding?
  {
    hide ParseString, ParseColumn, U16At;
    var cursor := new Cursor(bytes);
    var magic := cursor.Take(|SCHEMA_MAGIC|);
    if magic.Err? {
      return Err(magic.error);
    }
    if magic.value != SCHEMA_MAGIC {
      return Err(CorruptEncoding("invalid schema magic"));
    }
    var version := cursor.ReadU16();
    if version.Err? {
      return Err(version.error);
    }
    if version.value != SCHEMA_FORMAT_VERSION {
      return Err(CorruptEncoding("unsupported schema format version"));
    }
    var count := cursor.ReadU16();
    if count.Err? {
      return Err(count.error);
    }
    if count.value == 0 || count.value > MAX_COLUMNS {
      return Err(CorruptEncoding("invalid schema column count"));
    }
    var name := cursor.ReadString();
    if name.Err? {
      return Err(name.error);
    }
    var columns := ReadColumns(cursor, count.value);
    if columns.Err? {
      return Err(columns.error);
    }
    if !cursor.IsEmpty() {
      return Err(CorruptEncoding("trailing bytes after schema declaration"));
    }
    return Ok((name.value, columns.value));
  }

  method ReadColumns(cursor: Cursor, count: nat) returns (r: Result<seq<ColumnSchema>, SchemaError>)
    modifies cursor
    ensures r.Ok? <==> ParseColumns(cursor.bytes, old(cursor.position), count).Some?
    ensures r.Ok? ==> ParseColumns(cursor.bytes, old(cursor.position), count) == Some((r.value, cursor.position))
    ensures r.Err? ==> r.error.CorruptEncoding?
  {
    hide ParseColumn;
    var columns := [];
    for i := 0 to count
      invariant ParseColumns(cursor.bytes, old(cursor.position), i) == Some((columns, cursor.position))
    {
      var column := cursor.ReadColumn();
      if column.Err? {
        StaysUnparsed(cursor.bytes, old(cursor.position), i + 1, count);
        return Err(column.error);
      }
      columns := columns + [column.value];
    }
    return Ok(columns);
  }

  lemma {:induction false} StaysUnparsed(b: seq<byte>, pos: nat, i: nat, n: nat)
    requires i <= n && ParseColumns(b, pos, i).None?
    ensures ParseColumns(b, pos, n).None?
  {
    if i < n {
      StaysUnparsed(b, pos, i, n - 1);
    }
  }

  /**
   * Decodes exactly the encodings of accepted declarations; the layout and the key column are
   * worked out again, never read.
   */
  method Decode(bytes: seq<byte>) returns (r: Result<TableSchema, SchemaError>)
    ensures r.Ok? ==> SchemaValid(r.value) && Encodes(bytes, r.value.name, r.value.columns)
    ensures r.Err? ==> forall name, columns | Declarable(name, columns) :: !Encodes(bytes, name, columns)
    ensures r.Err? && !r.error.CorruptEncoding? ==> exists name, columns :: Encodes(bytes, name, columns) && DeclarationProblem(name, columns, r.error)
  {
    hide ParseSchema, Declarable, Encodes, KeyAt, Lays, DeclarationProblem;
    var declared := ReadDeclarations(bytes);
    forall name, columns | Declarable(name, columns) && Encodes(bytes, name, columns)
      ensures ParseSchema(bytes) == Some((name, columns))
    {
      CountInRange(name, columns);
      ParsesIffEncodes(bytes, name, columns);
    }
    if declared.Err? {
      return Err(declared.error);
    }
    ParsesIffEncodes(bytes, declared.value.0, declared.value.1);
    r := New(declared.value.0, declared.value.1);
  }

  lemma CountInRange(name: Text, columns: seq<ColumnSchema>)
    requires Declarable(name, columns)
    ensures 1 <= |columns| <= MAX_COLUMNS
  {
  }

  /** The key column and the layout follow from the declarations, so those determine the schema. */
  lemma DeclarationsDetermineSchema(s: TableSchema, t: TableSchema)
    requires SchemaValid(s) && SchemaValid(t) && s.name == t.name && s.columns == t.columns
    ensures s == t
  {
    hide Declarable;
    assert s.layout.columns == t.layout.columns;
  }

  /** No two schemas share an encoding: decoding what encoding wrote gives the same schema. */
  lemma {:induction false} SchemaRoundTrip(s: TableSchema, t: TableSchema, bytes: seq<byte>)
    requires SchemaValid(s) && Encodes(bytes, s.name, s.columns)
    requires SchemaValid(t) && Encodes(bytes, t.name, t.columns)
    ensures s == t
  {
    CountInRange(s.name, s.columns);
    CountInRange(t.name, t.columns);
    ParsesIffEncodes(bytes, s.name, s.columns);
    ParsesIffEncodes(bytes, t.name, t.columns);
    DeclarationsDetermineSchema(s, t);
  }

  // ----- Rows of a table -----

  method EncodeRow(s: TableSchema, values: seq<Value>) returns (r: Result<seq<byte>, RowError>)
    requires SchemaValid(s)
    ensures r.Ok? <==> Encodable(s.columns, values)
    ensures r.Ok? ==> Represents(s.columns, values, r.value) && PaddingClear(s.columns, r.value)
  {
    r := Rows.Encode(s.layout, s.columns, values);
  }

  method DecodeRow(s: TableSchema, row: seq<byte>) returns (r: Result<seq<Value>, RowError>)
    requires SchemaValid(s)
    ensures r.Ok? ==> Represents(s.columns, r.value, row)
    ensures r.Err? ==> forall values :: !Represents(s.columns, values, row)
  {
    r := Rows.Decode(s.layout, s.columns, row);
  }

  /** The key of a row, which is never null. */
  method PrimaryKeyValue(s: TableSchema, row: seq<byte>) returns (r: Result<Value, RowError>)
    requires SchemaValid(s)
    ensures r.Ok? <==> exists values :: Represents(s.columns, values, row)
    ensures r.Ok? ==> !r.value.Null? && forall values | Represents(s.columns, values, row) :: r.value == values[s.primaryKeyIndex]
  {
    r := DecodeColumn(s.layout, s.columns, row, s.primaryKeyIndex);
    if r.Ok? {
      ghost var values :| Represents(s.columns, values, row);
      KeyNotNull(s, values, row);
    }
  }

  lemma KeyNotNull(s: TableSchema, values: seq<Value>, row: seq<byte>)
    requires SchemaValid(s) && Represents(s.columns, values, row)
    ensures !values[s.primaryKeyIndex].Null?
  {
    assert Stores(s.columns, values, row, s.primaryKeyIndex);
  }
}
