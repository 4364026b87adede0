/**
 create_mooncake_table's two statements as text: the query that collects the
 source columns, whose only variable part is the source name inside a constant,
 and the CREATE TABLE built from its answer, with a reader that undoes it.
 */
module Columns {
  import opened Basics
  import opened Quoting
  import opened Identifiers

  // ------------------------------------------------------------ the column query

  /** Query text in pieces: plain text, and string constants given by their value. */
  datatype Query = Done | Text(text: string, next: Query) | Constant(value: string, next: Query)

  /** A constant is written as `'{}'` with replace("'", "''"); only the last one below has a variable value. */
  function Render(q: Query): string {
    match q
    case Done => ""
    case Text(text, next) => text + Render(next)
    case Constant(value, next) => "'" + Replace(value, "'", "''") + "'" + Render(next)
  }

  function Outside(q: Query): string {
    match q
    case Done => ""
    case Text(text, next) => text + Outside(next)
    case Constant(_, next) => "'" + Outside(next)
  }

  function Values(q: Query): seq<string> {
    match q
    case Done => []
    case Text(_, next) => Values(next)
    case Constant(value, next) => [value] + Values(next)
  }

  /** Plain text holds no quote, and no constant touches the next one. */
  predicate Separated(q: Query) {
    match q
    case Done => true
    case Text(text, next) => text != "" && '\'' !in text && Separated(next)
    case Constant(_, next) => !next.Constant? && Separated(next)
  }

  /** The server splits separated pieces exactly where they were put together. */
  lemma {:induction false} SkeletonOfPieces(q: Query)
    requires Separated(q)
    ensures Skeleton(Render(q)) == Some((Outside(q), Values(q)))
  {
    match q
    case Done =>
    case Text(text, next) =>
      SkeletonOfPieces(next);
      SkeletonText(text, Render(next));
    case Constant(value, next) =>
      SkeletonOfPieces(next);
      ReplaceWritesTheSameLiteral(value);
      assert next.Text? ==> Render(next)[0] == next.text[0];
      SkeletonLiteral(value, Render(next));
      assert "'" + Replace(value, "'", "''") + "'" + Render(next) == Enclose('\'', value) + Render(next);
  }

  function WhereText(): (s: string)
    ensures s != "" && '\'' !in s
  {
    "::regclass::oid AND " + "attnum > 0 AND " + "NOT attisdropped"
  }

  function FromText(): (s: string)
    ensures s != "" && '\'' !in s
  {
    " ORDER BY attnum) " + "FROM pg_attribute " + "WHERE attrelid = "
  }

  function CaseText(): (s: string)
    ensures s != "" && '\'' !in s
  {
    ", attname, " + "format_type(atttypid, " + "atttypmod), " + "CASE WHEN attnotnull " + "THEN "
  }

  const NOT_NULL: string := " NOT NULL"

  function FromClause(src: string): Query {
    Text(FromText(), Constant(src, Text(WhereText(), Done)))
  }

  function CaseClause(next: Query): Query {
    Text(CaseText(), Constant(NOT_NULL, Text(" ELSE ", Constant("", next))))
  }

  /** The column query of create_mooncake_table, line breaks aside. */
  function GetColumnsQuery(src: string): Query {
    Text("SELECT string_agg(" + "format(", Constant("%I %s%s",
      CaseClause(ListClause(src))))
  }

  lemma FromClauseParts(src: string)
    ensures Separated(FromClause(src))
    ensures Values(FromClause(src)) == [src] && Outside(FromClause(src)) == Outside(FromClause(""))
  {
    var last := Text(WhereText(), Done);
    assert Separated(last) && Values(last) == [];
    assert Separated(Constant(src, last)) && Values(Constant(src, last)) == [src];
    assert Outside(Constant(src, last)) == Outside(Constant("", last));
  }

  lemma ElseParts(next: Query)
    requires Separated(next) && next.Text?
    ensures var inner := Text(" ELSE ", Constant("", next)); Separated(inner) && Values(inner) == [""] + Values(next)
  {
    assert Separated(Constant("", next)) && Values(Constant("", next)) == [""] + Values(next);
  }

  lemma CaseClauseParts(next: Query)
    requires Separated(next) && next.Text?
    ensures Separated(CaseClause(next)) && Values(CaseClause(next)) == [NOT_NULL, ""] + Values(next)
  {
    var inner := Text(" ELSE ", Constant("", next));
    ElseParts(next);
    assert Separated(Constant(NOT_NULL, inner)) && Values(Constant(NOT_NULL, inner)) == [NOT_NULL] + Values(inner);
  }

  lemma CaseClauseOutside(next: Query, other: Query)
    requires Outside(next) == Outside(other)
    ensures Outside(CaseClause(next)) == Outside(CaseClause(other))
  {
    assert Outside(Text(" ELSE ", Constant("", next))) == Outside(Text(" ELSE ", Constant("", other)));
  }

  function ListClause(src: string): Query {
    Text(" END), ", Constant(", ", FromClause(src)))
  }

  lemma ListClauseParts(src: string)
    ensures Separated(ListClause(src)) && Values(ListClause(src)) == [", ", src]
    ensures Outside(ListClause(src)) == Outside(ListClause(""))
  {
    FromClauseParts(src);
    var one, other := Constant(", ", FromClause(src)), Constant(", ", FromClause(""));
    assert Separated(one) && Values(one) == [", ", src] && Outside(one) == Outside(other);
  }

  lemma ColumnQueryParts(src: string)
    ensures Separated(GetColumnsQuery(src))
    ensures Values(GetColumnsQuery(src)) == ["%I %s%s", NOT_NULL, "", ", ", src]
  {
    ListClauseParts(src);
    var clause := CaseClause(ListClause(src));
    CaseClauseParts(ListClause(src));
    assert Separated(clause) && clause.Text? && Values(clause) == [NOT_NULL, "", ", ", src];
    assert Separated(Constant("%I %s%s", clause));
  }

  lemma ColumnQueryOutside(src: string)
    ensures Outside(GetColumnsQuery(src)) == Outside(GetColumnsQuery(""))
  {
    ListClauseParts(src);
    CaseClauseOutside(ListClause(src), ListClause(""));
    var one, other := CaseClause(ListClause(src)), CaseClause(ListClause(""));
    assert Outside(Constant("%I %s%s", one)) == Outside(Constant("%I %s%s", other));
  }

  lemma ListText()
    ensures Outside(ListClause("")) == " END), " + "'" + (" ORDER BY attnum) " + "FROM pg_attribute " +
            "WHERE attrelid = " + "'" + ("::regclass::oid AND " + "attnum > 0 AND " + "NOT attisdropped"))
  {
    var last := Text(WhereText(), Done);
    assert Outside(last) == WhereText();
    assert Outside(Constant("", last)) == "'" + WhereText();
    assert Outside(FromClause("")) == FromText() + ("'" + WhereText());
  }

  lemma SelectText(next: Query)
    ensures Outside(Text("SELECT string_agg(" + "format(", Constant("%I %s%s", CaseClause(next)))) ==
            "SELECT string_agg(" + "format(" + "'" + (", attname, " + "format_type(atttypid, " + "atttypmod), " +
            "CASE WHEN attnotnull " + "THEN " + "'" + (" ELSE " + "'" + Outside(next)))
  {
    var inner := Constant("", next);
    assert Outside(inner) == "'" + Outside(next);
    assert Outside(Text(" ELSE ", inner)) == " ELSE " + ("'" + Outside(next));
    assert Outside(Constant(NOT_NULL, Text(" ELSE ", inner))) == "'" + (" ELSE " + ("'" + Outside(next)));
    assert Outside(CaseClause(next)) == CaseText() + ("'" + (" ELSE " + ("'" + Outside(next))));
  }

  /**
   For every source name the server sees the same query: the text outside constants is
   the one below (a quote marks each constant), four constants are fixed, and the fifth
   is exactly `src`.
   */
  lemma ColumnQueryCarriesTheName(src: string)
    ensures Skeleton(Render(GetColumnsQuery(src))) == Some((
            "SELECT string_agg(" + "format(" + "'" + (", attname, " + "format_type(atttypid, " + "atttypmod), " +
            "CASE WHEN attnotnull " + "THEN " + "'" + (" ELSE " + "'" + (" END), " + "'" + (" ORDER BY attnum) " +
            "FROM pg_attribute " + "WHERE attrelid = " + "'" + ("::regclass::oid AND " + "attnum > 0 AND " +
            "NOT attisdropped"))))),
            ["%I %s%s", " NOT NULL", "", ", ", src]))
  {
    var q := GetColumnsQuery(src);
    ColumnQueryParts(src);
    ColumnQueryOutside(src);
    SkeletonOfPieces(q);
    ListText();
    SelectText(ListClause(""));
  }

  /**
   Two encodings undone in order: the constant yields `src`, and `src` read as a
   qualified name yields the schema and table text that parse_table quoted, cut as every
   name is: the very text exactly when both fit in 63 bytes.
   */
  lemma SourceNameSurvivesBothEncodings(kw: Keywords, schema: string, table: string, rest: string)
    requires schema != "" && table != ""
    ensures var src := QuoteQualified(kw, schema, table);
            && (ReadQuoted('\'', "'" + Replace(src, "'", "''") + "'" + rest) == Some((src, rest))
                <==> NotBefore('\'', rest))
            && ReadQualified(kw, src) == Some((Some(StoredName(schema)), StoredName(table), ""))
            && (ReadQualified(kw, src) == Some((Some(schema), table, ""))
                <==> Utf8Size(schema) <= MAX_NAME_BYTES && Utf8Size(table) <= MAX_NAME_BYTES)
  {
    var src := QuoteQualified(kw, schema, table);
    ReplaceWritesTheSameLiteral(src);
    EncloseDelimitsItself('\'', src, rest);
    ReadQualifiedUndoesQuoteQualified(kw, schema, table, "");
    assert src + "" == src;
    ClipKeepsExactlyWhatFits(schema, MAX_NAME_BYTES);
    ClipKeepsExactlyWhatFits(table, MAX_NAME_BYTES);
  }

  // --------------------------------------------------------- the column list text

  /** One pg_attribute row; `typ` is the text of format_type. */
  datatype Attribute = Attribute(num: int, name: string, typ: string, notNull: bool, dropped: bool)

  datatype Column = Column(name: string, typ: string, notNull: bool)

  predicate Live(a: Attribute) { a.num > 0 && !a.dropped }

  predicate ByNumber(a: Attribute, b: Attribute) { a.num <= b.num }

  function LiveAttributes(attrs: seq<Attribute>): seq<Attribute> {
    OrderBy(ByNumber, Filter(Live, attrs))
  }

  function ToColumns(attrs: seq<Attribute>): (cols: seq<Column>)
    ensures |cols| == |attrs|
    ensures forall k | 0 <= k < |cols| :: cols[k] == Column(attrs[k].name, attrs[k].typ, attrs[k].notNull)
  {
    if attrs == [] then []
    else [Column(attrs[0].name, attrs[0].typ, attrs[0].notNull)] + ToColumns(attrs[1..])
  }

  /** format('%I %s%s', ...) */
  function ColumnText(kw: Keywords, c: Column): string {
    QuoteIdent(kw, c.name) + " " + c.typ + if c.notNull then NOT_NULL else ""
  }

  /** string_agg(..., ', ') over at least one row. */
  function JoinColumns(kw: Keywords, cols: seq<Column>): string
    requires cols != []
  {
    if |cols| == 1 then ColumnText(kw, cols[0])
    else ColumnText(kw, cols[0]) + ", " + JoinColumns(kw, cols[1..])
  }

  /** string_agg over no rows is NULL, which the caller's get(0) turns into a panic. */
  function ColumnList(kw: Keywords, attrs: seq<Attribute>): Result<string> {
    var cols := ToColumns(LiveAttributes(attrs));
    if cols == [] then Panic("columns is NULL") else Ok(JoinColumns(kw, cols))
  }

  function CreateTableQuery(dst: string, columns: string): string {
    "CREATE TABLE " + dst + " (" + columns + ") USING mooncake"
  }

  // ------------------------------------------------------------------- its reader

  datatype Level = Level(depth: nat, quoted: bool)

  const TOP: Level := Level(0, false)

  /** The nesting after one character; none at a comma or parenthesis that ends the type. */
  function Advance(c: char, at: Level): Option<Level> {
    if at.quoted then Some(at.(quoted := c != '"'))
    else if c == '"' then Some(at.(quoted := true))
    else if c == '(' then Some(at.(depth := at.depth + 1))
    else if c == ')' then if at.depth == 0 then None else Some(at.(depth := at.depth - 1))
    else if c == ',' && at.depth == 0 then None
    else Some(at)
  }

  /** How many characters belong to the type text at the front of `s`. */
  function StopAt(s: string, at: Level): (n: nat)
    ensures n <= |s|
  {
    if s == "" then 0
    else
      match Advance(s[0], at)
      case None => 0
      case Some(next) => 1 + StopAt(s[1..], next)
  }

  /** The nesting after all of `s`, if nothing in it ends the type. */
  function Walk(s: string, at: Level): Option<Level> {
    if s == "" then Some(at)
    else
      match Advance(s[0], at)
      case None => None
      case Some(next) => Walk(s[1..], next)
  }

  predicate EndsWith(s: string, suffix: string) {
    |suffix| <= |s| && s[|s| - |suffix|..] == suffix
  }

  /** Balanced, no comma at top level, and not itself ending in NOT NULL. */
  predicate TypeText(t: string) {
    Walk(t, TOP) == Some(TOP) && !EndsWith(t, NOT_NULL)
  }

  predicate Readable(c: Column) { c.name != "" && TypeText(c.typ) }

  function ReadType(name: string, text: string): Column {
    if EndsWith(text, NOT_NULL) then Column(name, text[..|text| - |NOT_NULL|], true)
    else Column(name, text, false)
  }

  lemma ReadNameConsumes(kw: Keywords, s: string)
    ensures ReadName(kw.reserved, s).Some? ==> |ReadName(kw.reserved, s).value.1| < |s|
  {
    if s != "" && s[0] == '"' {
      ReadBodyConsumes('"', s[1..]);
    }
  }

  /** Reads column definitions until one is not followed by a comma. */
  function ReadColumns(kw: Keywords, s: string): Option<(seq<Column>, string)>
    decreases |s|
  {
    ReadNameConsumes(kw, s);
    match ReadName(kw.reserved, s)
    case None => None
    case Some(r) =>
      if !StartsWith(r.1, " ") then None
      else
        var body := r.1[1..];
        var n := StopAt(body, TOP);
        var column := ReadType(r.0, body[..n]);
        if !StartsWith(body[n..], ", ") then Some(([column], body[n..]))
        else
          match ReadColumns(kw, body[n..][2..])
          case None => None
          case Some(more) => Some(([column] + more.0, more.1))
  }

  function ReadCreateTable(kw: Keywords, q: string): Option<(Option<string>, string, seq<Column>)> {
    if !StartsWith(q, "CREATE TABLE ") then None
    else
      match ReadQualified(kw, q[|"CREATE TABLE "|..])
      case None => None
      case Some(name) =>
        if !StartsWith(name.2, " (") then None
        else
          match ReadColumns(kw, name.2[2..])
          case None => None
          case Some(columns) =>
            if columns.1 == ") USING mooncake" then Some((name.0, name.1, columns.0)) else None
  }

  // ------------------------------------------------------------------- round trip

  lemma {:induction false} StopsAfterWalk(t: string, rest: string, at: Level)
    requires Walk(t, at).Some?
    ensures StopAt(t + rest, at) == |t| + StopAt(rest, Walk(t, at).value)
  {
    if t == "" {
      assert t + rest == rest;
    } else {
      assert (t + rest)[1..] == t[1..] + rest;
      StopsAfterWalk(t[1..], rest, Advance(t[0], at).value);
    }
  }

  lemma {:induction false} WalkAppend(s: string, t: string, at: Level)
    requires Walk(s, at).Some?
    ensures Walk(s + t, at) == Walk(t, Walk(s, at).value)
  {
    if s == "" {
      assert s + t == t;
    } else {
      assert (s + t)[1..] == s[1..] + t;
      WalkAppend(s[1..], t, Advance(s[0], at).value);
    }
  }

  lemma {:induction false} WalkPlain(s: string, at: Level)
    requires !at.quoted && forall k | 0 <= k < |s| :: s[k] !in "\"(),"
    ensures Walk(s, at) == Some(at)
  {
    if s != "" {
      WalkPlain(s[1..], at);
    }
  }

  lemma {:induction false} WalkArguments(s: string, at: Level)
    requires !at.quoted && at.depth > 0 && forall k | 0 <= k < |s| :: s[k] !in "\"()"
    ensures Walk(s, at) == Some(at)
  {
    if s != "" {
      WalkArguments(s[1..], at);
    }
  }

  /** A word or more, such as `text` or `double precision`, and the same with arguments, such as `numeric(10,2)`. */
  lemma UsualTypesAreTypeTexts(word: string, arguments: string)
    requires forall k | 0 <= k < |word| :: word[k] !in "\"(),"
    requires forall k | 0 <= k < |arguments| :: arguments[k] !in "\"()"
    ensures TypeText(word) <==> !EndsWith(word, NOT_NULL)
    ensures TypeText(word + ("(" + (arguments + ")")))
  {
    var inside, t := TOP.(depth := 1), word + ("(" + (arguments + ")"));
    WalkPlain(word, TOP);
    WalkAppend(word, "(" + (arguments + ")"), TOP);
    assert ("(" + (arguments + ")"))[1..] == arguments + ")";
    WalkArguments(arguments, inside);
    WalkAppend(arguments, ")", inside);
    assert ")"[1..] == "";
    assert Walk(")", inside) == Walk("", TOP) == Some(TOP);
    assert t[|t| - 1] == ')' && (|t| >= 9 ==> t[|t| - 9..][8] == ')');
  }

  /** The text between the name and the end of one column definition. */
  function TypeAndNull(c: Column): string {
    c.typ + if c.notNull then NOT_NULL else ""
  }

  /** The column as CREATE TABLE stores it. */
  function Stored(c: Column): Column { c.(name := StoredName(c.name)) }

  function StoredColumns(cols: seq<Column>): seq<Column> {
    if cols == [] then [] else [Stored(cols[0])] + StoredColumns(cols[1..])
  }

  lemma {:induction false} StoredColumnsAt(cols: seq<Column>)
    ensures |StoredColumns(cols)| == |cols|
    ensures forall k | 0 <= k < |cols| :: StoredColumns(cols)[k] == Stored(cols[k])
  {
    if cols != [] {
      StoredColumnsAt(cols[1..]);
    }
  }

  lemma TypeStops(c: Column, rest: string)
    requires TypeText(c.typ) && (rest == "" || rest[0] == ',' || rest[0] == ')')
    ensures StopAt(TypeAndNull(c) + rest, TOP) == |TypeAndNull(c)|
  {
    WalkPlain(NOT_NULL, TOP);
    WalkAppend(c.typ, NOT_NULL, TOP);
    assert c.typ + "" == c.typ;
    StopsAfterWalk(TypeAndNull(c), rest, TOP);
  }

  lemma TypeSplits(c: Column)
    requires !EndsWith(c.typ, NOT_NULL)
    ensures ReadType(StoredName(c.name), TypeAndNull(c)) == Stored(c)
  {
    var text := TypeAndNull(c);
    assert c.typ + "" == c.typ;
    if c.notNull {
      assert text[|text| - |NOT_NULL|..] == NOT_NULL;
      assert text[..|text| - |NOT_NULL|] == c.typ;
    }
  }

  lemma ColumnTextSplits(kw: Keywords, c: Column, tail: string)
    ensures ColumnText(kw, c) + tail == QuoteIdent(kw, c.name) + (" " + (TypeAndNull(c) + tail))
  {
    var flag := if c.notNull then NOT_NULL else "";
    Reassociate(QuoteIdent(kw, c.name), " ", c.typ, flag);
    Reassociate(QuoteIdent(kw, c.name), " ", c.typ + flag, tail);
  }

  /** What the reader does with one definition and the text after it. */
  lemma ColumnStep(kw: Keywords, c: Column, tail: string)
    requires Readable(c) && tail != "" && (tail[0] == ',' || tail[0] == ')')
    ensures ReadColumns(kw, ColumnText(kw, c) + tail) ==
            if !StartsWith(tail, ", ") then Some(([Stored(c)], tail))
            else match ReadColumns(kw, tail[2..])
                 case None => None
                 case Some(more) => Some(([Stored(c)] + more.0, more.1))
  {
    var body := TypeAndNull(c) + tail;
    ColumnTextSplits(kw, c, tail);
    ReadNameUndoesQuoteIdent(kw, kw.reserved, c.name, " " + body);
    assert (" " + body)[1..] == body && (" " + body)[..1] == " ";
    TypeStops(c, tail);
    TypeSplits(c);
    var n := |TypeAndNull(c)|;
    assert body[..n] == TypeAndNull(c) && body[n..] == tail;
  }

  lemma LastColumn(kw: Keywords, c: Column, rest: string)
    requires Readable(c) && rest != "" && rest[0] == ')'
    ensures ReadColumns(kw, ColumnText(kw, c) + rest) == Some(([Stored(c)], rest))
  {
    ColumnStep(kw, c, rest);
    assert |rest| >= 2 ==> rest[..2][0] == rest[0];
  }

  lemma NextColumn(kw: Keywords, c: Column, tail: string, cols: seq<Column>, rest: string)
    requires Readable(c)
    requires ReadColumns(kw, tail) == Some((cols, rest))
    ensures ReadColumns(kw, ColumnText(kw, c) + (", " + tail)) == Some(([Stored(c)] + cols, rest))
  {
    ColumnStep(kw, c, ", " + tail);
    assert (", " + tail)[..2] == ", " && (", " + tail)[2..] == tail;
  }

  /** JoinColumns written onto the text that follows it. */
  function JoinOnto(kw: Keywords, cols: seq<Column>, rest: string): string
    requires cols != []
  {
    if |cols| == 1 then ColumnText(kw, cols[0]) + rest
    else ColumnText(kw, cols[0]) + (", " + JoinOnto(kw, cols[1..], rest))
  }

  lemma {:induction false} JoinOntoIsJoin(kw: Keywords, cols: seq<Column>, rest: string)
    requires cols != []
    ensures JoinOnto(kw, cols, rest) == JoinColumns(kw, cols) + rest
  {
    if |cols| > 1 {
      JoinOntoIsJoin(kw, cols[1..], rest);
      Reassociate(ColumnText(kw, cols[0]), ", ", JoinColumns(kw, cols[1..]), rest);
    }
  }

  lemma {:induction false} ColumnsReadBack(kw: Keywords, cols: seq<Column>, rest: string)
    requires cols != [] && forall c :: c in cols ==> Readable(c)
    requires rest != "" && rest[0] == ')'
    ensures ReadColumns(kw, JoinOnto(kw, cols, rest)) == Some((StoredColumns(cols), rest))
  {
    var c, more := cols[0], cols[1..];
    assert c in cols && forall d :: d in more ==> d in cols;
    if |cols| == 1 {
      LastColumn(kw, c, rest);
      assert StoredColumns(cols) == [Stored(c)];
    } else {
      ColumnsReadBack(kw, more, rest);
      NextColumn(kw, c, JoinOnto(kw, more, rest), StoredColumns(more), rest);
    }
  }

  /** The live attributes, each once, in attnum order. */
  lemma {:induction false} LiveAttributesInOrder(attrs: seq<Attribute>)
    ensures var live := LiveAttributes(attrs); forall i, j :: 0 <= i < j < |live| ==> live[i].num <= live[j].num
    ensures multiset(LiveAttributes(attrs)) == multiset(Filter(Live, attrs))
    ensures forall a :: a in LiveAttributes(attrs) <==> a in attrs && a.num > 0 && !a.dropped
  {
    var kept, live := Filter(Live, attrs), LiveAttributes(attrs);
    OrderBySorts(ByNumber, kept);
    forall i, j | 0 <= i < j < |live| ensures live[i].num <= live[j].num {
      assert ByNumber(live[i], live[j]);
    }
    forall a ensures a in LiveAttributes(attrs) <==> a in attrs && Live(a) {
      FilterMember(Live, attrs, a);
      assert a in LiveAttributes(attrs) <==> a in multiset(LiveAttributes(attrs));
    }
  }

  lemma LiveColumnsReadable(attrs: seq<Attribute>)
    requires forall a :: a in attrs && Live(a) ==> a.name != "" && TypeText(a.typ)
    ensures forall c :: c in ToColumns(LiveAttributes(attrs)) ==> Readable(c)
  {
    var live := LiveAttributes(attrs);
    var cols := ToColumns(live);
    LiveAttributesInOrder(attrs);
    forall c | c in cols ensures Readable(c) {
      var k :| 0 <= k < |cols| && cols[k] == c;
      assert live[k] in live;
    }
  }

  /** What the mirror's columns are, one by one. */
  lemma StoredAttributes(attrs: seq<Attribute>)
    ensures var read := StoredColumns(ToColumns(attrs));
            && |read| == |attrs|
            && forall k | 0 <= k < |attrs| ::
                 && read[k].name == StoredName(attrs[k].name) && read[k].typ == attrs[k].typ
                 && (read[k].notNull <==> attrs[k].notNull)
                 && (Utf8Size(attrs[k].name) <= 63 ==> read[k].name == attrs[k].name)
  {
    StoredColumnsAt(ToColumns(attrs));
    forall k | 0 <= k < |attrs| ensures Utf8Size(attrs[k].name) <= 63 ==> StoredName(attrs[k].name) == attrs[k].name {
      ClipKeepsExactlyWhatFits(attrs[k].name, MAX_NAME_BYTES);
    }
  }

  /** The reader on its own parts: a prefix, a name, a list, an end. */
  lemma CreateTableSteps(kw: Keywords, dst: string, list: string, schema: string, table: string, cols: seq<Column>)
    requires ReadQualified(kw, dst + (" (" + list)) == Some((Some(schema), table, " (" + list))
    requires ReadColumns(kw, list) == Some((cols, ") USING mooncake"))
    ensures ReadCreateTable(kw, "CREATE TABLE " + (dst + (" (" + list))) == Some((Some(schema), table, cols))
  {
    var head, tail := "CREATE TABLE ", dst + (" (" + list);
    assert (head + tail)[..|head|] == head && (head + tail)[|head|..] == tail;
    assert (" (" + list)[..2] == " (" && (" (" + list)[2..] == list;
  }

  /**
   Reading the generated CREATE TABLE gives back the mirror's names and exactly the live
   source columns in attnum order, with their names, types and NOT NULL flags; names are
   cut to what PostgreSQL stores, which changes nothing in names it stores already.
   LiveAttributesInOrder says which attributes `live` consists of, and in which order.
   */
  lemma MirrorHasTheLiveColumns(kw: Keywords, schema: string, table: string, attrs: seq<Attribute>)
    requires schema != "" && table != ""
    requires forall a :: a in attrs && Live(a) ==> a.name != "" && TypeText(a.typ)
    requires ColumnList(kw, attrs).Ok?
    ensures ReadCreateTable(kw, CreateTableQuery(QuoteQualified(kw, schema, table), ColumnList(kw, attrs).value))
            == Some((Some(StoredName(schema)), StoredName(table), StoredColumns(ToColumns(LiveAttributes(attrs)))))
    ensures var live, read := LiveAttributes(attrs), StoredColumns(ToColumns(LiveAttributes(attrs)));
            && |read| == |live|
            && (forall k | 0 <= k < |live| ::
                  && read[k].name == StoredName(live[k].name) && read[k].typ == live[k].typ
                  && (read[k].notNull <==> live[k].notNull)
                  && (Utf8Size(live[k].name) <= 63 ==> read[k].name == live[k].name))
            && (forall i, j :: 0 <= i < j < |live| ==> live[i].num <= live[j].num)
  {
    LiveAttributesInOrder(attrs);
    LiveColumnsReadable(attrs);
    CreateTableReadsBack(kw, schema, table, ToColumns(LiveAttributes(attrs)));
    StoredAttributes(LiveAttributes(attrs));
  }

  lemma CreateTableAssociates(dst: string, columns: string)
    ensures CreateTableQuery(dst, columns) == "CREATE TABLE " + (dst + (" (" + (columns + ") USING mooncake")))
  {
  }

  lemma CreateTableReadsBack(kw: Keywords, schema: string, table: string, cols: seq<Column>)
    requires schema != "" && table != "" && cols != []
    requires forall c :: c in cols ==> Readable(c)
    ensures ReadCreateTable(kw, CreateTableQuery(QuoteQualified(kw, schema, table), JoinColumns(kw, cols)))
            == Some((Some(StoredName(schema)), StoredName(table), StoredColumns(cols)))
  {
    var dst, columns, end := QuoteQualified(kw, schema, table), JoinColumns(kw, cols), ") USING mooncake";
    ReadQualifiedUndoesQuoteQualified(kw, schema, table, " (" + (columns + end));
    ColumnsReadBack(kw, cols, end);
    JoinOntoIsJoin(kw, cols, end);
    CreateTableSteps(kw, dst, columns + end, StoredName(schema), StoredName(table), StoredColumns(cols));
    CreateTableAssociates(dst, columns);
  }

  /** A source without live columns gets no mirror: the call panics instead. */
  lemma NoLiveColumnsNoMirror(kw: Keywords, attrs: seq<Attribute>)
    ensures ColumnList(kw, attrs).Panic? <==> forall a :: a in attrs ==> a.num <= 0 || a.dropped
  {
    LiveAttributesInOrder(attrs);
    var live := LiveAttributes(attrs);
    if live != [] {
      assert live[0] in live;
    }
  }
}
