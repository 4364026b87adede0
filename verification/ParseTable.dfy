/**
 parse_table: the regular expression it compiles, a one-pass scanner for the same
 language, and what the key it returns means to PostgreSQL and to the drop trigger.
 */
module ParseTable {
  import opened Basics
  import opened Quoting
  import opened Identifiers

  // --------------------------------------------------------- regular expressions

  datatype Regex =
    | Set(member: char -> bool)
    | Cat(left: Regex, right: Regex)
    | Alt(first: Regex, second: Regex)
    | Plus(body: Regex)

  ghost predicate Matches(r: Regex, s: string)
    decreases r, |s|
  {
    match r
    case Set(member) => |s| == 1 && member(s[0])
    case Cat(a, b) => exists i :: 0 <= i <= |s| && Matches(a, s[..i]) && Matches(b, s[i..])
    case Alt(a, b) => Matches(a, s) || Matches(b, s)
    case Plus(a) =>
      Matches(a, s) || exists i :: 0 < i < |s| && Matches(a, s[..i]) && Matches(r, s[i..])
  }

  /** `\w` is a parameter; these are the facts about it that the grammar rests on. */
  ghost predicate WordTable(w: char -> bool) {
    forall c :: c as int < 128 ==>
      (w(c) <==> 'a' <= c <= 'z' || 'A' <= c <= 'Z' || '0' <= c <= '9' || c == '_')
  }

  function WordOrDollar(w: char -> bool): char -> bool { c => w(c) || c == '$' }

  function Quote(): Regex { Set(c => c == '"') }

  function NotQuote(): Regex { Set(c => c != '"') }

  /** `([^"]|"")` */
  function QuotedUnit(): Regex { Alt(NotQuote(), Cat(Quote(), Quote())) }

  /** `([^"]|"")+"` */
  function QuotedTail(): Regex { Cat(Plus(QuotedUnit()), Quote()) }

  /** `([\w$]+|"([^"]|"")+")` */
  function Ident(w: char -> bool): Regex {
    Alt(Plus(Set(WordOrDollar(w))), Cat(Quote(), QuotedTail()))
  }

  datatype Captures = Captures(schema: Option<string>, table: string)

  /** `^((?<schema>IDENT)\.)?(?<table>IDENT)$` matches `s` with these captures. */
  ghost predicate Captured(w: char -> bool, s: string, c: Captures) {
    && Matches(Ident(w), c.table)
    && match c.schema
       case None => s == c.table
       case Some(schema) => Matches(Ident(w), schema) && s == schema + "." + c.table
  }

  // ------------------------------------------------- what one identifier looks like

  predicate Bare(w: char -> bool, s: string) {
    s != "" && forall k | 0 <= k < |s| :: w(s[k]) || s[k] == '$'
  }

  /** A quoted identifier: some non-empty text between quotes, inner quotes doubled. */
  ghost predicate Delimited(s: string) {
    exists v :: v != "" && s == Enclose('"', v)
  }

  lemma {:induction false} PlusSet(w: char -> bool, s: string)
    ensures Matches(Plus(Set(WordOrDollar(w))), s) <==> Bare(w, s)
    decreases |s|
  {
    var unit := Set(WordOrDollar(w));
    if Matches(Plus(unit), s) && !Matches(unit, s) {
      var i :| 0 < i < |s| && Matches(unit, s[..i]) && Matches(Plus(unit), s[i..]);
      PlusSet(w, s[i..]);
      assert s[..i][0] == s[0] && forall k | 1 <= k < |s| :: s[k] == s[i..][k - 1];
    }
    if Bare(w, s) && |s| > 1 {
      PlusSet(w, s[1..]);
      assert Matches(unit, s[..1]) && Matches(Plus(unit), s[1..]);
    }
  }

  lemma QuotePair(s: string)
    ensures Matches(Cat(Quote(), Quote()), s) <==> s == ['"', '"']
  {
    if Matches(Cat(Quote(), Quote()), s) {
      var i :| 0 <= i <= |s| && Matches(Quote(), s[..i]) && Matches(Quote(), s[i..]);
      assert s == s[..i] + s[i..];
    }
    if s == ['"', '"'] {
      assert Matches(Quote(), s[..1]) && Matches(Quote(), s[1..]);
    }
  }

  lemma DoubleOne(q: char, c: char)
    ensures Double(q, [c]) == if c == q then [q, q] else [c]
  {
    assert Double(q, [c]) == (if c == q then [q, q] else [c]) + Double(q, [c][1..]);
    assert Double(q, [c][1..]) == "";
  }

  lemma UnitIsOneCharacter(s: string)
    ensures Matches(QuotedUnit(), s) <==> exists c: char :: s == Double('"', [c])
  {
    QuotePair(s);
    assert Matches(QuotedUnit(), s) <==> Matches(NotQuote(), s) || Matches(Cat(Quote(), Quote()), s);
    assert Matches(NotQuote(), s) <==> |s| == 1 && s[0] != '"';
    DoubleOne('"', '"');
    if Matches(NotQuote(), s) {
      DoubleOne('"', s[0]);
      assert s == Double('"', [s[0]]);
    }
    if c: char :| s == Double('"', [c]) {
      DoubleOne('"', c);
    }
  }

  lemma {:induction false} PlusUnitIsDoubled(s: string) returns (v: string)
    requires Matches(Plus(QuotedUnit()), s)
    ensures v != "" && s == Double('"', v)
    decreases |s|
  {
    if Matches(QuotedUnit(), s) {
      UnitIsOneCharacter(s);
      var c: char :| s == Double('"', [c]);
      v := [c];
    } else {
      var i :| 0 < i < |s| && Matches(QuotedUnit(), s[..i]) && Matches(Plus(QuotedUnit()), s[i..]);
      UnitIsOneCharacter(s[..i]);
      var c: char :| s[..i] == Double('"', [c]);
      var rest := PlusUnitIsDoubled(s[i..]);
      v := [c] + rest;
      DoubleAppend('"', [c], rest);
      assert s == s[..i] + s[i..];
    }
  }

  lemma {:induction false} DoubledIsPlusUnit(v: string)
    requires v != ""
    ensures Matches(Plus(QuotedUnit()), Double('"', v))
  {
    var first := Double('"', [v[0]]);
    UnitIsOneCharacter(first);
    if |v| == 1 {
      assert v == [v[0]];
    } else {
      DoubledIsPlusUnit(v[1..]);
      assert v == [v[0]] + v[1..];
      DoubleAppend('"', [v[0]], v[1..]);
      var s := Double('"', v);
      assert s[..|first|] == first && s[|first|..] == Double('"', v[1..]);
      assert Double('"', v[1..]) != "";
    }
  }

  lemma PlusUnitIff(s: string)
    ensures Matches(Plus(QuotedUnit()), s) <==> exists v :: v != "" && s == Double('"', v)
  {
    if Matches(Plus(QuotedUnit()), s) {
      var v := PlusUnitIsDoubled(s);
    }
    if v :| v != "" && s == Double('"', v) {
      DoubledIsPlusUnit(v);
    }
  }

  lemma QuotedTailLooks(t: string)
    ensures Matches(QuotedTail(), t) <==> exists v :: v != "" && t == Double('"', v) + ['"']
  {
    var a := Plus(QuotedUnit());
    if Matches(QuotedTail(), t) {
      var j :| 0 <= j <= |t| && Matches(a, t[..j]) && Matches(Quote(), t[j..]);
      PlusUnitIff(t[..j]);
      assert t == t[..j] + t[j..];
    }
    if v :| v != "" && t == Double('"', v) + ['"'] {
      var d := Double('"', v);
      DoubledIsPlusUnit(v);
      assert t[..|d|] == d && t[|d|..] == ['"'];
      assert Matches(a, t[..|d|]) && Matches(Quote(), t[|d|..]);
    }
  }

  lemma QuotedIdentLooks(s: string)
    ensures Matches(Cat(Quote(), QuotedTail()), s) <==> Delimited(s)
  {
    if Matches(Cat(Quote(), QuotedTail()), s) {
      var i :| 0 <= i <= |s| && Matches(Quote(), s[..i]) && Matches(QuotedTail(), s[i..]);
      QuotedTailLooks(s[i..]);
      var v :| v != "" && s[i..] == Double('"', v) + ['"'];
      assert s == s[..i] + s[i..];
      assert s == Enclose('"', v);
    }
    if Delimited(s) {
      var v :| v != "" && s == Enclose('"', v);
      assert s[1..] == Double('"', v) + ['"'];
      QuotedTailLooks(s[1..]);
      assert Matches(Quote(), s[..1]) && Matches(QuotedTail(), s[1..]);
    }
  }

  lemma IdentLooks(w: char -> bool, s: string)
    ensures Matches(Ident(w), s) <==> Bare(w, s) || Delimited(s)
    ensures Matches(Ident(w), s) <==>
            || (s != "" && forall k | 0 <= k < |s| :: w(s[k]) || s[k] == '$')
            || Delimited(s)
  {
    PlusSet(w, s);
    QuotedIdentLooks(s);
  }

  // ------------------------------------------------------------ one-pass scanner

  /** Length of the identifier at the front of `s`, found without backtracking. */
  function ScanIdent(w: char -> bool, s: string): Option<nat> {
    if s == "" then None
    else if s[0] == '"' then
      match ReadQuoted('"', s)
      case None => None
      case Some(r) => if r.0 == "" || |r.1| > |s| then None else Some(|s| - |r.1|)
    else
      var n := Run(WordOrDollar(w), s);
      if n == 0 then None else Some(n)
  }

  function Scan(w: char -> bool, s: string): Option<Captures> {
    match ScanIdent(w, s)
    case None => None
    case Some(n) =>
      if n >= |s| then Some(Captures(None, s))
      else if s[n] == '.' then
        match ScanIdent(w, s[n + 1..])
        case None => None
        case Some(m) =>
          if m == |s| - n - 1 then Some(Captures(Some(s[..n]), s[n + 1..])) else None
      else None
  }

  /** Whatever ReadBody accepted is the doubling of its value up to the closing quote. */
  lemma {:induction false} ReadBodyIsDouble(q: char, s: string)
    ensures ReadBody(q, s).Some? ==>
              var r := ReadBody(q, s).value; s == Double(q, r.0) + [q] + r.1
  {
    if s == "" {
    } else if s[0] != q {
      ReadBodyIsDouble(q, s[1..]);
      if ReadBody(q, s).Some? {
        var r := ReadBody(q, s[1..]).value;
        assert Double(q, [s[0]] + r.0) == [s[0]] + Double(q, r.0) by { DoubleAppend(q, [s[0]], r.0); }
      }
    } else if |s| > 1 && s[1] == q {
      ReadBodyIsDouble(q, s[2..]);
      if ReadBody(q, s).Some? {
        var r := ReadBody(q, s[2..]).value;
        assert Double(q, [q] + r.0) == [q, q] + Double(q, r.0) by { DoubleAppend(q, [q], r.0); }
      }
    }
  }

  lemma ScanIdentSound(w: char -> bool, s: string)
    requires ScanIdent(w, s).Some?
    ensures var n := ScanIdent(w, s).value; 0 < n <= |s| && Matches(Ident(w), s[..n])
  {
    var n := ScanIdent(w, s).value;
    if s[0] == '"' {
      var r := ReadQuoted('"', s).value;
      ReadBodyIsDouble('"', s[1..]);
      assert s == Enclose('"', r.0) + r.1;
      assert s[..n] == Enclose('"', r.0);
    } else {
      RunCovers(WordOrDollar(w), s);
    }
    IdentLooks(w, s[..n]);
  }

  lemma ScanBare(w: char -> bool, id: string, rest: string)
    requires WordTable(w) && Bare(w, id)
    requires rest == "" || rest[0] == '.'
    ensures ScanIdent(w, id + rest) == Some(|id|)
  {
    assert (id + rest)[0] == id[0] && WordOrDollar(w)(id[0]);
    RunIsUnique(WordOrDollar(w), id, rest);
  }

  lemma ScanDelimited(w: char -> bool, v: string, rest: string)
    requires v != "" && NotBefore('"', rest)
    ensures ScanIdent(w, Enclose('"', v) + rest) == Some(|Enclose('"', v)|)
  {
    EncloseDelimitsItself('"', v, rest);
    assert (Enclose('"', v) + rest)[0] == '"';
  }

  lemma ScanIdentComplete(w: char -> bool, id: string, rest: string)
    requires WordTable(w) && Matches(Ident(w), id)
    requires rest == "" || rest[0] == '.'
    ensures ScanIdent(w, id + rest) == Some(|id|)
  {
    IdentLooks(w, id);
    if Bare(w, id) {
      ScanBare(w, id, rest);
    } else {
      var v :| v != "" && id == Enclose('"', v);
      ScanDelimited(w, v, rest);
    }
  }

  /** The scanner and the regular expression accept the same inputs with the same captures. */
  lemma ScannerIsTheRegex(w: char -> bool, s: string, c: Captures)
    requires WordTable(w)
    ensures Captured(w, s, c) <==> Scan(w, s) == Some(c)
  {
    if Captured(w, s, c) {
      match c.schema
      case None =>
        ScanIdentComplete(w, s, "");
        assert s + "" == s;
      case Some(schema) =>
        var n := |schema|;
        ScanIdentComplete(w, schema, "." + c.table);
        assert s == schema + ("." + c.table);
        assert s[n] == '.' && s[n + 1..] == c.table && s[..n] == schema;
        ScanIdentComplete(w, c.table, "");
        assert c.table + "" == c.table;
    }
    if Scan(w, s) == Some(c) {
      ScanIdentSound(w, s);
      var n := ScanIdent(w, s).value;
      if n < |s| {
        ScanIdentSound(w, s[n + 1..]);
        assert s[n + 1..][..|s| - n - 1] == s[n + 1..];
        assert s == s[..n] + "." + s[n + 1..];
      } else {
        assert s[..n] == s;
      }
    }
  }

  /** No input has two readings, whatever dots and quotes its identifiers contain. */
  lemma GrammarUnambiguous(w: char -> bool, s: string, c: Captures, d: Captures)
    requires WordTable(w) && Captured(w, s, c) && Captured(w, s, d)
    ensures c == d
  {
    ScannerIsTheRegex(w, s, c);
    ScannerIsTheRegex(w, s, d);
  }

  lemma CapturedNonEmpty(w: char -> bool, s: string, c: Captures)
    requires Captured(w, s, c)
    ensures c.table != "" && (c.schema.Some? ==> c.schema.value != "")
  {
    IdentLooks(w, c.table);
    if c.schema.Some? {
      IdentLooks(w, c.schema.value);
    }
  }

  // ------------------------------------------------------------------ parse_table

  /** The names parse_table hands to quote_qualified_identifier: the raw captured text. */
  function Names(w: char -> bool, currentSchema: Option<string>, input: string): Result<(string, string)> {
    match Scan(w, input)
    case None => Panic("invalid input")
    case Some(c) =>
      match c.schema
      case Some(schema) => Ok((schema, c.table))
      case None =>
        match currentSchema
        case None => Panic("no current schema")
        case Some(schema) => Ok((schema, c.table))
  }

  /** current_schema() is consulted only when the input names no schema. */
  function ParseTable(w: char -> bool, kw: Keywords, currentSchema: Option<string>, input: string): Result<string> {
    match Names(w, currentSchema, input)
    case Panic(reason) => Panic(reason)
    case Ok(n) => Ok(QuoteQualified(kw, n.0, n.1))
  }

  lemma NamesNonEmpty(w: char -> bool, currentSchema: Option<string>, input: string)
    requires WordTable(w) && (currentSchema.Some? ==> currentSchema.value != "")
    requires Names(w, currentSchema, input).Ok?
    ensures var n := Names(w, currentSchema, input).value; n.0 != "" && n.1 != ""
  {
    var c := Scan(w, input).value;
    ScannerIsTheRegex(w, input, c);
    CapturedNonEmpty(w, input, c);
  }

  /** parse_table panics exactly when the grammar rejects the input, or it names no schema and there is none. */
  lemma ParseTableAccepts(w: char -> bool, kw: Keywords, currentSchema: Option<string>, input: string)
    requires WordTable(w)
    ensures ParseTable(w, kw, currentSchema, input).Ok? <==>
            exists c :: Captured(w, input, c) && (c.schema.Some? || currentSchema.Some?)
  {
    if Scan(w, input).Some? {
      ScannerIsTheRegex(w, input, Scan(w, input).value);
    }
    if c :| Captured(w, input, c) && (c.schema.Some? || currentSchema.Some?) {
      ScannerIsTheRegex(w, input, c);
    }
  }

  /**
   The key is made of the captured schema and table, in this order; the current schema
   stands in only when none is captured, and without one there is no key.
   */
  lemma KeyIsTheCapturedPair(w: char -> bool, kw: Keywords, currentSchema: Option<string>, input: string, c: Captures)
    requires WordTable(w) && Captured(w, input, c)
    ensures c.schema.Some? ==>
              && Names(w, currentSchema, input) == Ok((c.schema.value, c.table))
              && ParseTable(w, kw, currentSchema, input) == Ok(QuoteQualified(kw, c.schema.value, c.table))
    ensures c.schema.None? && currentSchema.Some? ==>
              && Names(w, currentSchema, input) == Ok((currentSchema.value, c.table))
              && ParseTable(w, kw, currentSchema, input) == Ok(QuoteQualified(kw, currentSchema.value, c.table))
    ensures c.schema.None? && currentSchema.None? ==> ParseTable(w, kw, currentSchema, input).Panic?
  {
    ScannerIsTheRegex(w, input, c);
  }

  /** `schema.table` is its own key when both stay bare; `table` alone gets the current schema in front. */
  lemma PlainInputIsItsKey(w: char -> bool, kw: Keywords, currentSchema: string, schema: string, table: string)
    requires WordTable(w) && QuoteIdent(kw, schema) == schema && QuoteIdent(kw, table) == table
    ensures ParseTable(w, kw, Some(currentSchema), schema + "." + table) == Ok(schema + "." + table)
    ensures ParseTable(w, kw, Some(currentSchema), table) == Ok(QuoteIdent(kw, currentSchema) + "." + table)
  {
    QuoteIdentIsBareIff(kw, schema);
    QuoteIdentIsBareIff(kw, table);
    IdentLooks(w, schema);
    IdentLooks(w, table);
    KeyIsTheCapturedPair(w, kw, Some(currentSchema), schema + "." + table, Captures(Some(schema), table));
    KeyIsTheCapturedPair(w, kw, Some(currentSchema), table, Captures(None, table));
  }

  /**
   `CREATE TABLE {dst}` and `'{src}'::regclass` read back the names that were quoted, cut
   as every name is: exactly the names when both fit in 63 bytes, and only then.
   */
  lemma KeyReadsBack(w: char -> bool, kw: Keywords, currentSchema: Option<string>, input: string, rest: string)
    requires WordTable(w) && (currentSchema.Some? ==> currentSchema.value != "")
    requires ParseTable(w, kw, currentSchema, input).Ok? && EndsName(rest)
    ensures var n := Names(w, currentSchema, input).value;
            var read := ReadQualified(kw, ParseTable(w, kw, currentSchema, input).value + rest);
            && read == Some((Some(StoredName(n.0)), StoredName(n.1), rest))
            && (read == Some((Some(n.0), n.1, rest))
                <==> Utf8Size(n.0) <= MAX_NAME_BYTES && Utf8Size(n.1) <= MAX_NAME_BYTES)
  {
    NamesNonEmpty(w, currentSchema, input);
    var n := Names(w, currentSchema, input).value;
    ReadQualifiedUndoesQuoteQualified(kw, n.0, n.1, rest);
    ClipKeepsExactlyWhatFits(n.0, MAX_NAME_BYTES);
    ClipKeepsExactlyWhatFits(n.1, MAX_NAME_BYTES);
  }

  /**
   The drop trigger quotes the stored names in the dropping session. The key it sends is
   the key registered at creation exactly when neither name exceeds the 63 bytes
   PostgreSQL stores and both sessions quote the same of the two names.
   */
  lemma DropKeyIsCreateKey(w: char -> bool, creator: Keywords, dropper: Keywords, currentSchema: Option<string>,
                           input: string)
    requires WordTable(w) && (currentSchema.Some? ==> currentSchema.value != "")
    requires ParseTable(w, creator, currentSchema, input).Ok?
    ensures var n := Names(w, currentSchema, input).value;
            QuoteQualified(dropper, StoredName(n.0), StoredName(n.1)) ==
              ParseTable(w, creator, currentSchema, input).value
            <==> && Utf8Size(n.0) <= MAX_NAME_BYTES && Utf8Size(n.1) <= MAX_NAME_BYTES
                 && (Safe(creator, n.0) <==> Safe(dropper, n.0)) && (Safe(creator, n.1) <==> Safe(dropper, n.1))
  {
    NamesNonEmpty(w, currentSchema, input);
    var n := Names(w, currentSchema, input).value;
    ClipKeepsExactlyWhatFits(n.0, MAX_NAME_BYTES);
    ClipKeepsExactlyWhatFits(n.1, MAX_NAME_BYTES);
    WrittenAlikeIff(dropper, StoredName(n.0), StoredName(n.1), creator, n.0, n.1);
  }

  /** With quote_all_identifiers on, a session quotes every word. */
  function QuoteAll(kw: Keywords): Keywords { WordLists(s => true, kw.reserved) }

  /** Created with that setting on and dropped with it off, even `public.foo` changes its key. */
  lemma SettingChangesTheKey(kw: Keywords)
    requires !kw.quoted("public") && !kw.quoted("foo")
    ensures QuoteQualified(QuoteAll(kw), "public", "foo") != QuoteQualified(kw, "public", "foo")
  {
    assert Safe(kw, "public") && !Safe(QuoteAll(kw), "public");
    WrittenAlikeIff(QuoteAll(kw), "public", "foo", kw, "public", "foo");
  }

  /** Two inputs share a key only when they name the same pair. */
  lemma KeysIdentifyNames(w: char -> bool, kw: Keywords, cur1: Option<string>, in1: string,
                          cur2: Option<string>, in2: string)
    requires WordTable(w)
    requires (cur1.Some? ==> cur1.value != "") && (cur2.Some? ==> cur2.value != "")
    requires ParseTable(w, kw, cur1, in1).Ok? && ParseTable(w, kw, cur2, in2).Ok?
    ensures ParseTable(w, kw, cur1, in1) == ParseTable(w, kw, cur2, in2)
            <==> Names(w, cur1, in1) == Names(w, cur2, in2)
  {
    NamesNonEmpty(w, cur1, in1);
    NamesNonEmpty(w, cur2, in2);
    var a, b := Names(w, cur1, in1).value, Names(w, cur2, in2).value;
    if QuoteQualified(kw, a.0, a.1) == QuoteQualified(kw, b.0, b.1) {
      QuoteQualifiedInjective(kw, a.0, a.1, b.0, b.1);
    }
  }

  // ------------------------------------- does the input denote what SQL says it does?

  predicate StartsWithQuotes(s: string, n: nat) {
    n <= |s| && forall k | 0 <= k < n :: s[k] == '"'
  }

  /**
   Captured text that SQL reads as the name parse_table makes of it. A bare one must be a
   name to SQL, and its upper-case letters, if any, must fall victim to the cut. A quoted
   one starts with a quote where its value does not, unless the cut leaves only quotes.
   */
  predicate Verbatim(reserved: Words, id: string) {
    id != "" &&
    if id[0] == '"' then StartsWithQuotes(id, 127)
    else
      IdentStart(id[0]) && !reserved(FoldCase(id)) &&
      forall k | 0 <= k < |StoredName(id)| :: !('A' <= StoredName(id)[k] <= 'Z')
  }

  lemma BareVerbatim(w: char -> bool, reserved: Words, id: string, rest: string)
    requires WordTable(w) && Bare(w, id)
    requires rest == "" || rest[0] == '.'
    ensures ReadName(reserved, id + rest) == Some((StoredName(id), rest)) <==> Verbatim(reserved, id)
  {
    var s, cut := id + rest, StoredName(id);
    assert s[0] == id[0] && WordOrDollar(w)(id[0]);
    assert forall k | 0 <= k < |id| :: WordOrDollar(w)(id[k]) && id[k] != '"';
    if IdentStart(id[0]) {
      RunIsUnique(IdentCont, id, rest);
      assert s[..|id|] == id && s[|id|..] == rest;
      ClipFolds(id, MAX_NAME_BYTES);
      FoldCaseAt(cut);
      if FoldCase(cut) == cut {
        forall k | 0 <= k < |cut| ensures !('A' <= cut[k] <= 'Z') {
          assert FoldCase(cut)[k] == LowerChar(cut[k]);
        }
      }
    }
  }

  lemma {:induction false} QuotesDouble(v: string, n: nat)
    requires StartsWithQuotes(v, n)
    ensures StartsWithQuotes(Double('"', v), 2 * n)
  {
    if n > 0 {
      assert StartsWithQuotes(v[1..], n - 1);
      QuotesDouble(v[1..], n - 1);
    }
  }

  lemma {:induction false} QuotesHalve(v: string, n: nat)
    requires StartsWithQuotes(Double('"', v) + ['"'], 2 * n)
    ensures StartsWithQuotes(v, n)
  {
    if n > 0 {
      var d := Double('"', v) + ['"'];
      assert d[1] == '"' && v != "";
      assert d[0] == v[0];
      assert d == ['"', '"'] + (Double('"', v[1..]) + ['"']);
      assert forall k | 0 <= k < 2 * n - 2 :: (Double('"', v[1..]) + ['"'])[k] == d[k + 2];
      QuotesHalve(v[1..], n - 1);
      assert forall k | 1 <= k < n :: v[k] == v[1..][k - 1];
    }
  }

  /** The value of a delimited text shows 63 quotes exactly when the text shows 127. */
  lemma QuotesInside(v: string)
    ensures StartsWithQuotes(Enclose('"', v), 127) <==> StartsWithQuotes(v, 63)
  {
    var id, d := Enclose('"', v), Double('"', v) + ['"'];
    assert id == ['"'] + d;
    if StartsWithQuotes(v, 63) {
      QuotesDouble(v, 63);
    }
    if StartsWithQuotes(id, 127) {
      assert forall k | 0 <= k < 126 :: d[k] == id[k + 1];
      QuotesHalve(v, 63);
    }
  }

  /** As far as a value and its delimited text agree, both consist of quotes. */
  lemma {:induction false} AgreementIsQuotes(v: string, n: nat)
    requires n <= |v| && n <= |Enclose('"', v)| && forall k | 0 <= k < n :: v[k] == Enclose('"', v)[k]
    ensures StartsWithQuotes(v, n)
  {
    if n > 0 {
      AgreementIsQuotes(v, n - 1);
      QuotesDouble(v, n - 1);
      var id := Enclose('"', v);
      DoubleGrows('"', v);
      assert id[n - 1] == '"' by {
        if n > 1 { assert id[n - 1] == Double('"', v)[n - 2]; }
      }
    }
  }

  /** The cut makes a value and its delimited text the same name only when it leaves 63 quotes of both. */
  lemma CutAlikeIff(v: string)
    requires v != ""
    ensures StoredName(v) == StoredName(Enclose('"', v)) <==> StartsWithQuotes(v, 63)
  {
    var id, m := Enclose('"', v), |StoredName(v)|;
    ClipFits(v, 63);
    ClipFits(id, 63);
    if StartsWithQuotes(v, 63) {
      QuotesInside(v);
      ClipKeepsAscii(v, 63, 63);
      ClipKeepsAscii(id, 63, 63);
      assert v[..63] == id[..63];
    }
    if StoredName(v) == StoredName(id) {
      assert forall k | 0 <= k < m :: v[k] == StoredName(v)[k] && id[k] == StoredName(id)[k];
      AgreementIsQuotes(v, m);
      QuotesDouble(v, m);
      SizeAtLeastLength(StoredName(v));
      if m < 63 {
        ClipKeepsAscii(id, m + 1, 63);
      }
    }
  }

  lemma {:induction false} SizeAtLeastLength(s: string)
    ensures Utf8Size(s) >= |s|
  {
    if s != "" {
      SizeAtLeastLength(s[1..]);
    }
  }

  lemma VerbatimExactly(w: char -> bool, reserved: Words, id: string, rest: string)
    requires WordTable(w) && Matches(Ident(w), id)
    requires rest == "" || rest[0] == '.'
    ensures ReadName(reserved, id + rest) == Some((StoredName(id), rest)) <==> Verbatim(reserved, id)
  {
    IdentLooks(w, id);
    if Bare(w, id) {
      BareVerbatim(w, reserved, id, rest);
    } else {
      var v :| v != "" && id == Enclose('"', v);
      EncloseDelimitsItself('"', v, rest);
      assert (id + rest)[0] == '"' == id[0];
      CutAlikeIff(v);
      QuotesInside(v);
    }
  }

  /**
   parse_table quotes the captured text itself. Its key denotes the relation that SQL would
   understand by the input, both after the cut to 63 bytes, exactly when every captured
   component is verbatim; after a dot no word is refused.
   */
  lemma InputDenotesItselfIff(w: char -> bool, kw: Keywords, input: string, c: Captures)
    requires WordTable(w) && Captured(w, input, c)
    ensures ReadQualified(kw, input) ==
              Some((if c.schema.None? then None else Some(StoredName(c.schema.value)), StoredName(c.table), ""))
            <==> match c.schema
                 case None => Verbatim(kw.reserved, c.table)
                 case Some(schema) => Verbatim(kw.reserved, schema) && Verbatim(NoWord(), c.table)
  {
    assert c.table + "" == c.table;
    match c.schema
    case None =>
      VerbatimExactly(w, kw.reserved, c.table, "");
      ScanIdentComplete(w, input, "");
    case Some(schema) =>
      assert input == schema + ("." + c.table);
      assert ("." + c.table)[1..] == c.table;
      VerbatimExactly(w, NoWord(), c.table, "");
      VerbatimExactly(w, kw.reserved, schema, "." + c.table);
      NoDotLeft(w, kw.reserved, schema, c.table);
  }

  /** The reader stops at the dot between the two components or fails. */
  lemma NoDotLeft(w: char -> bool, reserved: Words, schema: string, table: string)
    requires WordTable(w) && Matches(Ident(w), schema)
    ensures var r := ReadName(reserved, schema + ("." + table)); r.Some? ==> r.value.1 == "." + table
  {
    IdentLooks(w, schema);
    var rest := "." + table;
    if Bare(w, schema) {
      RunIsUnique(IdentCont, schema, rest);
      assert (schema + rest)[0] == schema[0];
      assert (schema + rest)[|schema|..] == rest;
    } else {
      var v :| v != "" && schema == Enclose('"', v);
      EncloseDelimitsItself('"', v, rest);
      assert (schema + rest)[0] == '"';
    }
  }

  lemma FooIsEnclosed()
    ensures Enclose('"', "Foo") == "\"Foo\"" && StoredName("Foo") == "Foo"
  {
    assert Double('"', "o") == "o" && Double('"', "oo") == "oo";
    assert Double('"', "Foo") == "Foo";
    ClipKeepsAscii("Foo", 3, MAX_NAME_BYTES);
    ClipFits("Foo", MAX_NAME_BYTES);
  }

  /** A quoted name keeps its quotes: `"Foo"` becomes a name of five characters. */
  lemma QuotedInputKeepsItsQuotes(w: char -> bool, kw: Keywords)
    requires WordTable(w)
    ensures Names(w, Some("public"), "\"Foo\"") == Ok(("public", "\"Foo\""))
    ensures ReadQualified(kw, "\"Foo\"") == Some((None, "Foo", ""))
  {
    var s := Enclose('"', "Foo");
    FooIsEnclosed();
    EncloseDelimitsItself('"', "Foo", "");
    assert s + "" == s;
    assert Delimited(s);
    IdentLooks(w, s);
    ScannerIsTheRegex(w, s, Captures(None, s));
  }
}
