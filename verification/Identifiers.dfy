/**
 Identifiers as PostgreSQL writes and reads them (section 4.1.1 of its manual):
 quote_identifier and quote_qualified_identifier, the reader of a possibly
 qualified name, and the cut to 63 bytes that CREATE TABLE applies to a name.

 The keyword lists are parameters: the words quote_identifier refuses to leave bare, and
 among them the words a reader refuses as a bare name. They differ: `values` is quoted by
 the one and accepted by the other; the regclass input function refuses no word at all.
 */
module Identifiers {
  import opened Basics
  import opened Quoting

  type Words = string -> bool

  ghost predicate Within(a: Words, b: Words) { forall s :: a(s) ==> b(s) }

  function NoWord(): Words { s => false }

  datatype WordLists = WordLists(quoted: Words, reserved: Words)

  type Keywords = l: WordLists | Within(l.reserved, l.quoted) witness WordLists(s => false, s => false)

  predicate SafeStart(c: char) { 'a' <= c <= 'z' || c == '_' }

  predicate SafeRest(c: char) { SafeStart(c) || '0' <= c <= '9' }

  /** quote_identifier leaves a name bare only when this holds. */
  predicate Safe(kw: Keywords, s: string) {
    s != "" && SafeStart(s[0]) && (forall k | 0 <= k < |s| :: SafeRest(s[k])) && !kw.quoted(s)
  }

  function QuoteIdent(kw: Keywords, s: string): string {
    if Safe(kw, s) then s else Enclose('"', s)
  }

  function QuoteQualified(kw: Keywords, schema: string, name: string): string {
    QuoteIdent(kw, schema) + "." + QuoteIdent(kw, name)
  }

  // ------------------------------------------------------------------ the reader

  predicate IdentStart(c: char) {
    'a' <= c <= 'z' || 'A' <= c <= 'Z' || c == '_' || c as int >= 128
  }

  predicate IdentCont(c: char) { IdentStart(c) || '0' <= c <= '9' || c == '$' }

  function LowerChar(c: char): char {
    if 'A' <= c <= 'Z' then (c as int + 32) as char else c
  }

  /** Unquoted names are folded to lower case. */
  function FoldCase(s: string): string {
    if s == "" then "" else [LowerChar(s[0])] + FoldCase(s[1..])
  }

  lemma {:induction false} FoldCaseAt(s: string)
    ensures var r := FoldCase(s); |r| == |s| && forall k | 0 <= k < |s| :: r[k] == LowerChar(s[k])
  {
    if s != "" {
      FoldCaseAt(s[1..]);
    }
  }

  /** Length of the longest prefix of `s` made of characters in `p`. */
  function Run(p: char -> bool, s: string): (n: nat)
    ensures n <= |s|
  {
    if s == "" || !p(s[0]) then 0 else 1 + Run(p, s[1..])
  }

  lemma {:induction false} RunCovers(p: char -> bool, s: string)
    ensures forall k | 0 <= k < Run(p, s) :: p(s[k])
  {
    if s != "" && p(s[0]) {
      RunCovers(p, s[1..]);
      assert forall k | 1 <= k < Run(p, s) :: s[k] == s[1..][k - 1];
    }
  }

  lemma {:induction false} RunIsUnique(p: char -> bool, s: string, rest: string)
    requires forall k | 0 <= k < |s| :: p(s[k])
    requires rest == "" || !p(rest[0])
    ensures Run(p, s + rest) == |s|
  {
    if s == "" {
      assert s + rest == rest;
    } else {
      assert (s + rest)[1..] == s[1..] + rest && (s + rest)[0] == s[0];
      RunIsUnique(p, s[1..], rest);
    }
  }

  /** Reads the text of one name at the front of `s`; returns it with the text that follows. */
  function ReadText(reserved: Words, s: string): Option<(string, string)> {
    if s == "" then None
    else if s[0] == '"' then
      var r := ReadQuoted('"', s);
      if r.Some? && r.value.0 == "" then None else r
    else if IdentStart(s[0]) then
      var n := Run(IdentCont, s);
      var name := FoldCase(s[..n]);
      if reserved(name) then None else Some((name, s[n..]))
    else None
  }

  /** Reads one name: its text, cut to the bytes a name may have. */
  function ReadName(reserved: Words, s: string): Option<(string, string)> {
    match ReadText(reserved, s)
    case None => None
    case Some(r) => Some((StoredName(r.0), r.1))
  }

  /** Reads `name` or `schema.name`; after a dot every word is a name. */
  function ReadQualified(kw: Keywords, s: string): Option<(Option<string>, string, string)> {
    match ReadName(kw.reserved, s)
    case None => None
    case Some(first) =>
      if first.1 != "" && first.1[0] == '.' then
        match ReadName(NoWord(), first.1[1..])
        case None => None
        case Some(second) => Some((Some(first.0), second.0, second.1))
      else Some((None, first.0, first.1))
  }

  /** Text that cannot be taken as a continuation of a name before it. */
  predicate EndsName(rest: string) {
    rest == "" || (!IdentCont(rest[0]) && rest[0] != '"')
  }

  lemma ReadTextUndoesQuoteIdent(kw: Keywords, reserved: Words, s: string, rest: string)
    requires s != "" && EndsName(rest) && Within(reserved, kw.quoted)
    ensures ReadText(reserved, QuoteIdent(kw, s) + rest) == Some((s, rest))
  {
    if Safe(kw, s) {
      var all := s + rest;
      RunIsUnique(IdentCont, s, rest);
      assert all[..|s|] == s && all[|s|..] == rest && all[0] == s[0];
      FoldCaseAt(s);
      assert FoldCase(s) == s;
    } else {
      EncloseDelimitsItself('"', s, rest);
      assert (Enclose('"', s) + rest)[0] == '"';
    }
  }

  /** A quoted name is read back as its first 63 bytes: as itself exactly when it has no more. */
  lemma ReadNameUndoesQuoteIdent(kw: Keywords, reserved: Words, s: string, rest: string)
    requires s != "" && EndsName(rest) && Within(reserved, kw.quoted)
    ensures ReadName(reserved, QuoteIdent(kw, s) + rest) == Some((StoredName(s), rest))
    ensures ReadName(reserved, QuoteIdent(kw, s) + rest) == Some((s, rest)) <==> Utf8Size(s) <= MAX_NAME_BYTES
  {
    ReadTextUndoesQuoteIdent(kw, reserved, s, rest);
    ClipKeepsExactlyWhatFits(s, MAX_NAME_BYTES);
  }

  /**
   A name stays bare exactly when it is one of those quote_identifier knows to be harmless;
   any other is delimited.
   */
  lemma QuoteIdentIsBareIff(kw: Keywords, s: string)
    ensures QuoteIdent(kw, s) == s <==>
            && s != "" && ('a' <= s[0] <= 'z' || s[0] == '_')
            && (forall k | 0 <= k < |s| :: 'a' <= s[k] <= 'z' || '0' <= s[k] <= '9' || s[k] == '_')
            && !kw.quoted(s)
    ensures QuoteIdent(kw, s) != s ==> ReadQuoted('"', QuoteIdent(kw, s)) == Some((s, ""))
  {
    DoubleGrows('"', s);
    EncloseDelimitsItself('"', s, "");
    assert Enclose('"', s) + "" == Enclose('"', s);
  }

  lemma ReadQualifiedSteps(kw: Keywords, s: string, schema: string, tail: string, name: string, rest: string)
    requires ReadName(kw.reserved, s) == Some((schema, "." + tail))
    requires ReadName(NoWord(), tail) == Some((name, rest))
    ensures ReadQualified(kw, s) == Some((Some(schema), name, rest))
  {
    assert ("." + tail)[1..] == tail;
  }

  lemma ReadQualifiedUndoesQuoteQualified(kw: Keywords, schema: string, name: string, rest: string)
    requires schema != "" && name != "" && EndsName(rest)
    ensures ReadQualified(kw, QuoteQualified(kw, schema, name) + rest) ==
            Some((Some(StoredName(schema)), StoredName(name), rest))
  {
    var left, right := QuoteIdent(kw, schema), QuoteIdent(kw, name);
    assert left + "." + right + rest == left + ("." + (right + rest));
    ReadNameUndoesQuoteIdent(kw, kw.reserved, schema, "." + (right + rest));
    ReadNameUndoesQuoteIdent(kw, NoWord(), name, rest);
    ReadQualifiedSteps(kw, left + "." + right + rest, StoredName(schema), right + rest, StoredName(name), rest);
  }

  lemma SplitsAtDot(kw: Keywords, schema: string, name: string)
    requires schema != ""
    ensures ReadText(NoWord(), QuoteQualified(kw, schema, name)) == Some((schema, "." + QuoteIdent(kw, name)))
  {
    ReadTextUndoesQuoteIdent(kw, NoWord(), schema, "." + QuoteIdent(kw, name));
    assert QuoteQualified(kw, schema, name) == QuoteIdent(kw, schema) + ("." + QuoteIdent(kw, name));
  }

  /**
   Two pairs are written alike, even by sessions that quote different words, exactly when
   they are the same pair and both sessions leave the same of its names bare.
   */
  lemma WrittenAlikeIff(kw1: Keywords, s1: string, n1: string, kw2: Keywords, s2: string, n2: string)
    requires s1 != "" && n1 != "" && s2 != "" && n2 != ""
    ensures QuoteQualified(kw1, s1, n1) == QuoteQualified(kw2, s2, n2)
            <==> s1 == s2 && n1 == n2 && (Safe(kw1, s1) <==> Safe(kw2, s1)) && (Safe(kw1, n1) <==> Safe(kw2, n1))
  {
    if QuoteQualified(kw1, s1, n1) == QuoteQualified(kw2, s2, n2) {
      SplitsAtDot(kw1, s1, n1);
      SplitsAtDot(kw2, s2, n2);
      var t1, t2 := "." + QuoteIdent(kw1, n1), "." + QuoteIdent(kw2, n2);
      assert t1 == t2 && t1[1..] == QuoteIdent(kw1, n1) && t2[1..] == QuoteIdent(kw2, n2);
      ReadTextUndoesQuoteIdent(kw1, NoWord(), n1, "");
      ReadTextUndoesQuoteIdent(kw2, NoWord(), n2, "");
      assert QuoteIdent(kw1, n1) + "" == QuoteIdent(kw2, n2) + "";
      assert QuoteIdent(kw1, s1) == QuoteIdent(kw2, s2) by {
        assert QuoteIdent(kw1, s1) + t1 == QuoteIdent(kw2, s2) + t2;
        assert |QuoteIdent(kw1, s1)| == |QuoteIdent(kw2, s2)|;
        assert (QuoteIdent(kw1, s1) + t1)[..|QuoteIdent(kw1, s1)|] == QuoteIdent(kw1, s1);
        assert (QuoteIdent(kw2, s2) + t2)[..|QuoteIdent(kw2, s2)|] == QuoteIdent(kw2, s2);
      }
      QuotedOrBare(kw1, kw2, s1);
      QuotedOrBare(kw1, kw2, n1);
    }
  }

  lemma QuotedOrBare(kw1: Keywords, kw2: Keywords, s: string)
    requires QuoteIdent(kw1, s) == QuoteIdent(kw2, s)
    ensures Safe(kw1, s) <==> Safe(kw2, s)
  {
    assert Enclose('"', s)[0] == '"';
  }

  /** Two different (schema, name) pairs are never written alike. */
  lemma QuoteQualifiedInjective(kw: Keywords, s1: string, n1: string, s2: string, n2: string)
    requires s1 != "" && n1 != "" && s2 != "" && n2 != ""
    requires QuoteQualified(kw, s1, n1) == QuoteQualified(kw, s2, n2)
    ensures s1 == s2 && n1 == n2
  {
    WrittenAlikeIff(kw, s1, n1, kw, s2, n2);
  }

  // ------------------------------------------------------------------ truncation

  const MAX_NAME_BYTES: nat := 63

  function Utf8Width(c: char): (n: nat)
    ensures 1 <= n <= 4
  {
    if c as int < 0x80 then 1 else if c as int < 0x800 then 2 else if c as int < 0x1_0000 then 3 else 4
  }

  function Utf8Size(s: string): nat {
    if s == "" then 0 else Utf8Width(s[0]) + Utf8Size(s[1..])
  }

  /** The longest prefix that fits `room` bytes without splitting a character. */
  function Clip(s: string, room: nat): string {
    if s == "" || Utf8Width(s[0]) > room then "" else [s[0]] + Clip(s[1..], room - Utf8Width(s[0]))
  }

  /** The name under which CREATE TABLE stores `s`. */
  function StoredName(s: string): string { Clip(s, MAX_NAME_BYTES) }

  lemma {:induction false} ClipKeepsExactlyWhatFits(s: string, room: nat)
    ensures Clip(s, room) == s <==> Utf8Size(s) <= room
    ensures s != "" && room >= 4 ==> Clip(s, room) != ""
  {
    if s != "" {
      if Utf8Width(s[0]) <= room {
        ClipKeepsExactlyWhatFits(s[1..], room - Utf8Width(s[0]));
        assert s == [s[0]] + s[1..];
        assert Clip(s, room)[1..] == Clip(s[1..], room - Utf8Width(s[0]));
      }
    }
  }

  lemma {:induction false} ClipFits(s: string, room: nat)
    ensures Utf8Size(Clip(s, room)) <= room
    ensures Clip(s, room) <= s
  {
    if s != "" && Utf8Width(s[0]) <= room {
      var rest := Clip(s[1..], room - Utf8Width(s[0]));
      ClipFits(s[1..], room - Utf8Width(s[0]));
      assert ([s[0]] + rest)[1..] == rest;
      assert s == [s[0]] + s[1..];
    }
  }

  /** Values below this fit in `n` bytes of UTF-8: 7 bits, or 7 - n in the first and 6 in each further byte. */
  function Utf8Bound(n: nat): nat { if n <= 1 then 0x80 else 2 * Power32(n) }

  function Power32(n: nat): nat { if n == 0 then 1 else 32 * Power32(n - 1) }

  /** Every character takes the fewest bytes that can hold it (RFC 3629, section 3). */
  lemma Utf8WidthIsLeast(c: char, n: nat)
    requires 1 <= n <= 4
    ensures Utf8Width(c) <= n <==> c as int < Utf8Bound(n)
  {
    assert Power32(2) == 1024 && Power32(3) == 32768 && Power32(4) == 1048576;
  }

  /** The cut keeps the longest prefix of whole characters that fits. */
  lemma {:induction false} ClipIsTheLongestPrefix(s: string, room: nat, n: nat)
    requires n <= |s|
    ensures n <= |Clip(s, room)| <==> Utf8Size(s[..n]) <= room
  {
    if n > 0 {
      assert s[..n][0] == s[0] && s[..n][1..] == s[1..][..n - 1];
      if Utf8Width(s[0]) <= room {
        ClipIsTheLongestPrefix(s[1..], room - Utf8Width(s[0]), n - 1);
      }
    }
  }

  /** A name is stored as its longest prefix of at most 63 bytes. */
  lemma StoredNameIsTheLongestPrefix(s: string, n: nat)
    requires n <= |s|
    ensures StoredName(s) <= s
    ensures n <= |StoredName(s)| <==> Utf8Size(s[..n]) <= 63
  {
    ClipFits(s, MAX_NAME_BYTES);
    ClipIsTheLongestPrefix(s, MAX_NAME_BYTES, n);
  }

  /** Folding a name and cutting it can be done in either order. */
  lemma {:induction false} ClipFolds(s: string, room: nat)
    ensures Clip(FoldCase(s), room) == FoldCase(Clip(s, room))
  {
    if s != "" {
      var c, rest := LowerChar(s[0]), FoldCase(s[1..]);
      assert ([c] + rest)[1..] == rest;
      if Utf8Width(s[0]) <= room {
        ClipFolds(s[1..], room - Utf8Width(s[0]));
        var clipped := Clip(s[1..], room - Utf8Width(s[0]));
        assert ([s[0]] + clipped)[1..] == clipped;
      }
    }
  }

  /** `n` one-byte characters in front are kept when there is room for them. */
  lemma {:induction false} ClipKeepsAscii(s: string, n: nat, room: nat)
    requires n <= |s| && n <= room && forall k | 0 <= k < n :: s[k] as int < 0x80
    ensures |Clip(s, room)| >= n
    ensures n == room ==> Clip(s, room) == s[..n]
  {
    if n > 0 {
      ClipKeepsAscii(s[1..], n - 1, room - 1);
      assert s[..n] == [s[0]] + s[1..][..n - 1];
    } else if room == 0 {
      assert Clip(s, 0) == "" == s[..0];
    }
  }
}
