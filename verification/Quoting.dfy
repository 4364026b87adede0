/**
 Quoting by doubling, as SQL does it for string constants (section 4.1.2.1 of the
 PostgreSQL manual, standard_conforming_strings on) and for delimited identifiers
 (section 4.1.1), with the reader that undoes it.
 */
module Quoting {
  import opened Basics

  /** Writes every `q` of `s` twice. */
  function Double(q: char, s: string): string {
    if s == "" then ""
    else (if s[0] == q then [q, q] else [s[0]]) + Double(q, s[1..])
  }

  function Enclose(q: char, s: string): string {
    [q] + Double(q, s) + [q]
  }

  /** Reads up to the first lone `q`, folding pairs; returns the value and what follows. */
  function ReadBody(q: char, s: string): Option<(string, string)> {
    if s == "" then None
    else if s[0] != q then
      match ReadBody(q, s[1..])
      case None => None
      case Some(r) => Some(([s[0]] + r.0, r.1))
    else if |s| > 1 && s[1] == q then
      match ReadBody(q, s[2..])
      case None => None
      case Some(r) => Some(([q] + r.0, r.1))
    else Some(("", s[1..]))
  }

  /** The lexer's view of a quoted token at the front of `s`. */
  function ReadQuoted(q: char, s: string): Option<(string, string)> {
    if s != "" && s[0] == q then ReadBody(q, s[1..]) else None
  }

  lemma {:induction false} ReadBodyConsumes(q: char, s: string)
    ensures ReadBody(q, s).Some? ==>
              var r := ReadBody(q, s).value;
              |r.0| + |r.1| < |s| && r.1 == s[|s| - |r.1|..] && NotBefore(q, r.1)
  {
    if s == "" {
    } else if s[0] != q {
      ReadBodyConsumes(q, s[1..]);
    } else if |s| > 1 && s[1] == q {
      ReadBodyConsumes(q, s[2..]);
    }
  }

  lemma ReadBodySteps(q: char, c: char, tail: string)
    ensures c != q ==> ReadBody(q, [c] + tail) ==
                       match ReadBody(q, tail) case None => None case Some(r) => Some(([c] + r.0, r.1))
    ensures ReadBody(q, [q, q] + tail) ==
            match ReadBody(q, tail) case None => None case Some(r) => Some(([q] + r.0, r.1))
  {
    assert ([c] + tail)[1..] == tail;
    assert ([q, q] + tail)[2..] == tail;
  }

  lemma DoubleSteps(q: char, s: string, rest: string)
    requires s != ""
    ensures Double(q, s) + [q] + rest ==
            (if s[0] == q then [q, q] else [s[0]]) + (Double(q, s[1..]) + [q] + rest)
  {
  }

  lemma {:induction false} ReadBodyUndoesDouble(q: char, s: string, rest: string)
    requires NotBefore(q, rest)
    ensures ReadBody(q, Double(q, s) + [q] + rest) == Some((s, rest))
  {
    if s == "" {
      assert Double(q, s) + [q] + rest == [q] + rest;
    } else {
      ReadBodyUndoesDouble(q, s[1..], rest);
      DoubleSteps(q, s, rest);
      ReadBodySteps(q, s[0], Double(q, s[1..]) + [q] + rest);
      assert [s[0]] + s[1..] == s;
    }
  }

  /** A `q` right after the closing quote is taken into the value. */
  lemma {:induction false} ReadBodyRunsOn(q: char, s: string, rest: string)
    requires !NotBefore(q, rest)
    ensures var r := ReadBody(q, Double(q, s) + [q] + rest);
            r.Some? ==> |r.value.0| > |s|
  {
    if s == "" {
      ReadBodySteps(q, q, rest[1..]);
      assert Double(q, s) + [q] + rest == [q, q] + rest[1..];
    } else {
      ReadBodyRunsOn(q, s[1..], rest);
      DoubleSteps(q, s, rest);
      ReadBodySteps(q, s[0], Double(q, s[1..]) + [q] + rest);
    }
  }

  /** A quoted token delimits itself exactly when no further `q` follows it. */
  lemma EncloseDelimitsItself(q: char, s: string, rest: string)
    ensures ReadQuoted(q, Enclose(q, s) + rest) == Some((s, rest)) <==> NotBefore(q, rest)
  {
    assert (Enclose(q, s) + rest)[1..] == Double(q, s) + [q] + rest;
    if NotBefore(q, rest) {
      ReadBodyUndoesDouble(q, s, rest);
    } else {
      ReadBodyRunsOn(q, s, rest);
    }
  }

  lemma {:induction false} DoubleAppend(q: char, s: string, t: string)
    ensures Double(q, s + t) == Double(q, s) + Double(q, t)
  {
    if s == "" {
      assert s + t == t;
    } else {
      assert (s + t)[1..] == s[1..] + t;
      DoubleAppend(q, s[1..], t);
    }
  }

  lemma {:induction false} DoubleGrows(q: char, v: string)
    ensures |Double(q, v)| >= |v|
  {
    if v != "" {
      DoubleGrows(q, v[1..]);
    }
  }

  // ------------------------------------------------------------ string constants

  /** The loop of quote_string_literal: pushes each character, and a quote twice. */
  method QuoteStringLiteral(s: string) returns (out: string)
    ensures out == Enclose('\'', s)
    ensures ReadQuoted('\'', out) == Some((s, ""))
  {
    out := "'";
    for i := 0 to |s|
      invariant out == "'" + Double('\'', s[..i])
    {
      assert s[..i + 1] == s[..i] + [s[i]];
      DoubleAppend('\'', s[..i], [s[i]]);
      assert Double('\'', [s[i]]) == if s[i] == '\'' then "''" else [s[i]];
      if s[i] == '\'' {
        out := out + "'";
      }
      out := out + [s[i]];
    }
    assert s[..|s|] == s;
    out := out + "'";
    EncloseDelimitsItself('\'', s, "");
    assert out + "" == out;
  }

  predicate StartsWith(s: string, prefix: string) {
    |prefix| <= |s| && s[..|prefix|] == prefix
  }

  /** str::replace: leftmost, non-overlapping occurrences of a non-empty pattern. */
  function Replace(s: string, pattern: string, with: string): string
    requires pattern != ""
  {
    if s == "" then ""
    else if StartsWith(s, pattern) then with + Replace(s[|pattern|..], pattern, with)
    else [s[0]] + Replace(s[1..], pattern, with)
  }

  lemma {:induction false} ReplaceIsDouble(s: string)
    ensures Replace(s, "'", "''") == Double('\'', s)
  {
    if s != "" {
      ReplaceIsDouble(s[1..]);
      assert s[..1] == [s[0]];
    }
  }

  /** The other encoder, `'{}'` around replace("'", "''"), writes the same literal. */
  lemma ReplaceWritesTheSameLiteral(s: string)
    ensures "'" + Replace(s, "'", "''") + "'" == Enclose('\'', s)
  {
    ReplaceIsDouble(s);
  }

  // ------------------------------------------------- literals inside query text

  /**
   Splits query text into what stands outside string constants (each constant
   leaving one quote behind as a mark) and the values of the constants, in order.
   */
  function Skeleton(q: string): (r: Option<(string, seq<string>)>)
    decreases |q|
  {
    if q == "" then Some(("", []))
    else if q[0] == '\'' then
      ReadBodyConsumes('\'', q[1..]);
      match ReadBody('\'', q[1..])
      case None => None
      case Some(lit) =>
        match Skeleton(lit.1)
        case None => None
        case Some(r) => Some(("'" + r.0, [lit.0] + r.1))
    else
      match Skeleton(q[1..])
      case None => None
      case Some(r) => Some(([q[0]] + r.0, r.1))
  }

  lemma {:induction false} SkeletonText(p: string, rest: string)
    requires '\'' !in p
    requires Skeleton(rest).Some?
    ensures Skeleton(p + rest) == Some((p + Skeleton(rest).value.0, Skeleton(rest).value.1))
  {
    if p == "" {
      assert p + rest == rest;
      assert p + Skeleton(rest).value.0 == Skeleton(rest).value.0;
    } else {
      SkeletonText(p[1..], rest);
      assert (p + rest)[1..] == p[1..] + rest;
      assert [p[0]] + (p[1..] + Skeleton(rest).value.0) == p + Skeleton(rest).value.0;
    }
  }

  lemma SkeletonPlain(p: string)
    requires '\'' !in p
    ensures Skeleton(p) == Some((p, []))
  {
    SkeletonText(p, "");
    assert p + "" == p;
  }

  lemma SkeletonLiteral(x: string, rest: string)
    requires NotBefore('\'', rest) && Skeleton(rest).Some?
    ensures Skeleton(Enclose('\'', x) + rest) ==
            Some(("'" + Skeleton(rest).value.0, [x] + Skeleton(rest).value.1))
  {
    EncloseDelimitsItself('\'', x, rest);
  }

  /** The statement drop_orphan_slots sends for one slot. */
  function DropSlotQuery(slot: string): string {
    "SELECT pg_drop_replication_slot(" + Enclose('\'', slot) + ")"
  }

  /** Whatever the slot is called, the statement has one shape and one constant, the name. */
  lemma DropSlotQueryCarriesTheName(slot: string)
    ensures Skeleton(DropSlotQuery(slot)) ==
            Some(("SELECT pg_drop_replication_slot(')", [slot]))
  {
    var tail := Enclose('\'', slot) + ")";
    SkeletonPlain(")");
    SkeletonLiteral(slot, ")");
    SkeletonText("SELECT pg_drop_replication_slot(", tail);
    assert DropSlotQuery(slot) == "SELECT pg_drop_replication_slot(" + tail;
    assert "'" + ")" == "')" && [slot] + [] == [slot];
    assert "SELECT pg_drop_replication_slot(" + "')" == "SELECT pg_drop_replication_slot(')";
  }
}
