/**
 get_loopback_uri as text, and the reader of the connection URI: scheme, no user
 part, database path, then key=value parameters, all percent-decoded.
 */
module Loopback {
  import opened Basics
  import opened UriCodec

  // ----------------------------------------------------------------- decimal text

  function Digit(n: nat): char
    requires n < 10
  {
    (0x30 + n) as char
  }

  function Decimal(n: nat): string {
    if n < 10 then [Digit(n)] else Decimal(n / 10) + [Digit(n % 10)]
  }

  /** `{port}` for an i32. */
  function ShowInt(n: int): string {
    if n < 0 then "-" + Decimal(-n) else Decimal(n)
  }

  function ReadDecimal(s: string): Option<int> {
    if s == "" || !('0' <= s[|s| - 1] <= '9') then None
    else
      var last := s[|s| - 1] as int - 0x30;
      if |s| == 1 then Some(last)
      else
        match ReadDecimal(s[..|s| - 1])
        case None => None
        case Some(n) => Some(10 * n + last)
  }

  function ReadInt(s: string): Option<int> {
    if s != "" && s[0] == '-' then
      match ReadDecimal(s[1..]) case None => None case Some(n) => Some(-n)
    else
      ReadDecimal(s)
  }

  lemma {:induction false} DecimalReadsBack(n: nat)
    ensures ReadDecimal(Decimal(n)) == Some(n) && Decimal(n) != ""
  {
    if n >= 10 {
      DecimalReadsBack(n / 10);
      var s := Decimal(n);
      assert s[..|s| - 1] == Decimal(n / 10);
    }
  }

  lemma {:induction false} DecimalIsDigits(n: nat)
    ensures Decimal(n) != "" && forall c :: c in Decimal(n) ==> '0' <= c <= '9'
    ensures Decimal(n)[0] == '0' <==> n == 0
  {
    if n >= 10 {
      DecimalIsDigits(n / 10);
    }
  }

  /** The number comes back, and its text has no leading zero. */
  lemma ShowIntReadsBack(n: int)
    ensures ReadInt(ShowInt(n)) == Some(n)
    ensures ShowInt(0) == "0" && (n != 0 ==> ShowInt(n)[if n < 0 then 1 else 0] != '0')
  {
    var d := Decimal(if n < 0 then -n else n);
    DecimalReadsBack(if n < 0 then -n else n);
    DecimalIsDigits(if n < 0 then -n else n);
    assert ("-" + d)[1..] == d && d[0] in d;
  }

  lemma ShowIntIsPlain(n: int)
    ensures Plain(ShowInt(n)) && Numeral(ShowInt(n))
  {
    DecimalIsDigits(if n < 0 then -n else n);
    assert forall k | 0 <= k < |ShowInt(n)| :: ShowInt(n)[k] in ShowInt(n);
  }

  // ------------------------------------------------------------------- the printer

  datatype Target = Target(database: seq<Byte>, host: seq<Byte>, port: int, user: seq<Byte>)

  const SCHEME: string := "postgresql://"

  function LoopbackUri(t: Target): string {
    SCHEME + ("/" + (Encode(t.database) + ("?host=" + (Encode(t.host) + ("&port=" + (ShowInt(t.port) +
    ("&user=" + Encode(t.user))))))))
  }

  // -------------------------------------------------------------------- the reader

  /** Position of the first `c` in `s`, or its length. */
  function Until(s: string, c: char): (n: nat)
    ensures n <= |s|
  {
    if s == "" || s[0] == c then 0 else 1 + Until(s[1..], c)
  }

  /** `key=value`, the value percent-decoded. */
  function ReadPair(pair: string): Option<(string, seq<Byte>)> {
    var k := Until(pair, '=');
    if k == |pair| then None
    else
      match Decode(pair[k + 1..])
      case None => None
      case Some(value) => Some((pair[..k], value))
  }

  /** Pairs between ampersands. */
  function ReadPairs(s: string): Option<seq<(string, seq<Byte>)>>
    decreases |s|
  {
    var n := Until(s, '&');
    match ReadPair(s[..n])
    case None => None
    case Some(first) =>
      if n == |s| then Some([first])
      else
        match ReadPairs(s[n + 1..])
        case None => None
        case Some(more) => Some([first] + more)
  }

  datatype Uri = Uri(database: seq<Byte>, params: seq<(string, seq<Byte>)>)

  /** An '@' anywhere would open a user part, which these URIs do not have. */
  function ReadUri(s: string): Option<Uri> {
    if |s| < |SCHEME| || s[..|SCHEME|] != SCHEME || '@' in s then None
    else
      var rest := s[|SCHEME|..];
      if rest == "" || rest[0] != '/' then None
      else
        var path := rest[1..];
        var n := Until(path, '?');
        if n == |path| || Decode(path[..n]).None? then None
        else
          match ReadPairs(path[n + 1..])
          case None => None
          case Some(params) => Some(Uri(Decode(path[..n]).value, params))
  }

  lemma {:induction false} UntilSkips(a: string, c: char, rest: string)
    requires c !in a && (rest == "" || rest[0] == c)
    ensures Until(a + rest, c) == |a|
  {
    if a == "" {
      assert a + rest == rest;
    } else {
      assert (a + rest)[1..] == a[1..] + rest;
      UntilSkips(a[1..], c, rest);
    }
  }

  lemma PairReads(key: string, text: string)
    requires '=' !in key && Decode(text).Some?
    ensures ReadPair(key + ("=" + text)) == Some((key, Decode(text).value))
    ensures PairNormal(key + ("=" + text)) <==> Normal(text)
  {
    var pair := key + ("=" + text);
    UntilSkips(key, '=', "=" + text);
    assert pair[..|key|] == key && pair[|key| + 1..] == text;
  }

  lemma Cut(pair: string, rest: string)
    requires '&' !in pair
    ensures var s := pair + ("&" + rest);
            Until(s, '&') == |pair| && s[..|pair|] == pair && s[|pair| + 1..] == rest
  {
    UntilSkips(pair, '&', "&" + rest);
  }

  // ------------------------------------------------- what the reader reads, written back

  type Params = seq<(string, seq<Byte>)>

  function WritePair(p: (string, seq<Byte>)): string { p.0 + ("=" + Encode(p.1)) }

  function WritePairs(ps: Params): string
    requires ps != []
  {
    if |ps| == 1 then WritePair(ps[0]) else WritePair(ps[0]) + ("&" + WritePairs(ps[1..]))
  }

  /** The text of a URI with every value percent-encoded. */
  function Text(u: Uri): string
    requires u.params != []
  {
    SCHEME + ("/" + (Encode(u.database) + ("?" + WritePairs(u.params))))
  }

  predicate PlainKeys(ps: Params) {
    forall k | 0 <= k < |ps| :: '=' !in ps[k].0 && '&' !in ps[k].0 && '@' !in ps[k].0
  }

  /** The value is in normal form. */
  predicate PairNormal(pair: string) {
    var k := Until(pair, '=');
    k < |pair| && Normal(pair[k + 1..])
  }

  predicate PairsNormal(s: string)
    decreases |s|
  {
    var n := Until(s, '&');
    PairNormal(s[..n]) && (n == |s| || PairsNormal(s[n + 1..]))
  }

  /** Database and every value are in normal form. */
  predicate UriNormal(s: string)
    requires ReadUri(s).Some?
  {
    var path := s[|SCHEME|..][1..];
    var n := Until(path, '?');
    Normal(path[..n]) && PairsNormal(path[n + 1..])
  }

  lemma WrittenPair(p: (string, seq<Byte>))
    requires '=' !in p.0 && '&' !in p.0 && '@' !in p.0
    ensures '&' !in WritePair(p) && '@' !in WritePair(p)
    ensures ReadPair(WritePair(p)) == Some(p) && PairNormal(WritePair(p))
  {
    EncodedHasNoDelimiter(p.1, '&');
    EncodedHasNoDelimiter(p.1, '@');
    DecodeUndoesEncode(p.1);
    EncodeIsNormal(p.1);
    PairReads(p.0, Encode(p.1));
  }

  lemma LastPair(pair: string)
    requires '&' !in pair && ReadPair(pair).Some? && PairNormal(pair)
    ensures ReadPairs(pair) == Some([ReadPair(pair).value]) && PairsNormal(pair)
  {
    assert pair + "" == pair && pair[..|pair|] == pair;
    UntilSkips(pair, '&', "");
  }

  lemma PairThenPairs(pair: string, rest: string, first: (string, seq<Byte>), more: Params)
    requires '&' !in pair && ReadPair(pair) == Some(first) && ReadPairs(rest) == Some(more)
    ensures ReadPairs(pair + ("&" + rest)) == Some([first] + more)
  {
    Cut(pair, rest);
  }

  lemma NormalPairThenPairs(pair: string, rest: string)
    requires '&' !in pair && PairNormal(pair) && PairsNormal(rest)
    ensures PairsNormal(pair + ("&" + rest))
  {
    Cut(pair, rest);
  }

  lemma {:induction false} PairsReadBack(ps: Params)
    requires ps != [] && PlainKeys(ps)
    ensures ReadPairs(WritePairs(ps)) == Some(ps) && PairsNormal(WritePairs(ps)) && '@' !in WritePairs(ps)
  {
    WrittenPair(ps[0]);
    if |ps| == 1 {
      LastPair(WritePair(ps[0]));
      assert ps == [ps[0]];
    } else {
      PairsReadBack(ps[1..]);
      PairThenPairs(WritePair(ps[0]), WritePairs(ps[1..]), ps[0], ps[1..]);
      NormalPairThenPairs(WritePair(ps[0]), WritePairs(ps[1..]));
      assert ps == [ps[0]] + ps[1..];
    }
  }

  lemma UntilStops(s: string, c: char)
    ensures Until(s, c) < |s| ==> s == s[..Until(s, c)] + ([c] + s[Until(s, c) + 1..])
  {
  }

  lemma NormalPairRewrites(pair: string)
    requires ReadPair(pair).Some? && PairNormal(pair)
    ensures WritePair(ReadPair(pair).value) == pair
  {
    var k := Until(pair, '=');
    UntilStops(pair, '=');
    EncodeIsTheCanonicalText(pair[k + 1..]);
  }

  lemma WritePairsStep(first: (string, seq<Byte>), more: Params)
    requires more != []
    ensures WritePairs([first] + more) == WritePair(first) + ("&" + WritePairs(more))
  {
    assert ([first] + more)[1..] == more;
  }

  lemma {:induction false} NormalPairsRewrite(s: string)
    requires ReadPairs(s).Some? && PairsNormal(s)
    ensures ReadPairs(s).value != [] && WritePairs(ReadPairs(s).value) == s
    decreases |s|
  {
    var n := Until(s, '&');
    var pair := s[..n];
    NormalPairRewrites(pair);
    if n < |s| {
      var rest := s[n + 1..];
      UntilStops(s, '&');
      NormalPairsRewrite(rest);
      WritePairsStep(ReadPair(pair).value, ReadPairs(rest).value);
    } else {
      assert pair == s;
    }
  }

  lemma PathReads(database: seq<Byte>, params: string)
    ensures var db := Encode(database); var path := db + ("?" + params);
            Until(path, '?') == |db| && path[..|db|] == db && path[|db| + 1..] == params && Decode(db) == Some(database)
  {
    EncodedHasNoDelimiter(database, '?');
    UntilSkips(Encode(database), '?', "?" + params);
    DecodeUndoesEncode(database);
  }

  lemma NoUserPart(u: Uri)
    requires u.params != [] && PlainKeys(u.params)
    ensures '@' !in Text(u)
  {
    PairsReadBack(u.params);
    EncodedHasNoDelimiter(u.database, '@');
    var rest := Encode(u.database) + ("?" + WritePairs(u.params));
    assert '@' !in rest;
  }

  /** Every written URI is read back, and is in normal form. */
  lemma TextReadsBack(u: Uri)
    requires u.params != [] && PlainKeys(u.params)
    ensures ReadUri(Text(u)) == Some(u) && UriNormal(Text(u))
  {
    var s, params := Text(u), WritePairs(u.params);
    var path := Encode(u.database) + ("?" + params);
    PairsReadBack(u.params);
    PathReads(u.database, params);
    EncodeIsNormal(u.database);
    NoUserPart(u);
    assert s[..|SCHEME|] == SCHEME && s[|SCHEME|..] == "/" + path && ("/" + path)[1..] == path;
  }

  /** A readable URI in normal form is the text written for what it says. */
  lemma NormalUriRewrites(s: string)
    requires ReadUri(s).Some? && UriNormal(s)
    ensures ReadUri(s).value.params != [] && Text(ReadUri(s).value) == s
  {
    var rest := s[|SCHEME|..];
    var path := rest[1..];
    var n := Until(path, '?');
    UntilStops(path, '?');
    NormalPairsRewrite(path[n + 1..]);
    EncodeIsTheCanonicalText(path[..n]);
    assert s == SCHEME + rest && rest == "/" + path;
  }

  // --------------------------------------------------------------- the loopback URI

  /** No escape and no character outside ASCII. */
  predicate Plain(s: string) { forall k | 0 <= k < |s| :: s[k] as int < 128 && s[k] != '%' }

  function Ascii(s: string): seq<Byte> {
    if s == "" then [] else [s[0] as int % 256] + Ascii(s[1..])
  }

  lemma {:induction false} AsciiInjective(s: string, t: string)
    requires Plain(s) && Plain(t) && Ascii(s) == Ascii(t)
    ensures s == t
  {
    if s != "" && t != "" {
      assert Ascii(s)[0] == Ascii(t)[0] && Ascii(s)[1..] == Ascii(s[1..]) && Ascii(t)[1..] == Ascii(t[1..]);
      AsciiInjective(s[1..], t[1..]);
      assert s == [s[0]] + s[1..] && t == [t[0]] + t[1..];
    }
  }

  predicate Numeral(s: string) { forall k | 0 <= k < |s| :: '0' <= s[k] <= '9' || s[k] == '-' }

  lemma AsciiStep(c: char, rest: string)
    requires '0' <= c <= '9' || c == '-'
    ensures Ascii([c] + rest) == [c as int] + Ascii(rest)
    ensures Encode([c as int] + Ascii(rest)) == [c] + Encode(Ascii(rest))
  {
    assert ([c] + rest)[1..] == rest;
    assert ([c as int] + Ascii(rest))[1..] == Ascii(rest);
  }

  /** Digits and a sign are unreserved: encoding them changes nothing. */
  lemma {:induction false} EncodeOfDigits(s: string)
    requires Numeral(s)
    ensures Encode(Ascii(s)) == s
  {
    if s != "" {
      var c, rest := s[0], s[1..];
      EncodeOfDigits(rest);
      AsciiStep(c, rest);
      assert s == [c] + rest;
    }
  }

  /** The bytes of the decimal port number. */
  function PortBytes(port: int): seq<Byte> { Ascii(ShowInt(port)) }

  lemma PortReadsBack(a: int, b: int)
    requires PortBytes(a) == PortBytes(b)
    ensures a == b
  {
    ShowIntIsPlain(a);
    ShowIntIsPlain(b);
    AsciiInjective(ShowInt(a), ShowInt(b));
    ShowIntReadsBack(a);
    ShowIntReadsBack(b);
  }

  /** What a connection to `t` is asked for. */
  function Denotes(t: Target): Uri {
    Uri(t.database, [("host", t.host), ("port", PortBytes(t.port)), ("user", t.user)])
  }

  lemma DenotedParams(t: Target)
    ensures WritePairs(Denotes(t).params) ==
            "host" + ("=" + Encode(t.host)) +
            ("&" + ("port" + ("=" + ShowInt(t.port)) + ("&" + ("user" + ("=" + Encode(t.user))))))
  {
    ShowIntIsPlain(t.port);
    EncodeOfDigits(ShowInt(t.port));
    var ps := Denotes(t).params;
    assert ps[1..][0] == ps[1] && ps[1..][1..] == [ps[2]] && WritePairs([ps[2]]) == WritePair(ps[2]);
    assert WritePairs(ps[1..]) == WritePair(ps[1]) + ("&" + WritePair(ps[2]));
  }

  lemma LoopbackUriIsText(t: Target)
    ensures LoopbackUri(t) == Text(Denotes(t)) && PlainKeys(Denotes(t).params)
  {
    DenotedParams(t);
    PartsAssociate(Encode(t.host), ShowInt(t.port), Encode(t.user));
  }

  lemma PartsAssociate(host: string, port: string, user: string)
    ensures "?host=" + (host + ("&port=" + (port + ("&user=" + user)))) ==
            "?" + ("host" + ("=" + host) + ("&" + ("port" + ("=" + port) + ("&" + ("user" + ("=" + user))))))
  {
    assert "?host=" == "?" + ("host" + "=") && "&port=" == "&" + ("port" + "=") && "&user=" == "&" + ("user" + "=");
  }

  /** Splitting and percent-decoding the URI gives back database, host, port and user. */
  lemma LoopbackUriReadsBack(t: Target)
    ensures ReadUri(LoopbackUri(t)) ==
            Some(Uri(t.database, [("host", t.host), ("port", PortBytes(t.port)), ("user", t.user)]))
  {
    LoopbackUriIsText(t);
    TextReadsBack(Denotes(t));
  }

  /** Two loopback URIs are equal as text only when they denote the same target. */
  lemma EqualUrisEqualTargets(a: Target, b: Target)
    ensures LoopbackUri(a) == LoopbackUri(b) <==> a == b
  {
    LoopbackUriReadsBack(a);
    LoopbackUriReadsBack(b);
    if LoopbackUri(a) == LoopbackUri(b) {
      var p, q := Denotes(a).params, Denotes(b).params;
      assert p == q && p[0] == q[0] && p[1] == q[1] && p[2] == q[2];
      PortReadsBack(a.port, b.port);
    }
  }

  /**
   create_mooncake_table keeps its first connection only when the source URI, which its
   caller may have written, is the loopback URI as text: exactly when it denotes the
   loopback target and is in normal form. Any other spelling of it connects again.
   */
  lemma KeepsConnectionIff(t: Target, src: string)
    ensures src == LoopbackUri(t) <==> ReadUri(src) == Some(Denotes(t)) && UriNormal(src)
  {
    LoopbackUriIsText(t);
    TextReadsBack(Denotes(t));
    if ReadUri(src) == Some(Denotes(t)) && UriNormal(src) {
      NormalUriRewrites(src);
    }
  }

  lemma FormatAssociates(database: string, host: string, port: string, user: string)
    ensures "postgresql://" + ("/" + (database + ("?host=" + (host + ("&port=" + (port + ("&user=" + user))))))) ==
            "postgresql:///" + database + "?host=" + host + "&port=" + port + "&user=" + user
  {
    assert "postgresql://" + "/" == "postgresql:///";
    Reassociate("postgresql:///" + database, "?host=", host, "&port=" + (port + ("&user=" + user)));
    Reassociate("postgresql:///" + database + "?host=" + host, "&port=", port, "&user=" + user);
  }

  /** The text sent is the format string with the three encoded parts and the port in its holes. */
  lemma LoopbackUriText(t: Target)
    ensures LoopbackUri(t) == "postgresql:///" + Encode(t.database) + "?host=" + Encode(t.host) +
                              "&port=" + ShowInt(t.port) + "&user=" + Encode(t.user)
  {
    FormatAssociates(Encode(t.database), Encode(t.host), ShowInt(t.port), Encode(t.user));
  }
}
