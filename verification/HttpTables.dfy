/** Decimal numbers as `std::to_string` prints and `atoi` reads them. */
module Decimal {

  predicate IsDigit(c: char) { '0' <= c <= '9' }

  predicate IsSpace(c: char) { c == ' ' || '\t' <= c <= '\r' }

  function Digit(d: nat): (c: char)
    requires d < 10
    ensures IsDigit(c) && Value(c) == d
  {
    (48 + d) as char
  }

  function Value(c: char): nat
    requires IsDigit(c)
  {
    c as int - 48
  }

  function Digits(n: nat): (s: string)
    ensures |s| >= 1 && forall i :: 0 <= i < |s| ==> IsDigit(s[i])
  {
    if n < 10 then [Digit(n)] else Digits(n / 10) + [Digit(n % 10)]
  }

  function ToString(i: int): string {
    if i < 0 then "-" + Digits(-i) else Digits(i)
  }

  function ReadDigits(s: string, acc: nat): nat
    decreases s
  {
    if s == [] || !IsDigit(s[0]) then acc else ReadDigits(s[1..], acc * 10 + Value(s[0]))
  }

  /** White space, an optional sign, digits; whatever follows is ignored. */
  function Atoi(s: string): int
    decreases s
  {
    if s != [] && IsSpace(s[0]) then Atoi(s[1..])
    else if s != [] && s[0] == '-' then -(ReadDigits(s[1..], 0) as int)
    else if s != [] && s[0] == '+' then ReadDigits(s[1..], 0)
    else ReadDigits(s, 0)
  }

  lemma {:induction false} ReadDigitsSnoc(s: string, c: char, acc: nat)
    requires (forall i :: 0 <= i < |s| ==> IsDigit(s[i])) && IsDigit(c)
    ensures ReadDigits(s + [c], acc) == ReadDigits(s, acc) * 10 + Value(c)
    decreases s
  {
    if s == [] {
      assert (s + [c])[1..] == [];
    } else {
      assert (s + [c])[1..] == s[1..] + [c];
      ReadDigitsSnoc(s[1..], c, acc * 10 + Value(s[0]));
    }
  }

  lemma {:induction false} ReadDigitsOf(n: nat)
    ensures ReadDigits(Digits(n), 0) == n
  {
    if n < 10 {
      assert [Digit(n)][1..] == [];
    } else {
      ReadDigitsOf(n / 10);
      ReadDigitsSnoc(Digits(n / 10), Digit(n % 10), 0);
    }
  }

  /** `rest` does not go on with a number. */
  predicate Ends(rest: string) { rest == [] || !IsDigit(rest[0]) }

  lemma {:induction false} ReadDigitsStops(s: string, rest: string, acc: nat)
    requires (forall i :: 0 <= i < |s| ==> IsDigit(s[i])) && Ends(rest)
    ensures ReadDigits(s + rest, acc) == ReadDigits(s, acc)
    decreases s
  {
    if s == [] {
      assert s + rest == rest;
    } else {
      assert (s + rest)[1..] == s[1..] + rest;
      ReadDigitsStops(s[1..], rest, acc * 10 + Value(s[0]));
    }
  }

  lemma {:induction false} AtoiSkips(spaces: string, s: string)
    requires forall i :: 0 <= i < |spaces| ==> IsSpace(spaces[i])
    ensures Atoi(spaces + s) == Atoi(s)
    decreases spaces
  {
    if spaces == [] {
      assert spaces + s == s;
    } else {
      assert (spaces + s)[1..] == spaces[1..] + s;
      AtoiSkips(spaces[1..], s);
    }
  }

  lemma AtoiSigned(i: int, rest: string)
    requires Ends(rest)
    ensures Atoi(ToString(i) + rest) == i
    ensures i >= 0 ==> Atoi("+" + (Digits(i) + rest)) == i
  {
    var n := if i < 0 then -i else i;
    ReadDigitsOf(n);
    ReadDigitsStops(Digits(n), rest, 0);
    if i < 0 {
      assert ("-" + Digits(n) + rest)[1..] == Digits(n) + rest;
    } else {
      assert IsDigit((Digits(n) + rest)[0]);
      assert ("+" + (Digits(n) + rest))[1..] == Digits(n) + rest;
    }
  }

  /** Leading white space is skipped, a sign is heeded, and reading stops behind the digits. */
  lemma AtoiReads(spaces: string, i: int, rest: string)
    requires (forall k :: 0 <= k < |spaces| ==> IsSpace(spaces[k])) && Ends(rest)
    ensures Atoi(spaces + (ToString(i) + rest)) == i
    ensures i >= 0 ==> Atoi(spaces + ("+" + (Digits(i) + rest))) == i
  {
    AtoiSigned(i, rest);
    AtoiSkips(spaces, ToString(i) + rest);
    if i >= 0 { AtoiSkips(spaces, "+" + (Digits(i) + rest)); }
  }

  /** What is no number is read as 0. */
  lemma AtoiOfNone(spaces: string, rest: string)
    requires (forall k :: 0 <= k < |spaces| ==> IsSpace(spaces[k])) && Ends(rest)
    requires rest == [] || (!IsSpace(rest[0]) && rest[0] != '-' && rest[0] != '+')
    ensures Atoi(spaces + rest) == 0
  {
    AtoiSkips(spaces, rest);
  }

  /** What is printed is read back, for every integer. */
  lemma AtoiToString(i: int)
    ensures Atoi(ToString(i)) == i
  {
    AtoiSigned(i, "");
    assert ToString(i) + "" == ToString(i);
  }
}

/** The constant tables, as the lookups that the codec performs. */
module HttpTables {

  import opened Basics

  const CRLF := "\r\n"
  const CRLF_CRLF := "\r\n\r\n"

  const OK := 200
  const BAD_REQUEST := 400
  const METHOD_NOT_ALLOWED := 405
  const INCOMPLETE := -1

  const CONTENT_LENGTH := 3
  const ACCEPT_ENCODING := 5
  const CONNECTION := 7

  const GZIP := 0
  const IDENTITY := 4

  function MethodName(m: int): Option<string> {
    match m
    case 0 => Some("GET") case 1 => Some("HEAD") case 2 => Some("POST") case 3 => Some("PUT")
    case 4 => Some("DELETE") case 5 => Some("CONNECT") case 6 => Some("OPTIONS") case 7 => Some("TRACE")
    case 8 => Some("PATCH") case _ => None
  }

  function MethodOf(s: string): Option<int> {
    if s == "GET" then Some(0) else if s == "HEAD" then Some(1) else if s == "POST" then Some(2)
    else if s == "PUT" then Some(3) else if s == "DELETE" then Some(4) else if s == "CONNECT" then Some(5)
    else if s == "OPTIONS" then Some(6) else if s == "TRACE" then Some(7) else if s == "PATCH" then Some(8)
    else None
  }

  const FIELDS: nat := 8

  function FieldName(f: int): Option<string> {
    match f
    case 0 => Some("Accept") case 1 => Some("Content-Type") case 2 => Some("User-Agent")
    case 3 => Some("Content-Length") case 4 => Some("Content-Encoding") case 5 => Some("Accept-Encoding")
    case 6 => Some("Host") case 7 => Some("Connection") case _ => None
  }

  function FieldOf(s: string): Option<int> {
    if s == "Accept" then Some(0) else if s == "Content-Type" then Some(1) else if s == "User-Agent" then Some(2)
    else if s == "Content-Length" then Some(3) else if s == "Content-Encoding" then Some(4)
    else if s == "Accept-Encoding" then Some(5) else if s == "Host" then Some(6)
    else if s == "Connection" then Some(7) else None
  }

  function EncodingOf(s: string): Option<int> {
    if s == "gzip" then Some(0) else if s == "compress" then Some(1) else if s == "deflate" then Some(2)
    else if s == "br" then Some(3) else if s == "identity" then Some(4) else if s == "*" then Some(5)
    else None
  }

  predicate EncodingSupported(e: int) { e == IDENTITY || e == GZIP }

  /** The two method tables are inverse to one another. */
  lemma MethodTables(m: int, s: string)
    ensures MethodName(m) == Some(s) <==> MethodOf(s) == Some(m)
  {
  }

  /** The two header tables are inverse to one another. */
  lemma FieldTables(f: int, s: string)
    ensures FieldName(f) == Some(s) <==> FieldOf(s) == Some(f)
  {
  }

  /** The numbers that the codec itself uses, by their names. */
  lemma NamedNumbers()
    ensures FieldOf("Content-Length") == Some(CONTENT_LENGTH) && FieldOf("Accept-Encoding") == Some(ACCEPT_ENCODING)
    ensures FieldOf("Connection") == Some(CONNECTION)
    ensures EncodingOf("gzip") == Some(GZIP) && EncodingOf("identity") == Some(IDENTITY)
  {
  }

  lemma KnownFields(f: int)
    ensures FieldName(f).Some? <==> 0 <= f < FIELDS
  {
  }

  /** No colon, no space and no line break. */
  predicate Plain(s: string) {
    ':' !in s && ' ' !in s && '\r' !in s && '\n' !in s
  }

  lemma PlainMethods(m: int)
    ensures MethodName(m).Some? ==> Plain(MethodName(m).value)
  {
  }

  lemma PlainPairs(f: int)
    ensures (f == 0 || f == 1) ==> Plain(FieldName(f).value)
    ensures (f == 6 || f == 7) ==> Plain(FieldName(f).value)
  {
  }

  lemma PlainContents(f: int)
    ensures (f == 3 || f == 4) ==> Plain(FieldName(f).value)
  {
  }

  lemma PlainAgents(f: int)
    ensures (f == 2 || f == 5) ==> Plain(FieldName(f).value)
  {
  }

  lemma PlainFields(f: int)
    requires 0 <= f < FIELDS
    ensures Plain(FieldName(f).value)
  {
    PlainPairs(f);
    PlainContents(f);
    PlainAgents(f);
  }
}
