/** The RESP2 codec of the Redis client: a command printer and a recursive reply reader over a byte stream.
    Framing follows the Redis serialization protocol specification, sections "Bulk strings" and "Arrays". */
module Resp {
  import opened Wrappers

  type byte = x: int | 0 <= x < 256
  type bytes = seq<byte>

  const CR: byte := 13
  const LF: byte := 10
  const PLUS: byte := 43
  const MINUS: byte := 45
  const COLON: byte := 58
  const DOLLAR: byte := 36
  const STAR: byte := 42
  const CRLF: bytes := [CR, LF]
  const MAX_INT := 0x7fff_ffff_ffff_ffff
  const MIN_INT := -0x8000_0000_0000_0000
  const MAX_BULK: nat := MAX_INT - 2

  /** A decoded reply; the client reports an `Error` value together with an error of its own kind. */
  datatype Value =
    | Simple(str: bytes)
    | Error(str: bytes)
    | Integer(n: int)
    | Bulk(str: bytes)
    | NullBulk
    | Array(items: seq<Value>)
    | NullArray

  /** `LengthOverflow` is a panic: the buffer for a bulk string needs two bytes more than its announced length, and the
      sum is a negative number of 64 bits. */
  datatype Failure =
    | EndOfInput
    | EmptyLine
    | BadInteger(text: bytes)
    | BadBulkLength(text: bytes)
    | BadArrayLength(text: bytes)
    | LengthOverflow
    | UnknownType(kind: byte)

  // ---- numbers ----

  predicate IsDigit(b: byte) { 48 <= b <= 57 }

  function Decimal(n: nat): bytes {
    if n < 10 then [48 + n] else Decimal(n / 10) + [48 + n % 10]
  }

  predicate DigitsOnly(s: bytes) { forall i :: 0 <= i < |s| ==> IsDigit(s[i]) }

  function Digits(s: bytes): nat
    requires DigitsOnly(s)
  {
    if s == [] then 0 else assert IsDigit(s[|s| - 1]); 10 * Digits(s[..|s| - 1]) + (s[|s| - 1] as int - 48)
  }

  function PrintInt(n: int): bytes { if n < 0 then [MINUS] + Decimal(-n) else Decimal(n) }

  /** Optional sign, at least one digit, nothing else, and the value fits in 64 bits. */
  function ParseInt(s: bytes): Option<int> {
    var signed := s != [] && (s[0] == PLUS || s[0] == MINUS);
    var digits := if signed then s[1..] else s;
    if digits == [] || !DigitsOnly(digits) then None
    else
      var n: int := if s[0] == MINUS then 0 - Digits(digits) else Digits(digits);
      if MIN_INT <= n <= MAX_INT then Some(n) else None
  }

  // ---- lines ----

  /** Index of the first line feed, or the length if there is none. */
  function LineEnd(s: bytes): (i: nat)
    ensures i <= |s|
    ensures LF !in s[..i]
    ensures i < |s| ==> s[i] == LF
  {
    if s == [] || s[0] == LF then 0 else 1 + LineEnd(s[1..])
  }

  function TrimRight(s: bytes): (r: bytes)
    ensures |r| <= |s|
  {
    if s != [] && (s[|s| - 1] == CR || s[|s| - 1] == LF) then TrimRight(s[..|s| - 1]) else s
  }

  // ---- the reader as a function: outcome and unread bytes ----

  function ParseLine(s: bytes): (r: (Result<bytes, Failure>, bytes))
    ensures r.0.Success? ==> |r.1| < |s|
    ensures |r.1| <= |s|
  {
    var i := LineEnd(s);
    if i == |s| then (Failure(EndOfInput), []) else (Success(TrimRight(s[..i + 1])), s[i + 1..])
  }

  function ParseBytes(s: bytes, n: nat): (r: (Result<bytes, Failure>, bytes))
    ensures |r.1| <= |s|
  {
    if n <= |s| then (Success(s[..n]), s[n..]) else (Failure(EndOfInput), [])
  }

  function ParseReply(s: bytes): (r: (Result<Value, Failure>, bytes))
    ensures |r.1| <= |s|
    ensures r.0.Success? ==> |r.1| < |s|
    decreases |s|, 0
  {
    var (read, rest) := ParseLine(s);
    match read
    case Failure(f) => (Failure(f), rest)
    case Success(line) =>
      if line == [] then (Failure(EmptyLine), rest)
      else
        var text := line[1..];
        if line[0] == PLUS then (Success(Simple(text)), rest)
        else if line[0] == MINUS then (Success(Error(text)), rest)
        else if line[0] == COLON then
          (match ParseInt(text) case None => Failure(BadInteger(text)) case Some(n) => Success(Integer(n)), rest)
        else if line[0] == DOLLAR then ParseBulk(text, rest)
        else if line[0] == STAR then
          match ParseInt(text)
          case None => (Failure(BadArrayLength(text)), rest)
          case Some(count) =>
            if count < 0 then (Success(NullArray), rest)
            else
              var (items, left) := ParseItems(count, rest);
              (match items case Failure(f) => Failure(f) case Success(vs) => Success(Array(vs)), left)
        else (Failure(UnknownType(line[0])), rest)
  }

  /** The two bytes after the payload are consumed without looking at them. */
  function ParseBulk(text: bytes, rest: bytes): (r: (Result<Value, Failure>, bytes))
    ensures |r.1| <= |rest|
  {
    match ParseInt(text)
    case None => (Failure(BadBulkLength(text)), rest)
    case Some(size) =>
      if size < 0 then (Success(NullBulk), rest)
      else if size > MAX_BULK then (Failure(LengthOverflow), rest)
      else
        var (payload, left) := ParseBytes(rest, size + 2);
        (match payload case Failure(f) => Failure(f) case Success(buf) => Success(Bulk(buf[..size])), left)
  }

  function ParseItems(count: nat, s: bytes): (r: (Result<seq<Value>, Failure>, bytes))
    ensures |r.1| <= |s|
    ensures r.0.Success? ==> |r.0.value| == count
    decreases |s|, 1
  {
    if count == 0 then (Success([]), s)
    else
      var (item, rest) := ParseReply(s);
      match item
      case Failure(f) => (Failure(f), rest)
      case Success(v) =>
        var (items, left) := ParseItems(count - 1, rest);
        (match items case Failure(f) => Failure(f) case Success(vs) => Success([v] + vs), left)
  }

  // ---- the printers ----

  function EncodeArgs(args: seq<bytes>): bytes {
    if args == [] then []
    else EncodeArgs(args[..|args| - 1]) + Print(Bulk(args[|args| - 1]))
  }

  function EncodeCommandBytes(args: seq<bytes>): bytes { [STAR] + Decimal(|args|) + CRLF + EncodeArgs(args) }

  method EncodeCommand(args: seq<bytes>) returns (b: bytes)
    ensures b == EncodeCommandBytes(args)
  {
    b := [STAR] + Decimal(|args|) + CRLF;
    ghost var head := b;
    for i := 0 to |args|
      invariant b == head + EncodeArgs(args[..i])
    {
      assert args[..i + 1][..i] == args[..i];
      b := b + ([DOLLAR] + Decimal(|args[i]|) + CRLF + args[i] + CRLF);
    }
    assert args[..|args|] == args;
  }

  /** What a server sends for a value. */
  function Print(v: Value): bytes
    decreases v, 1, 0
  {
    match v
    case Simple(str) => [PLUS] + str + CRLF
    case Error(str) => [MINUS] + str + CRLF
    case Integer(n) => [COLON] + PrintInt(n) + CRLF
    case Bulk(str) => [DOLLAR] + Decimal(|str|) + CRLF + str + CRLF
    case NullBulk => [DOLLAR] + PrintInt(-1) + CRLF
    case NullArray => [STAR] + PrintInt(-1) + CRLF
    case Array(items) => [STAR] + Decimal(|items|) + CRLF + PrintAll(items)
  }

  function PrintAll(vs: seq<Value>): bytes
    decreases vs, 0, |vs|
  {
    if vs == [] then [] else Print(vs[0]) + PrintAll(vs[1..])
  }

  // ---- the reader as a stateful object ----

  /** A buffered connection, reduced to the bytes not yet read. */
  class Reader {
    var data: bytes

    constructor (data: bytes)
      ensures this.data == data
    {
      this.data := data;
    }

    method ReadLine() returns (r: Result<bytes, Failure>)
      modifies this
      ensures (r, data) == ParseLine(old(data))
    {
      var i := LineEnd(data);
      if i == |data| {
        data := [];
        return Failure(EndOfInput);
      }
      r := Success(TrimRight(data[..i + 1]));
      data := data[i + 1..];
    }

    /** Fills a buffer of `n` bytes from reads that each deliver some part of what is there. */
    method ReadFull(n: nat) returns (r: Result<bytes, Failure>)
      modifies this
      ensures (r, data) == ParseBytes(old(data), n)
    {
      var buf: bytes := [];
      while |buf| < n
        invariant |buf| <= n && buf + data == old(data)
        decreases n - |buf|
      {
        if data == [] {
          return Failure(EndOfInput);
        }
        var k :| 0 < k <= |data| && k <= n - |buf|;
        Moved(buf, data, k);
        buf := buf + data[..k];
        data := data[k..];
      }
      Parted(buf, data);
      r := Success(buf);
    }

    method ReadReply() returns (r: Result<Value, Failure>)
      modifies this
      ensures (r, data) == ParseReply(old(data))
      decreases |data|, 0
    {
      var read := ReadLine();
      if read.Failure? {
        return Failure(read.error);
      }
      var line := read.value;
      if line == [] {
        return Failure(EmptyLine);
      }
      var text := line[1..];
      if line[0] == PLUS {
        r := Success(Simple(text));
      } else if line[0] == MINUS {
        r := Success(Error(text));
      } else if line[0] == COLON {
        var n := ParseInt(text);
        r := if n.None? then Failure(BadInteger(text)) else Success(Integer(n.value));
      } else if line[0] == DOLLAR {
        var size := ParseInt(text);
        if size.None? {
          return Failure(BadBulkLength(text));
        }
        if size.value < 0 {
          return Success(NullBulk);
        }
        if size.value > MAX_BULK {
          return Failure(LengthOverflow);
        }
        var buf := ReadFull(size.value + 2);
        r := if buf.Failure? then Failure(buf.error) else Success(Bulk(buf.value[..size.value]));
      } else if line[0] == STAR {
        var count := ParseInt(text);
        if count.None? {
          return Failure(BadArrayLength(text));
        }
        if count.value < 0 {
          return Success(NullArray);
        }
        var items := ReadItems(count.value);
        r := if items.Failure? then Failure(items.error) else Success(Array(items.value));
      } else {
        r := Failure(UnknownType(line[0]));
      }
    }

    method ReadItems(count: nat) returns (r: Result<seq<Value>, Failure>)
      modifies this
      ensures (r, data) == ParseItems(count, old(data))
      decreases |data|, 1
    {
      var items: seq<Value> := [];
      PrependNothing(ParseItems(count, data));
      for i := 0 to count
        invariant |items| == i && |data| <= |old(data)|
        invariant ParseItems(count, old(data)) == Prepend(items, ParseItems(count - i, data))
      {
        ghost var before := data;
        var item := ReadReply();
        if item.Failure? {
          return Failure(item.error);
        }
        PrependOne(items, item.value, ParseItems(count - i - 1, data));
        items := items + [item.value];
      }
      assert items + [] == items;
      r := Success(items);
    }
  }

  lemma Moved(buf: bytes, data: bytes, k: nat)
    requires k <= |data|
    ensures buf + data[..k] + data[k..] == buf + data
  {
  }

  lemma Parted(buf: bytes, data: bytes)
    ensures (buf + data)[..|buf|] == buf && (buf + data)[|buf|..] == data
  {
  }

  ghost function Prepend(vs: seq<Value>, parsed: (Result<seq<Value>, Failure>, bytes))
    : (Result<seq<Value>, Failure>, bytes)
  {
    if parsed.0.Success? then (Success(vs + parsed.0.value), parsed.1) else parsed
  }

  lemma PrependNothing(parsed: (Result<seq<Value>, Failure>, bytes))
    ensures Prepend([], parsed) == parsed
  {
    if parsed.0.Success? {
      assert [] + parsed.0.value == parsed.0.value;
    }
  }

  lemma PrependOne(vs: seq<Value>, v: Value, parsed: (Result<seq<Value>, Failure>, bytes))
    ensures Prepend(vs, Prepend([v], parsed)) == Prepend(vs + [v], parsed)
  {
    if parsed.0.Success? {
      assert vs + ([v] + parsed.0.value) == vs + [v] + parsed.0.value;
    }
  }

  // ---- round trips ----

  lemma {:induction false} DecimalDigits(n: nat)
    ensures Decimal(n) != [] && forall i :: 0 <= i < |Decimal(n)| ==> IsDigit(Decimal(n)[i])
    ensures Digits(Decimal(n)) == n
  {
    if n >= 10 {
      DecimalDigits(n / 10);
      assert Decimal(n)[..|Decimal(n)| - 1] == Decimal(n / 10);
    } else {
      assert Decimal(n)[..0] == [];
    }
  }

  lemma NaturalRoundTrip(n: nat)
    requires n <= MAX_INT
    ensures ParseInt(Decimal(n)) == Some(n)
    ensures LF !in Decimal(n) && CR !in Decimal(n) && Decimal(n) != []
  {
    DecimalDigits(n);
    assert IsDigit(Decimal(n)[0]);
  }

  lemma NegativeRoundTrip(n: nat)
    requires n <= -MIN_INT
    ensures ParseInt([MINUS] + Decimal(n)) == Some(0 - n)
    ensures LF !in [MINUS] + Decimal(n) && CR !in [MINUS] + Decimal(n)
  {
    DecimalDigits(n);
    assert ([MINUS] + Decimal(n))[1..] == Decimal(n);
  }

  lemma IntRoundTrip(n: int)
    requires MIN_INT <= n <= MAX_INT
    ensures ParseInt(PrintInt(n)) == Some(n)
    ensures LF !in PrintInt(n) && CR !in PrintInt(n) && PrintInt(n) != []
  {
    if n < 0 {
      NegativeRoundTrip(-n);
    } else {
      NaturalRoundTrip(n);
    }
  }

  lemma {:induction false} LineEndAt(s: bytes, i: nat)
    requires i < |s| && LF !in s[..i] && s[i] == LF
    ensures LineEnd(s) == i
  {
    if i > 0 {
      assert s[0] == s[..i][0];
      assert s[1..][..i - 1] == s[..i][1..];
      LineEndAt(s[1..], i - 1);
    }
  }

  /** A line that the reader gives back as it was sent. */
  predicate CleanLine(line: bytes) { LF !in line && (line != [] ==> line[|line| - 1] != CR) }

  lemma LineRoundTrip(line: bytes, tail: bytes)
    requires CleanLine(line)
    ensures ParseLine(line + CRLF + tail) == (Success(line), tail)
  {
    var s := line + CRLF + tail;
    var i := |line| + 1;
    assert s[..i] == line + [CR];
    LineEndAt(s, i);
    var cut := s[..i + 1];
    assert cut == line + CRLF && cut[..|cut| - 1] == line + [CR];
    assert (line + [CR])[..|line|] == line;
    assert TrimRight(line) == line by {
      if line != [] {
        assert line[|line| - 1] in line;
      }
    }
    assert TrimRight(line + [CR]) == line && TrimRight(cut) == line;
    assert s[i + 1..] == tail;
  }

  predicate WellFormed(v: Value) {
    match v
    case Simple(str) => CleanLine(str)
    case Error(str) => CleanLine(str)
    case Integer(n) => MIN_INT <= n <= MAX_INT
    case Bulk(str) => |str| <= MAX_BULK
    case Array(items) => |items| <= MAX_INT && forall i :: 0 <= i < |items| ==> WellFormed(items[i])
    case _ => true
  }

  /** Reading `head` as a line, for a printed form that starts with kind byte and text. */
  lemma HeaderRoundTrip(kind: byte, text: bytes, tail: bytes)
    requires LF !in text && (text != [] ==> text[|text| - 1] != CR) && kind != LF && kind != CR
    ensures ParseLine([kind] + text + CRLF + tail) == (Success([kind] + text), tail)
    ensures ([kind] + text)[1..] == text
  {
    LineRoundTrip([kind] + text, tail);
  }

  lemma BulkRoundTrip(str: bytes, tail: bytes)
    requires |str| <= MAX_BULK
    ensures ParseReply(Print(Bulk(str)) + tail) == (Success(Bulk(str)), tail)
  {
    IntRoundTrip(|str|);
    var body := str + CRLF + tail;
    HeaderRoundTrip(DOLLAR, Decimal(|str|), body);
    assert Print(Bulk(str)) + tail == [DOLLAR] + Decimal(|str|) + CRLF + body;
    assert body[..|str| + 2] == str + CRLF && body[|str| + 2..] == tail;
    assert (str + CRLF)[..|str|] == str;
  }

  /** Of the lengths a header can announce exactly the two largest overflow, whatever follows. */
  lemma OverflowIff(n: nat, tail: bytes)
    requires n <= MAX_INT
    ensures ParseReply([DOLLAR] + Decimal(n) + CRLF + tail).0 == Failure(LengthOverflow) <==> n > MAX_BULK
  {
    IntRoundTrip(n);
    HeaderRoundTrip(DOLLAR, Decimal(n), tail);
  }

  lemma ArrayHeader(count: nat, body: bytes)
    requires count <= MAX_INT && ParseItems(count, body).0.Success?
    ensures ParseReply([STAR] + Decimal(count) + CRLF + body)
         == (Success(Array(ParseItems(count, body).0.value)), ParseItems(count, body).1)
  {
    IntRoundTrip(count);
    HeaderRoundTrip(STAR, Decimal(count), body);
  }

  lemma Regroup(a: bytes, b: bytes, c: bytes)
    ensures a + b + c == a + (b + c)
  {
  }

  /** Framing: the reader takes exactly the bytes of one value, bulk payloads of any bytes, errors inside
      arrays and nested arrays included, and leaves exactly the bytes that follow. */
  lemma {:induction false} ReplyRoundTrip(v: Value, tail: bytes)
    requires WellFormed(v)
    ensures ParseReply(Print(v) + tail) == (Success(v), tail)
    decreases v, 1, 0
  {
    match v {
      case Simple(str) => HeaderRoundTrip(PLUS, str, tail);
      case Error(str) => HeaderRoundTrip(MINUS, str, tail);
      case Integer(n) => IntegerRoundTrip(n, tail);
      case Bulk(str) => BulkRoundTrip(str, tail);
      case NullBulk => NullRoundTrip(tail);
      case NullArray => NullRoundTrip(tail);
      case Array(items) =>
        ItemsRoundTrip(items, tail);
        ArrayRoundTrip(items, tail);
    }
  }

  lemma IntegerRoundTrip(n: int, tail: bytes)
    requires MIN_INT <= n <= MAX_INT
    ensures ParseReply(Print(Integer(n)) + tail) == (Success(Integer(n)), tail)
  {
    IntRoundTrip(n);
    HeaderRoundTrip(COLON, PrintInt(n), tail);
  }

  lemma NullRoundTrip(tail: bytes)
    ensures ParseReply(Print(NullBulk) + tail) == (Success(NullBulk), tail)
    ensures ParseReply(Print(NullArray) + tail) == (Success(NullArray), tail)
  {
    IntRoundTrip(-1);
    HeaderRoundTrip(DOLLAR, PrintInt(-1), tail);
    HeaderRoundTrip(STAR, PrintInt(-1), tail);
  }

  lemma PrintedArray(items: seq<Value>)
    ensures Print(Array(items)) == [STAR] + Decimal(|items|) + CRLF + PrintAll(items)
  {
  }

  lemma ArrayRoundTrip(items: seq<Value>, tail: bytes)
    requires |items| <= MAX_INT && ParseItems(|items|, PrintAll(items) + tail) == (Success(items), tail)
    ensures ParseReply(Print(Array(items)) + tail) == (Success(Array(items)), tail)
  {
    var head, body := [STAR] + Decimal(|items|) + CRLF, PrintAll(items);
    ArrayHeader(|items|, body + tail);
    PrintedArray(items);
    Regroup(head, body, tail);
  }

  lemma {:induction false} ItemsRoundTrip(vs: seq<Value>, tail: bytes)
    requires forall i :: 0 <= i < |vs| ==> WellFormed(vs[i])
    ensures ParseItems(|vs|, PrintAll(vs) + tail) == (Success(vs), tail)
    decreases vs, 0, |vs|
  {
    if vs == [] {
      assert PrintAll(vs) + tail == tail;
    } else {
      var rest := PrintAll(vs[1..]) + tail;
      assert PrintAll(vs) + tail == Print(vs[0]) + rest;
      ReplyRoundTrip(vs[0], rest);
      ItemsRoundTrip(vs[1..], tail);
      assert [vs[0]] + vs[1..] == vs;
    }
  }

  function Bulks(args: seq<bytes>): seq<Value> { seq(|args|, i requires 0 <= i < |args| => Bulk(args[i])) }

  lemma {:induction false} PrintAllSnoc(vs: seq<Value>, v: Value)
    ensures PrintAll(vs + [v]) == PrintAll(vs) + Print(v)
  {
    if vs == [] {
      assert [v][1..] == [];
    } else {
      assert (vs + [v])[1..] == vs[1..] + [v];
      PrintAllSnoc(vs[1..], v);
    }
  }

  lemma {:induction false} EncodeArgsPrints(args: seq<bytes>)
    ensures EncodeArgs(args) == PrintAll(Bulks(args))
  {
    if args != [] {
      var n := |args| - 1;
      EncodeArgsPrints(args[..n]);
      PrintAllSnoc(Bulks(args[..n]), Bulk(args[n]));
      assert Bulks(args) == Bulks(args[..n]) + [Bulk(args[n])];
    }
  }

  /** The reader undoes the command printer, whatever bytes the arguments hold and whatever follows. */
  lemma CommandRoundTrip(args: seq<bytes>, tail: bytes)
    requires |args| <= MAX_INT && forall i :: 0 <= i < |args| ==> |args[i]| <= MAX_BULK
    ensures ParseReply(EncodeCommandBytes(args) + tail) == (Success(Array(Bulks(args))), tail)
  {
    EncodeArgsPrints(args);
    ReplyRoundTrip(Array(Bulks(args)), tail);
  }

  // ---- the reader never looks past what it takes ----

  lemma {:induction false} LineEndExtends(s: bytes, x: bytes)
    requires LineEnd(s) < |s|
    ensures LineEnd(s + x) == LineEnd(s)
  {
    assert (s + x)[..LineEnd(s)] == s[..LineEnd(s)];
    LineEndAt(s + x, LineEnd(s));
  }

  lemma LineExtends(s: bytes, x: bytes)
    requires ParseLine(s).0.Success?
    ensures ParseLine(s + x) == (ParseLine(s).0, ParseLine(s).1 + x)
  {
    var i := LineEnd(s);
    LineEndExtends(s, x);
    assert (s + x)[..i + 1] == s[..i + 1] && (s + x)[i + 1..] == s[i + 1..] + x;
  }

  lemma BulkExtends(text: bytes, rest: bytes, x: bytes)
    requires ParseBulk(text, rest).0 != Failure(EndOfInput)
    ensures ParseBulk(text, rest + x) == (ParseBulk(text, rest).0, ParseBulk(text, rest).1 + x)
  {
    var size := ParseInt(text);
    if size.Some? && 0 <= size.value <= MAX_BULK {
      var k := size.value + 2;
      assert k <= |rest|;
      assert (rest + x)[..k] == rest[..k] && (rest + x)[k..] == rest[k..] + x;
    }
  }

  /** Any verdict other than running out of input is final: more bytes behind it change neither the verdict
      nor the bytes taken. */
  lemma {:induction false} ReplyExtends(s: bytes, x: bytes)
    requires ParseReply(s).0 != Failure(EndOfInput)
    ensures ParseReply(s + x) == (ParseReply(s).0, ParseReply(s).1 + x)
    decreases |s|, 0
  {
    LineExtends(s, x);
    var (read, rest) := ParseLine(s);
    var line := read.value;
    if line != [] && line[0] == DOLLAR {
      BulkExtends(line[1..], rest, x);
    } else if line != [] && line[0] == STAR {
      var n := ParseInt(line[1..]);
      if n.Some? && n.value >= 0 {
        ItemsExtend(n.value, rest, x);
      }
    }
  }

  lemma {:induction false} ItemsExtend(count: nat, s: bytes, x: bytes)
    requires ParseItems(count, s).0 != Failure(EndOfInput)
    ensures ParseItems(count, s + x) == (ParseItems(count, s).0, ParseItems(count, s).1 + x)
    decreases |s|, 1
  {
    if count > 0 {
      ReplyExtends(s, x);
      var (item, rest) := ParseReply(s);
      if item.Success? {
        ItemsExtend(count - 1, rest, x);
      }
    }
  }

  /** A reply cut short is never mistaken for another reply or for a malformed one: every proper prefix of a
      printed value makes the reader ask for more input. */
  lemma TruncationIsDetected(v: Value, n: nat)
    requires WellFormed(v) && n < |Print(v)|
    ensures ParseReply(Print(v)[..n]).0 == Failure(EndOfInput)
  {
    var p, x := Print(v)[..n], Print(v)[n..];
    assert p + x == Print(v) == Print(v) + [];
    ReplyRoundTrip(v, []);
    if ParseReply(p).0 != Failure(EndOfInput) {
      ReplyExtends(p, x);
    }
  }

  /** A simple or error line survives exactly when it holds no line feed and does not end in a carriage return. */
  lemma SimpleRoundTripIff(str: bytes)
    ensures ParseReply(Print(Simple(str))) == (Success(Simple(str)), []) <==> CleanLine(str)
  {
    if CleanLine(str) {
      ReplyRoundTrip(Simple(str), []);
      assert Print(Simple(str)) + [] == Print(Simple(str));
    } else {
      var s := Print(Simple(str));
      assert s[|s| - 1] == LF;
      var i := LineEnd(s);
      assert i < |s|;
      TrimRightShrinks(s[..i + 1]);
      if LF !in str {
        assert LF !in s[..|s| - 1];
        LineEndAt(s, |s| - 1);
        assert s[..i + 1] == s;
        var t := s[..|s| - 1];
        assert t == [PLUS] + str + [CR];
        assert t[..|t| - 1] == [PLUS] + str;
        TrimRightShrinks([PLUS] + str);
      }
    }
  }

  lemma {:induction false} TrimRightShrinks(s: bytes)
    ensures TrimRight(s) <= s
    ensures s != [] && (s[|s| - 1] == CR || s[|s| - 1] == LF) ==> |TrimRight(s)| < |s|
  {
    if s != [] && (s[|s| - 1] == CR || s[|s| - 1] == LF) {
      TrimRightShrinks(s[..|s| - 1]);
    }
  }

  // ---- the wire format, in characters ----

  /** The bytes of a text in ASCII. */
  function Ascii(s: string): bytes
    requires forall i :: 0 <= i < |s| ==> s[i] as int < 128
  {
    seq(|s|, i requires 0 <= i < |s| => s[i] as int)
  }

  const DIGITS := "0123456789"

  /** A decimal digit is printed as its character, most significant first. */
  lemma {:induction false} DecimalIsAscii(n: nat)
    ensures |Decimal(n)| == 1 <==> n < 10
    ensures Decimal(n)[|Decimal(n)| - 1] == DIGITS[n % 10] as int
    ensures n >= 10 ==> Decimal(n)[..|Decimal(n)| - 1] == Decimal(n / 10)
  {
    DecimalDigits(n);
    if n >= 10 {
      DecimalDigits(n / 10);
    }
  }

  /** How each kind of value is written. */
  lemma WireForm(str: bytes, n: nat, items: seq<Value>)
    ensures Print(Simple(str)) == Ascii("+") + str + Ascii("\r\n")
    ensures Print(Error(str)) == Ascii("-") + str + Ascii("\r\n")
    ensures Print(Integer(n)) == Ascii(":") + Decimal(n) + Ascii("\r\n")
    ensures n > 0 ==> Print(Integer(0 - n)) == Ascii(":") + (Ascii("-") + Decimal(n)) + Ascii("\r\n")
    ensures Print(Bulk(str)) == Ascii("$") + Decimal(|str|) + Ascii("\r\n") + str + Ascii("\r\n")
    ensures Print(Array(items)) == Ascii("*") + Decimal(|items|) + Ascii("\r\n") + PrintAll(items)
  {
    assert Ascii("\r\n") == CRLF;
    assert Ascii("+") == [PLUS] && Ascii("-") == [MINUS] && Ascii(":") == [COLON];
    assert Ascii("$") == [DOLLAR] && Ascii("*") == [STAR];
  }

  lemma NullForm()
    ensures Print(NullBulk) == Ascii("$-1\r\n") && Print(NullArray) == Ascii("*-1\r\n")
  {
    assert Decimal(1) == [49] && PrintInt(-1) == [MINUS, 49];
    assert Ascii("$-1\r\n") == [DOLLAR, MINUS, 49, CR, LF] && Ascii("*-1\r\n") == [STAR, MINUS, 49, CR, LF];
  }

  /** How a command is written: the number of arguments, and each as a bulk string. */
  lemma {:induction false} CommandForm(args: seq<bytes>, last: bytes)
    ensures EncodeCommandBytes([]) == Ascii("*0\r\n")
    ensures EncodeCommandBytes(args) == Ascii("*") + Decimal(|args|) + Ascii("\r\n") + EncodeArgs(args)
    ensures EncodeArgs(args + [last])
         == EncodeArgs(args) + (Ascii("$") + Decimal(|last|) + Ascii("\r\n") + last + Ascii("\r\n"))
  {
    assert Ascii("\r\n") == CRLF && Ascii("*0\r\n") == [STAR, 48, CR, LF];
    assert (args + [last])[..|args|] == args;
    WireForm(last, 0, []);
  }

  // ---- what the reader refuses and what it overlooks ----

  predicate AllDigits(s: bytes) { s != [] && forall i :: 0 <= i < |s| ==> s[i] in Ascii(DIGITS) }

  /** The number a text of digits stands for, read from the left. */
  function ReadOn(s: bytes, before: int): int
    decreases |s|
  {
    if s == [] then before else ReadOn(s[1..], 10 * before + (s[0] as int - 48))
  }

  lemma {:induction false} ReadFromLeft(s: bytes, before: int)
    ensures s != [] ==>
              ReadOn(s, before) == 10 * ReadOn(s[..|s| - 1], before) + (s[|s| - 1] as int - 48)
    decreases |s|
  {
    if |s| > 1 {
      ReadFromLeft(s[1..], 10 * before + (s[0] as int - 48));
      assert s[1..][..|s| - 2] == s[..|s| - 1][1..];
    }
  }

  lemma {:induction false} DigitsAre(s: bytes)
    requires DigitsOnly(s)
    ensures Digits(s) == ReadOn(s, 0)
  {
    if s != [] {
      DigitsAre(s[..|s| - 1]);
      ReadFromLeft(s, 0);
    }
  }

  lemma AsciiDigits(b: byte)
    ensures b in Ascii(DIGITS) <==> 48 <= b <= 57
  {
    if 48 <= b <= 57 {
      assert Ascii(DIGITS)[b - 48] == b;
    }
  }

  lemma DigitsText(s: bytes)
    ensures AllDigits(s) <==> s != [] && DigitsOnly(s)
    ensures AllDigits(s) ==> Digits(s) == ReadOn(s, 0)
  {
    forall i | 0 <= i < |s| ensures s[i] in Ascii(DIGITS) <==> IsDigit(s[i]) {
      AsciiDigits(s[i]);
    }
    if AllDigits(s) {
      DigitsAre(s);
    }
  }

  /** Which texts are numbers, and of which value: digits with at most one sign before them, in the range of 64 bits. */
  lemma NumberIff(s: bytes, n: int)
    ensures ParseInt(s) == Some(n) <==>
              && -0x8000_0000_0000_0000 <= n <= 0x7fff_ffff_ffff_ffff
              && (|| (AllDigits(s) && n == ReadOn(s, 0))
                  || (s != [] && s[0] == Ascii("+")[0] && AllDigits(s[1..]) && n == ReadOn(s[1..], 0))
                  || (s != [] && s[0] == Ascii("-")[0] && AllDigits(s[1..]) && n == 0 - ReadOn(s[1..], 0)))
  {
    assert Ascii("+")[0] == PLUS && Ascii("-")[0] == MINUS;
    if s != [] {
      var digits := if s[0] == PLUS || s[0] == MINUS then s[1..] else s;
      ParsedDigits(s, digits);
      if AllDigits(s) {
        NoSign(s);
      }
    }
  }

  lemma NoSign(s: bytes)
    requires AllDigits(s)
    ensures s != [] && s[0] != PLUS && s[0] != MINUS
  {
    DigitsText(s);
    assert IsDigit(s[0]);
  }

  lemma ParsedDigits(s: bytes, digits: bytes)
    requires s != [] && digits == if s[0] == PLUS || s[0] == MINUS then s[1..] else s
    ensures !AllDigits(digits) ==> ParseInt(s) == None
    ensures AllDigits(digits) ==>
              var n := if s[0] == MINUS then 0 - ReadOn(digits, 0) else ReadOn(digits, 0);
              ParseInt(s) == if MIN_INT <= n <= MAX_INT then Some(n) else None
  {
    DigitsText(digits);
  }

  /** A line that is no reply, by its first byte, and what follows is left alone. */
  lemma RefusedLine(kind: byte, text: bytes, tail: bytes)
    requires CleanLine([kind] + text) && LF !in text
    ensures ParseReply(Ascii("\r\n") + tail) == (Failure(EmptyLine), tail)
    ensures kind !in Ascii("+-:$*") ==>
              ParseReply([kind] + text + Ascii("\r\n") + tail) == (Failure(UnknownType(kind)), tail)
    ensures kind in Ascii(":$*") && ParseInt(text).None? ==>
              var failure := if [kind] == Ascii(":") then BadInteger(text)
                             else if [kind] == Ascii("$") then BadBulkLength(text) else BadArrayLength(text);
              ParseReply([kind] + text + Ascii("\r\n") + tail) == (Failure(failure), tail)
  {
    assert Ascii("\r\n") == CRLF && Ascii("+-:$*") == [PLUS, MINUS, COLON, DOLLAR, STAR];
    assert Ascii(":$*") == [COLON, DOLLAR, STAR] && Ascii(":") == [COLON] && Ascii("$") == [DOLLAR];
    LineRoundTrip([], tail);
    assert [] + CRLF + tail == CRLF + tail;
    LineRoundTrip([kind] + text, tail);
    assert ([kind] + text)[1..] == text;
  }

  lemma NegativeHeader(kind: byte, n: nat, tail: bytes)
    requires 0 < n <= -MIN_INT && (kind == DOLLAR || kind == STAR)
    ensures ParseReply([kind] + ([MINUS] + Decimal(n)) + CRLF + tail)
         == (Success(if kind == DOLLAR then NullBulk else NullArray), tail)
  {
    NegativeRoundTrip(n);
    HeaderRoundTrip(kind, [MINUS] + Decimal(n), tail);
  }

  /** Any negative length stands for the null value, not only -1. */
  lemma NegativeLengths(n: nat, tail: bytes)
    requires 0 < n <= -MIN_INT
    ensures ParseReply(Ascii("$-") + Decimal(n) + Ascii("\r\n") + tail) == (Success(NullBulk), tail)
    ensures ParseReply(Ascii("*-") + Decimal(n) + Ascii("\r\n") + tail) == (Success(NullArray), tail)
  {
    var digits := Decimal(n);
    assert Ascii("\r\n") == CRLF;
    assert Ascii("$-") + digits == [DOLLAR] + ([MINUS] + digits);
    assert Ascii("*-") + digits == [STAR] + ([MINUS] + digits);
    NegativeHeader(DOLLAR, n, tail);
    NegativeHeader(STAR, n, tail);
  }

  lemma BulkBody(str: bytes, x: byte, y: byte, tail: bytes)
    requires |str| <= MAX_BULK
    ensures ParseBulk(Decimal(|str|), str + [x, y] + tail) == (Success(Bulk(str)), tail)
  {
    IntRoundTrip(|str|);
    var body := str + [x, y] + tail;
    assert body[..|str| + 2] == str + [x, y] && body[|str| + 2..] == tail;
    assert (str + [x, y])[..|str|] == str;
  }

  /** The two bytes after a bulk string are taken, whatever they are. */
  lemma TrailerIsIgnored(str: bytes, x: byte, y: byte, tail: bytes)
    requires |str| <= MAX_BULK
    ensures ParseReply(Ascii("$") + Decimal(|str|) + Ascii("\r\n") + (str + [x, y] + tail))
         == (Success(Bulk(str)), tail)
  {
    IntRoundTrip(|str|);
    HeaderRoundTrip(DOLLAR, Decimal(|str|), str + [x, y] + tail);
    BulkBody(str, x, y, tail);
    assert Ascii("\r\n") == CRLF && Ascii("$") == [DOLLAR];
  }
}
