/**
 * The DCC SEND reply decoder: `Response` and `Response::decode`.
 *
 * A bot answers an XDCC request with a line
 *     DCC SEND <filename field> <address as u32> <port> <filesize>
 * The decoder peels the three numeric fields off the right end, so the filename
 * field may itself contain spaces, then strips the quotes around the filename and
 * turns each `\"` into `"`.
 */
module DccResponse {
  import opened RustStd

  /** `Ipv4Addr`: four octets, most significant first. */
  datatype Ipv4Addr = Ipv4Addr(a: u8, b: u8, c: u8, d: u8)

  /** `Ipv4Addr::from(u32)`: the octets of the address are the big-endian bytes of `ip`. */
  function Ipv4FromBits(ip: u32): (r: Ipv4Addr)
    ensures r.a as int == ip as int / 0x100_0000
    ensures r.b as int == ip as int / 0x1_0000 % 0x100
    ensures r.c as int == ip as int / 0x100 % 0x100
    ensures r.d as int == ip as int % 0x100
  {
    var n := ip as int;
    NestedDivision(n);
    var q1 := n / 0x100;
    var q2 := q1 / 0x100;
    var q3 := q2 / 0x100;
    Ipv4Addr(q3 as u8, (q2 % 0x100) as u8, (q1 % 0x100) as u8, (n % 0x100) as u8)
  }

  /** Dividing by 0x100 twice is dividing by 0x1_0000, and so on up. */
  lemma NestedDivision(n: nat)
    ensures n / 0x100 / 0x100 == n / 0x1_0000
    ensures n / 0x1_0000 / 0x100 == n / 0x100_0000
  {
    var q, r := n / 0x1_0000, n % 0x1_0000;
    assert n / 0x100 == q * 0x100 + r / 0x100;
    var q', r' := n / 0x100_0000, n % 0x100_0000;
    assert n / 0x1_0000 == q' * 0x100 + r' / 0x1_0000;
  }

  /** `u32::from(Ipv4Addr)`: the inverse packing. */
  function Ipv4ToBits(addr: Ipv4Addr): u32 {
    (((addr.a as int * 0x100 + addr.b as int) * 0x100 + addr.c as int) * 0x100 + addr.d as int) as u32
  }

  /** Packing the octets of an unpacked address gives the same 32 bits back. */
  lemma Ipv4BitsRoundTrip(ip: u32)
    ensures Ipv4ToBits(Ipv4FromBits(ip)) == ip
  {
    var n := ip as int;
    var q1 := n / 0x100;
    var q2 := q1 / 0x100;
    var q3 := q2 / 0x100;
    assert n == q1 * 0x100 + n % 0x100;
    assert q1 == q2 * 0x100 + q1 % 0x100;
    assert q2 == q3 * 0x100 + q2 % 0x100;
  }

  /** Unpacking the packed octets gives the same address back. */
  lemma Ipv4OctetsRoundTrip(addr: Ipv4Addr)
    ensures Ipv4FromBits(Ipv4ToBits(addr)) == addr
  {
    var a, b, c, d := addr.a as int, addr.b as int, addr.c as int, addr.d as int;
    var q2 := a * 0x100 + b;
    var q1 := q2 * 0x100 + c;
    var n := q1 * 0x100 + d;
    assert Ipv4ToBits(addr) as int == n;
    assert n / 0x100 == q1 && n % 0x100 == d;
    assert q1 / 0x100 == q2 && q1 % 0x100 == c;
    assert q2 / 0x100 == a && q2 % 0x100 == b;
  }

  /** A decoded transfer offer: every field is present. */
  datatype Response = Response(filename: string, address: Ipv4Addr, port: u16, filesize: u64)

  const DccSendPrefix: string := "DCC SEND "
  const Quote: string := "\""
  const EscapedQuote: string := "\\\""

  predicate IsQuote(c: char) { c == '"' }

  /** The filename carried by the field left of the address: quotes trimmed, then `\"` read as `"`. */
  function Unquote(field: string): (r: string)
    ensures |r| <= |field|
    ensures '"' !in field ==> r == field
  {
    QuoteFreeUnchanged(field);
    Replace(TrimMatches(field, IsQuote), EscapedQuote, Quote)
  }

  /** Neither trimming quotes nor replacing `\"` changes a field that holds no quote. */
  lemma QuoteFreeUnchanged(field: string)
    ensures '"' !in field ==>
      TrimMatches(field, IsQuote) == field && Replace(field, EscapedQuote, Quote) == field
  {
    if '"' !in field {
      if field != [] {
        TrimMatchesUnchanged(field, IsQuote);
      }
      ReplaceLastAbsent(field, EscapedQuote, Quote);
    }
  }

  /** `Response::decode`: the trimmed message must start with `DCC SEND `; the rest holds the fields. */
  function Decode(msg: string): (r: Option<Response>)
    ensures !(DccSendPrefix <= Trim(msg)) ==> r == None
  {
    var fields :- StripPrefix(Trim(msg), DccSendPrefix);
    DecodeFields(fields)
  }

  /** `fields` is a filename field and three space-free tokens, joined by single spaces. */
  predicate FieldsSplit(fields: string, field: string, ipToken: string, portToken: string, sizeToken: string) {
    && fields == field + " " + ipToken + " " + portToken + " " + sizeToken
    && ' ' !in ipToken && ' ' !in portToken && ' ' !in sizeToken
  }

  /**
   * The right-to-left part of `Response::decode`: filesize, then port, then address, then the filename.
   * Whatever it accepts is a filename field and three space-free tokens that parse in range, and
   * the response is the unquoted field and those three numbers.
   */
  function DecodeFields(fields: string): (r: Option<Response>)
    ensures r.Some? ==> exists field, ipToken, portToken, sizeToken ::
      && FieldsSplit(fields, field, ipToken, portToken, sizeToken)
      && ParseUnsigned(ipToken, U32_MAX).Some?
      && ParseUnsigned(portToken, U16_MAX).Some?
      && ParseUnsigned(sizeToken, U64_MAX).Some?
      && r.value == Response(
        Unquote(field),
        Ipv4FromBits(ParseUnsigned(ipToken, U32_MAX).value as u32),
        ParseUnsigned(portToken, U16_MAX).value as u16,
        ParseUnsigned(sizeToken, U64_MAX).value as u64)
  {
    var (beforeSize, sizeToken) :- RSplitOnce(fields, ' ');
    var filesize :- ParseUnsigned(sizeToken, U64_MAX);
    var (beforePort, portToken) :- RSplitOnce(beforeSize, ' ');
    var port :- ParseUnsigned(portToken, U16_MAX);
    var (field, ipToken) :- RSplitOnce(beforePort, ' ');
    var ip :- ParseUnsigned(ipToken, U32_MAX);
    assert FieldsSplit(fields, field, ipToken, portToken, sizeToken);
    Some(Response(Unquote(field), Ipv4FromBits(ip as u32), port as u16, filesize as u64))
  }

  /** The line grammar: prefix, filename field and three single-space-separated tokens. */
  function DccLine(field: string, ipToken: string, portToken: string, sizeToken: string): string {
    DccSendPrefix + field + " " + ipToken + " " + portToken + " " + sizeToken
  }

  /** The fields of a line in the shape of the grammar, with three space-free tokens. */
  lemma {:induction false} DecodeFieldsLine(field: string, ipToken: string, portToken: string, sizeToken: string)
    requires ' ' !in ipToken && ' ' !in portToken && ' ' !in sizeToken
    ensures var r := DecodeFields(field + " " + ipToken + " " + portToken + " " + sizeToken);
      && (r.Some? <==>
        && ParseUnsigned(ipToken, U32_MAX).Some?
        && ParseUnsigned(portToken, U16_MAX).Some?
        && ParseUnsigned(sizeToken, U64_MAX).Some?)
      && (r.Some? ==> r.value == Response(
        Unquote(field),
        Ipv4FromBits(ParseUnsigned(ipToken, U32_MAX).value as u32),
        ParseUnsigned(portToken, U16_MAX).value as u16,
        ParseUnsigned(sizeToken, U64_MAX).value as u64))
  {
    var withIp := field + " " + ipToken;
    var withPort := withIp + " " + portToken;
    RSplitOnceAt(withPort, ' ', sizeToken);
    RSplitOnceAt(withIp, ' ', portToken);
    RSplitOnceAt(field, ' ', ipToken);
  }

  /** The line is the prefix followed by the fields `DecodeFields` reads. */
  lemma DccLineFields(field: string, ipToken: string, portToken: string, sizeToken: string)
    ensures DccLine(field, ipToken, portToken, sizeToken)
      == DccSendPrefix + (field + " " + ipToken + " " + portToken + " " + sizeToken)
  {
  }

  /**
   * A message whose trimmed text is in the shape of the grammar, with three
   * space-free tokens, decodes exactly when all three tokens parse, and then to
   * those numbers and the unquoted field.
   */
  lemma DecodeLine(msg: string, field: string, ipToken: string, portToken: string, sizeToken: string)
    requires Trim(msg) == DccLine(field, ipToken, portToken, sizeToken)
    requires ' ' !in ipToken && ' ' !in portToken && ' ' !in sizeToken
    ensures Decode(msg).Some? <==>
      && ParseUnsigned(ipToken, U32_MAX).Some?
      && ParseUnsigned(portToken, U16_MAX).Some?
      && ParseUnsigned(sizeToken, U64_MAX).Some?
    ensures Decode(msg).Some? ==> Decode(msg).value == Response(
      Unquote(field),
      Ipv4FromBits(ParseUnsigned(ipToken, U32_MAX).value as u32),
      ParseUnsigned(portToken, U16_MAX).value as u16,
      ParseUnsigned(sizeToken, U64_MAX).value as u64)
  {
    var rest := field + " " + ipToken + " " + portToken + " " + sizeToken;
    DccLineFields(field, ipToken, portToken, sizeToken);
    assert StripPrefix(Trim(msg), DccSendPrefix) == Some(rest);
    DecodeFieldsLine(field, ipToken, portToken, sizeToken);
  }

  /**
   * Conversely, whatever decodes is in the shape of the grammar: its trimmed text
   * splits into a filename field and three space-free tokens that parse.
   */
  lemma DecodeAcceptsOnlyDccLines(msg: string)
    requires Decode(msg).Some?
    ensures exists field, ipToken, portToken, sizeToken ::
      && Trim(msg) == DccLine(field, ipToken, portToken, sizeToken)
      && ' ' !in ipToken && ' ' !in portToken && ' ' !in sizeToken
      && ParseUnsigned(ipToken, U32_MAX).Some?
      && ParseUnsigned(portToken, U16_MAX).Some?
      && ParseUnsigned(sizeToken, U64_MAX).Some?
      && Decode(msg).value.filename == Unquote(field)
  {
    var field, ipToken, portToken, sizeToken := DecodedTokens(msg);
    DecodeLine(msg, field, ipToken, portToken, sizeToken);
  }

  /** The filename field and the three tokens `Response::decode` splits an accepted message into. */
  lemma DecodedTokens(msg: string) returns (field: string, ipToken: string, portToken: string, sizeToken: string)
    requires Decode(msg).Some?
    ensures Trim(msg) == DccLine(field, ipToken, portToken, sizeToken)
    ensures ' ' !in ipToken && ' ' !in portToken && ' ' !in sizeToken
  {
    var fields := StripPrefix(Trim(msg), DccSendPrefix).value;
    field, ipToken, portToken, sizeToken :| FieldsSplit(fields, field, ipToken, portToken, sizeToken);
    DccLineFields(field, ipToken, portToken, sizeToken);
  }

  /** An accepted message has the prefix and at least three spaces after it. */
  lemma AcceptedHasThreeFields(msg: string)
    requires Decode(msg).Some?
    ensures DccSendPrefix <= Trim(msg)
    ensures multiset(Trim(msg)[|DccSendPrefix|..])[' '] >= 3
  {
    var fields := StripPrefix(Trim(msg), DccSendPrefix).value;
    assert fields == Trim(msg)[|DccSendPrefix|..];
    var field, ipToken, portToken, sizeToken :| FieldsSplit(fields, field, ipToken, portToken, sizeToken);
    var withIp := field + " " + ipToken;
    var withPort := withIp + " " + portToken;
    assert multiset(withIp)[' '] >= 1;
    assert multiset(withPort)[' '] >= 2;
    assert multiset(withPort + " " + sizeToken)[' '] >= 3;
  }

  /**
   * A trimmed message that has the prefix but fewer than three spaces after it,
   * so fewer than three trailing fields, does not decode.
   */
  lemma FewerThanThreeFieldsRejected(msg: string)
    requires DccSendPrefix <= Trim(msg)
    requires multiset(Trim(msg)[|DccSendPrefix|..])[' '] < 3
    ensures Decode(msg) == None
  {
    if Decode(msg).Some? {
      AcceptedHasThreeFields(msg);
    }
  }

  /** How a bot escapes a filename before quoting it: each `"` becomes `\"`. */
  function Escape(filename: string): string {
    Replace(filename, Quote, EscapedQuote)
  }

  /** An escaped filename never starts with a quote. */
  lemma EscapeNoLeadingQuote(f: string)
    ensures Escape(f) == [] || Escape(f)[0] != '"'
  {
  }

  /** An escaped filename ends with a quote only when the filename does. */
  lemma {:induction false} EscapeLastChar(f: string)
    requires f != [] && f[|f| - 1] != '"'
    ensures Escape(f) != [] && Escape(f)[|Escape(f)| - 1] != '"'
  {
    var head := if f[0] == '"' then EscapedQuote else [f[0]];
    assert Escape(f) == head + Escape(f[1..]);
    if |f| > 1 {
      EscapeLastChar(f[1..]);
    } else {
      assert Escape(f[1..]) == [];
    }
  }

  /** Un-escaping undoes escaping, whatever the filename holds (backslashes included). */
  lemma {:induction false} UnescapeEscape(f: string)
    ensures Replace(Escape(f), EscapedQuote, Quote) == f
  {
    if f != [] {
      var tail := Escape(f[1..]);
      UnescapeEscape(f[1..]);
      if f[0] == '"' {
        assert Escape(f) == EscapedQuote + tail;
        assert (EscapedQuote + tail)[|EscapedQuote|..] == tail;
      } else {
        assert Escape(f) == [f[0]] + tail;
        EscapeNoLeadingQuote(f[1..]);
        if tail != [] {
          assert ([f[0]] + tail)[1] == tail[0];
        }
        assert !(EscapedQuote <= [f[0]] + tail);
        assert ([f[0]] + tail)[1..] == tail;
      }
    }
  }

  /** The line a bot sends to offer `r`: filename escaped and quoted, numbers in decimal. */
  function Encode(r: Response): string {
    DccLine(Quote + Escape(r.filename) + Quote,
      DecimalString(Ipv4ToBits(r.address) as nat),
      DecimalString(r.port as nat),
      DecimalString(r.filesize as nat))
  }

  /** A line in the shape of the grammar with decimal tokens starts with `D` and ends with a digit. */
  lemma DccLineEnds(field: string, ip: nat, port: nat, size: nat)
    ensures var line := DccLine(field, DecimalString(ip), DecimalString(port), DecimalString(size));
      line != [] && line[0] == 'D' && IsDigit(line[|line| - 1])
  {
    DccLineFields(field, DecimalString(ip), DecimalString(port), DecimalString(size));
  }

  /** Lines in the shape of the grammar with decimal tokens are their own trim. */
  lemma DccLineTrimmed(field: string, ip: nat, port: nat, size: nat)
    ensures var line := DccLine(field, DecimalString(ip), DecimalString(port), DecimalString(size));
      Trim(line) == line
  {
    DccLineEnds(field, ip, port, size);
    TrimLetterToDigit(DccLine(field, DecimalString(ip), DecimalString(port), DecimalString(size)));
  }

  /** A string that starts with `D` and ends with a digit has no White_Space to trim. */
  lemma TrimLetterToDigit(s: string)
    requires s != [] && s[0] == 'D' && IsDigit(s[|s| - 1])
    ensures Trim(s) == s
  {
    TrimMatchesUnchanged(s, IsWhitespace);
  }

  /**
   * The numeric fields round-trip for every filename: decoding
   * `DCC SEND "<name>" <ip> <port> <size>` written in canonical decimal gives back
   * exactly that address, port and size, even when `name` holds spaces or quotes.
   */
  lemma NumericFieldsRoundTrip(name: string, ip: u32, port: u16, size: u64)
    ensures var r := Decode(DccLine(Quote + name + Quote,
      DecimalString(ip as nat), DecimalString(port as nat), DecimalString(size as nat)));
      && r.Some? && r.value.address == Ipv4FromBits(ip) && r.value.port == port && r.value.filesize == size
      && r.value.filename == Unquote(Quote + name + Quote)
  {
    var line := DccLine(Quote + name + Quote, DecimalString(ip as nat), DecimalString(port as nat), DecimalString(size as nat));
    DccLineTrimmed(Quote + name + Quote, ip as nat, port as nat, size as nat);
    ParseDecimalString(ip as nat, U32_MAX);
    ParseDecimalString(port as nat, U16_MAX);
    ParseDecimalString(size as nat, U64_MAX);
    DecodeLine(line, Quote + name + Quote, DecimalString(ip as nat), DecimalString(port as nat), DecimalString(size as nat));
  }

  /**
   * A line in the shape of the grammar whose address, port or size, written in decimal,
   * is too large for its type (above `u32::MAX`, `u16::MAX` or `u64::MAX`) does not decode.
   */
  lemma OutOfRangeRejected(field: string, ip: nat, port: nat, size: nat)
    requires ip > U32_MAX || port > U16_MAX || size > U64_MAX
    ensures Decode(DccLine(field, DecimalString(ip), DecimalString(port), DecimalString(size))) == None
  {
    var line := DccLine(field, DecimalString(ip), DecimalString(port), DecimalString(size));
    DccLineTrimmed(field, ip, port, size);
    assert ' ' !in DecimalString(ip) && ' ' !in DecimalString(port) && ' ' !in DecimalString(size);
    if ip > U32_MAX {
      OverflowRejected(ip, U32_MAX);
    } else if port > U16_MAX {
      OverflowRejected(port, U16_MAX);
    } else {
      OverflowRejected(size, U64_MAX);
    }
    DecodeLine(line, field, DecimalString(ip), DecimalString(port), DecimalString(size));
  }

  /** Quoting an escaped filename and unquoting it again gives the filename, unless it ends with a quote. */
  lemma UnquoteEscaped(f: string)
    requires f == [] || f[|f| - 1] != '"'
    ensures Unquote(Quote + Escape(f) + Quote) == f
  {
    var e := Escape(f);
    EscapeNoLeadingQuote(f);
    if f != [] {
      EscapeLastChar(f);
    }
    TrimMatchesOneEach(e, '"', IsQuote);
    UnescapeEscape(f);
  }

  /**
   * The whole offer round-trips: decoding what a bot sends for `r` gives `r`,
   * provided the filename does not end with a quote.
   */
  lemma DecodeEncode(r: Response)
    requires r.filename == [] || r.filename[|r.filename| - 1] != '"'
    ensures Decode(Encode(r)) == Some(r)
  {
    NumericFieldsRoundTrip(Escape(r.filename), Ipv4ToBits(r.address), r.port, r.filesize);
    UnquoteEscaped(r.filename);
    Ipv4OctetsRoundTrip(r.address);
  }

  /** `Ipv4Addr::from(3232235777)` is 192.168.1.1. */
  lemma Ipv4Example()
    ensures Ipv4FromBits(3232235777) == Ipv4Addr(192, 168, 1, 1)
    ensures Ipv4ToBits(Ipv4Addr(192, 168, 1, 1)) == 3232235777
  {
  }

  /** The decimal string of the address in the decoder's test vectors. */
  lemma AddressDecimalExample()
    ensures DecimalString(3232235777) == "3232235777"
  {
    DecimalStringPush(3, 2);
    DecimalStringPush(32, 3);
    DecimalStringPush(323, 2);
    DecimalStringPush(3232, 2);
    DecimalStringPush(32322, 3);
    DecimalStringPush(323223, 5);
    DecimalStringPush(3232235, 7);
    DecimalStringPush(32322357, 7);
    DecimalStringPush(323223577, 7);
  }

  /** The decimal strings of the port and size in the decoder's test vectors. */
  lemma PortAndSizeDecimalExamples()
    ensures DecimalString(5000) == "5000"
    ensures DecimalString(1048576) == "1048576"
  {
    DecimalStringPush(5, 0);
    DecimalStringPush(50, 0);
    DecimalStringPush(500, 0);
    DecimalStringPush(1, 0);
    DecimalStringPush(10, 4);
    DecimalStringPush(104, 8);
    DecimalStringPush(1048, 5);
    DecimalStringPush(10485, 7);
    DecimalStringPush(104857, 6);
  }

  // The test-vector lemmas below take the line as a parameter equal to a `DccLine` of its
  // fields, so that the verifier reasons about the fields rather than one long string literal.

  /** A test-vector line decodes to the offer it was written for. */
  lemma DecodeTestVector(f: string, escaped: string, line: string)
    requires Escape(f) == escaped && f != [] && f[|f| - 1] != '"'
    requires line == DccLine(Quote + escaped + Quote, "3232235777", "5000", "1048576")
    ensures Decode(line) == Some(Response(f, Ipv4Addr(192, 168, 1, 1), 5000, 1048576))
  {
    var r := Response(f, Ipv4Addr(192, 168, 1, 1), 5000, 1048576);
    Ipv4Example();
    AddressDecimalExample();
    PortAndSizeDecimalExamples();
    assert Encode(r) == line;
    DecodeEncode(r);
  }

  /** A test-vector line whose filename holds no quote decodes to that filename. */
  lemma QuoteFreeVector(name: string, line: string)
    requires name != [] && '"' !in name
    requires line == DccLine(Quote + name + Quote, "3232235777", "5000", "1048576")
    ensures Decode(line) == Some(Response(name, Ipv4Addr(192, 168, 1, 1), 5000, 1048576))
  {
    ReplaceAbsent(name, Quote, EscapedQuote);
    DecodeTestVector(name, name, line);
  }

  /** The decoder's first test vector: a plain filename. */
  lemma DecodePlainExample(line: string)
    requires line == DccLine("\"foo.txt\"", "3232235777", "5000", "1048576")
    ensures Decode(line)
      == Some(Response("foo.txt", Ipv4Addr(192, 168, 1, 1), 5000, 1048576))
  {
    QuoteFreeVector("foo.txt", line);
  }

  /** Escaping a filename with one quote between quote-free parts escapes exactly that quote. */
  lemma EscapeOneQuote(a: string, b: string)
    requires '"' !in a && '"' !in b
    ensures Escape(a + Quote + b) == a + EscapedQuote + b
  {
    ReplaceAbsent(a, Quote, EscapedQuote);
    ReplaceAbsent(b, Quote, EscapedQuote);
    ReplaceCharConcat(a, Quote, '"', EscapedQuote);
    ReplaceCharConcat(a + Quote, b, '"', EscapedQuote);
    assert Replace(Quote, Quote, EscapedQuote) == EscapedQuote;
  }

  /** A test-vector line whose filename holds one escaped quote decodes to that filename. */
  lemma DecodeOneQuoteVector(a: string, b: string, line: string)
    requires '"' !in a && '"' !in b && b != []
    requires line == DccLine(Quote + a + EscapedQuote + b + Quote, "3232235777", "5000", "1048576")
    ensures Decode(line) == Some(Response(a + Quote + b, Ipv4Addr(192, 168, 1, 1), 5000, 1048576))
  {
    EscapeOneQuote(a, b);
    assert Quote + a + EscapedQuote + b + Quote == Quote + (a + EscapedQuote + b) + Quote;
    DecodeTestVector(a + Quote + b, a + EscapedQuote + b, line);
  }

  /** The second test vector's line, split into the fields `DccLine` joins. */
  lemma EscapedQuoteLine(line: string)
    requires line == DccLine("\"hello\\\"world.txt\"", "3232235777", "5000", "1048576")
    ensures line == DccLine(Quote + "hello" + EscapedQuote + "world.txt" + Quote, "3232235777", "5000", "1048576")
  {
    assert Quote + "hello" + EscapedQuote + "world.txt" + Quote == "\"hello\\\"world.txt\"";
  }

  /** The expected filename of the escaped-quote test vector, written as its parts. */
  lemma EscapedQuoteName()
    ensures "hello" + Quote + "world.txt" == "hello\"world.txt"
  {
  }

  /** The decoder's second test vector: an escaped quote inside the filename. */
  lemma DecodeEscapedQuoteExample(line: string)
    requires line == DccLine("\"hello\\\"world.txt\"", "3232235777", "5000", "1048576")
    ensures Decode(line)
      == Some(Response("hello\"world.txt", Ipv4Addr(192, 168, 1, 1), 5000, 1048576))
  {
    EscapedQuoteLine(line);
    DecodeOneQuoteVector("hello", "world.txt", line);
    EscapedQuoteName();
  }

  /** The decoder's third test vector: spaces inside the filename. */
  lemma DecodeSpacesExample(line: string)
    requires line == DccLine("\"foo bar baz.txt\"", "3232235777", "5000", "1048576")
    ensures Decode(line)
      == Some(Response("foo bar baz.txt", Ipv4Addr(192, 168, 1, 1), 5000, 1048576))
  {
    QuoteFreeVector("foo bar baz.txt", line);
  }

  /** The offer the request's own test feeds to it. */
  lemma DecodeUbuntuExample(line: string)
    requires line == DccLine("\"ubuntu.iso\"", "3232235777", "5000", "1048576")
    ensures Decode(line)
      == Some(Response("ubuntu.iso", Ipv4Addr(192, 168, 1, 1), 5000, 1048576))
  {
    QuoteFreeVector("ubuntu.iso", line);
  }

  /**
   * Why `DecodeEncode` excludes a trailing quote: `trim_matches` strips the escaped
   * quote's `"` together with the closing one, so a filename `a"` comes back as `a\`.
   */
  lemma TrailingQuoteNotRecovered(r: Response, a: string)
    requires r.filename == a + Quote && '"' !in a
    ensures Decode(Encode(r)) == Some(r.(filename := a + "\\"))
  {
    NumericFieldsRoundTrip(Escape(r.filename), Ipv4ToBits(r.address), r.port, r.filesize);
    Ipv4OctetsRoundTrip(r.address);
    UnquoteTrailingEscape(a);
  }

  /** Escaping a quote-free filename followed by one quote escapes just that quote. */
  lemma EscapeTrailingQuote(a: string)
    requires '"' !in a
    ensures Escape(a + Quote) == a + EscapedQuote
  {
    ReplaceAbsent(a, Quote, EscapedQuote);
    ReplaceCharConcat(a, Quote, '"', EscapedQuote);
  }

  /** Unquoting `"a\""` strips both final quotes and leaves the backslash. */
  lemma UnquoteTrailingEscape(a: string)
    requires '"' !in a
    ensures Unquote(Quote + Escape(a + Quote) + Quote) == a + "\\"
  {
    EscapeTrailingQuote(a);
    var s := Quote + Escape(a + Quote) + Quote;
    var t := a + "\\" + "\"\"";
    var v := a + "\\";
    assert s[1..] == t;
    assert s[1] != '"' by {
      if a != [] {
        assert s[1] == a[0];
      }
    }
    assert FirstUnmatched(s, IsQuote, 0) == 1;
    assert t[|t| - 3] == '\\' && t[|t| - 2] == '"' && t[|t| - 1] == '"';
    assert LastUnmatchedEnd(t, IsQuote, |t|) == |v|;
    assert t[..|v|] == v;
    ReplaceLastAbsent(v, EscapedQuote, Quote);
  }
}
