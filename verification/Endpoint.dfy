/** The tracker's key for an endpoint: the text of ip and port, and how get_ip and get_port read it. */
module Endpoint {
  import opened Bits
  import opened Decimal
  import opened ChatRooms

  const KEY_SIZE := 20

  /** An unsigned int as %d prints it, and a short. */
  predicate WellFormed(a: Addr)
  {
    0 <= a.ip < 0x1_0000_0000 && -0x8000 <= a.port < 0x8000
  }

  function AsInt(u: nat): int
    requires u < 0x1_0000_0000
  {
    if u >= 0x8000_0000 then u - 0x1_0000_0000 else u
  }

  /** The cast of an unsigned long to short. */
  function AsShort(u: nat): int
  {
    var w := u % 0x1_0000;
    if w >= 0x8000 then w - 0x1_0000 else w
  }

  /** sprintf(key, "%d:%d", ip, port). */
  function KeyText(a: Addr): Text
    requires WellFormed(a)
  {
    Signed(AsInt(a.ip)) + [COLON] + Signed(a.port)
  }

  predicate IsOctal(c: byte)
  {
    48 <= c <= 55
  }

  const ULONG_RANGE := 0x1_0000_0000_0000_0000

  /** strtoul(s, NULL, 0): a minus sign negates modulo 2^64, a leading 0 selects base 8. */
  function StrToUL(s: Text): (r: nat)
    ensures r < ULONG_RANGE
  {
    var w := Span(s, 0, IsSpace);
    var d := w + if w < |s| && (s[w] == MINUS || s[w] == PLUS) then 1 else 0;
    var octal := d < |s| && s[d] == 48;
    var n := Span(s, d, if octal then IsOctal else IsDigit);
    var v := Value(s[d..d + n], octal);
    if v >= ULONG_RANGE then ULONG_RANGE - 1
    else if w < |s| && s[w] == MINUS && v != 0 then ULONG_RANGE - v
    else v
  }

  lemma {:induction false} StrToULOfSigned(i: int)
    requires -0x8000_0000 <= i < 0x8000_0000
    ensures StrToUL(Signed(i)) == if i < 0 then ULONG_RANGE + i else i
  {
    if i == 0 {
      ReadZero();
    } else if i < 0 {
      ReadDigits([MINUS], -i);
    } else {
      ReadDigits([], i);
      assert [] + Digits(i) == Digits(i);
    }
  }

  /** Digits without a leading zero, with or without a minus sign. */
  lemma {:induction false} ReadDigits(sign: Text, m: nat)
    requires 0 < m <= 0x8000_0000 && (sign == [] || sign == [MINUS])
    ensures StrToUL(sign + Digits(m)) == if sign == [] then m else ULONG_RANGE - m
  {
    var t, s, d := Digits(m), sign + Digits(m), |sign|;
    DigitsReadBack(m);
    assert s[d] == t[0] && s[d] != 48 && IsDigit(s[d]);
    SpanIs(s, 0, IsSpace, 0);
    assert forall k | d <= k < |s| :: s[k] == t[k - d];
    SpanIs(s, d, IsDigit, |t|);
    assert s[d..d + |t|] == t;
  }

  lemma {:induction false} ReadZero()
    ensures StrToUL(Signed(0)) == 0
  {
    var s: Text := [48];
    SpanIs(s, 0, IsSpace, 0);
    assert s[0..] == s && s[0..1] == s;
    SpanIs(s, 0, IsOctal, 1);
    assert s[..0] == [];
    assert Value(s, true) == 0;
  }

  /** The text before the first colon of a key. */
  function IpText(key: Text): Text
  {
    key[..Span(key, 0, c => c != COLON)]
  }

  function IpOf(key: Text): nat
  {
    StrToUL(IpText(key)) % 0x1_0000_0000
  }

  /** The text after the first colon of a key. */
  function PortText(key: Text): Text
  {
    var c := Span(key, 0, c => c != COLON);
    if c < |key| then key[c + 1..] else []
  }

  function PortOf(key: Text): int
  {
    AsShort(StrToUL(PortText(key)))
  }

  /** No printed number contains a colon or a zero byte. */
  lemma {:induction false} SignedIsPlain(i: int)
    ensures forall k | 0 <= k < |Signed(i)| :: Signed(i)[k] != COLON && Signed(i)[k] != 0
  {
    var m := if i < 0 then -i else i;
    DigitsReadBack(m);
    forall k | 0 <= k < |Signed(i)| ensures Signed(i)[k] != COLON && Signed(i)[k] != 0 {
      assert i < 0 && k > 0 ==> Signed(i)[k] == Digits(m)[k - 1];
    }
  }

  lemma {:induction false} KeyParts(a: Addr)
    requires WellFormed(a)
    ensures IpText(KeyText(a)) == Signed(AsInt(a.ip)) && PortText(KeyText(a)) == Signed(a.port)
  {
    var p, q := Signed(AsInt(a.ip)), Signed(a.port);
    SignedIsPlain(AsInt(a.ip));
    SpanIs(KeyText(a), 0, c => c != COLON, |p|);
  }

  /** Main result: every endpoint is recovered from its key, and the key fits its 20 bytes with the final zero. */
  lemma {:induction false} KeyRoundTrip(a: Addr)
    requires WellFormed(a)
    ensures IpOf(KeyText(a)) == a.ip && PortOf(KeyText(a)) == a.port
    ensures |KeyText(a)| < KEY_SIZE
  {
    KeyParts(a);
    ReadIp(a.ip);
    ReadPort(a.port);
    KeyLength(a);
  }

  lemma {:induction false} ReadIp(ip: nat)
    requires ip < 0x1_0000_0000
    ensures StrToUL(Signed(AsInt(ip))) % 0x1_0000_0000 == ip
  {
    StrToULOfSigned(AsInt(ip));
  }

  lemma {:induction false} ReadPort(port: int)
    requires -0x8000 <= port < 0x8000
    ensures AsShort(StrToUL(Signed(port))) == port
  {
    StrToULOfSigned(port);
  }

  lemma {:induction false} KeyLength(a: Addr)
    requires WellFormed(a)
    ensures |KeyText(a)| < KEY_SIZE
  {
    SignedLength(AsInt(a.ip), 10);
    assert Pow10(5) == 100000;
    SignedLength(a.port, 5);
  }

  lemma {:induction false} SignedLength(i: int, k: nat)
    requires k > 0 && -0x8000_0000 <= i < 0x8000_0000 && (k == 10 || (if i < 0 then -i else i) < Pow10(k))
    ensures |Signed(i)| <= k + 1
  {
    assert Pow10(5) == 100000 && Pow10(10) == 100000 * Pow10(5);
    DigitsLength(if i < 0 then -i else i, k);
  }

  /** Distinct endpoints have distinct keys. */
  /** A leading zero selects base 8, and the scan ends at the first byte that is no digit. */
  lemma {:induction false} StrToULExamples(s: Text, t: Text)
    requires s == [48, 49, 55] && t == [32, 57, 58, 55]
    ensures StrToUL(s) == 15 && StrToUL(t) == 9
  {
    SpanIs(s, 0, IsSpace, 0);
    SpanIs(s, 0, IsOctal, 3);
    OctalValue(s);
    assert s[0..3] == s;
    SpanIs(t, 0, IsSpace, 1);
    SpanIs(t, 1, IsDigit, 1);
    DigitAt(t, 1);
  }

  lemma {:induction false} OctalValue(s: Text)
    requires |s| == 3 && s[0] == 48 && s[1] == 49 && s[2] == 55
    ensures Value(s, true) == 15
  {
    var t := s[..2];
    assert t[..1][..0] == [];
    assert Value(t[..1], true) == 0 && Value(t, true) == 1;
  }

  /** Two keys as they are printed: 258:30000 for 0.0.1.2, and -2:-1 for 255.255.255.254 and port 65535. */
  lemma {:induction false} KeyExamples()
    ensures KeyText(Addr(0x102, 30000)) == [50, 53, 56, 58, 51, 48, 48, 48, 48]
    ensures KeyText(Addr(0xFFFF_FFFE, -1)) == [45, 50, 58, 45, 49]
  {
    assert Digits(258) == [50, 53, 56] && Digits(30000) == [51, 48, 48, 48, 48];
    assert Digits(2) == [50] && Digits(1) == [49];
  }

  lemma {:induction false} KeysDiffer(a: Addr, b: Addr)
    requires WellFormed(a) && WellFormed(b) && KeyText(a) == KeyText(b)
    ensures a == b
  {
    KeyRoundTrip(a);
    KeyRoundTrip(b);
  }

  // ----- the buffer scans

  /** A 20-byte buffer that holds `key` as a C string; what follows the zero byte is arbitrary. */
  ghost predicate Holds(buf: array<byte>, key: Text)
    reads buf
  {
    && buf.Length == KEY_SIZE && |key| < KEY_SIZE
    && buf[..|key|] == key && buf[|key|] == 0
    && forall i | 0 <= i < |key| :: key[i] != 0
  }

  method GetIp(buf: array<byte>, ghost key: Text) returns (ip: nat)
    requires Holds(buf, key) && COLON in key
    ensures ip == IpOf(key)
  {
    var i := 0;
    SameBytes(buf, key);
    while i < KEY_SIZE
      invariant i < |key| && forall k | 0 <= k < i :: key[k] != COLON
      decreases KEY_SIZE - i
    {
      if buf[i] == COLON {
        break;
      }
      i := i + 1;
      if i == |key| {
        assert false;
      }
    }
    SpanIs(key, 0, c => c != COLON, i);
    assert buf[..i] == key[..i];
    ip := StrToUL(buf[..i]) % 0x1_0000_0000;
  }

  /** Where the port's text starts, behind the colon, and ends. */
  method FindPort(buf: array<byte>, ghost key: Text) returns (start: int, end: int)
    requires Holds(buf, key) && COLON in key
    ensures start == Span(key, 0, c => c != COLON) + 1 && end == |key|
  {
    var i := 0;
    start, end := -1, -1;
    ghost var c := Span(key, 0, c => c != COLON);
    SpanStops(key, 0, c => c != COLON);
    SameBytes(buf, key);
    while i < KEY_SIZE
      invariant 0 <= i <= |key| && end == -1
      invariant start == if i <= c then -1 else c + 1
      decreases KEY_SIZE - i
    {
      if start == -1 && buf[i] == COLON {
        start := i + 1;
      }
      if buf[i] == 0 {
        end := i;
        break;
      }
      i := i + 1;
    }
  }

  method GetPort(buf: array<byte>, ghost key: Text) returns (port: int)
    requires Holds(buf, key) && COLON in key
    ensures port == PortOf(key)
  {
    var start, end := FindPort(buf, key);
    SpanOfColon(key);
    TextBetween(buf, key, start);
    port := AsShort(StrToUL(buf[start..end]));
  }

  lemma {:induction false} SpanOfColon(key: Text)
    requires COLON in key
    ensures Span(key, 0, c => c != COLON) < |key|
  {
    SpanStops(key, 0, c => c != COLON);
  }

  lemma {:induction false} SameBytes(buf: array<byte>, key: Text)
    requires Holds(buf, key)
    ensures forall i | 0 <= i < |key| :: buf[i] == key[i] != 0
  {
    forall i | 0 <= i < |key| ensures buf[i] == key[i] {
      assert buf[..|key|][i] == key[i];
    }
  }

  lemma {:induction false} TextBetween(buf: array<byte>, key: Text, start: nat)
    requires Holds(buf, key) && start <= |key|
    ensures buf[start..|key|] == key[start..]
  {
    assert buf[start..|key|] == buf[..|key|][start..];
  }
}
