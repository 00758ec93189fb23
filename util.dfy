/** Byte/string codecs of the util namespace: lower-case hex encoding of
    buffers, and the percent encoding used for URLs and query strings.

    Bytes are integers in 0..255. The hex codec produces and consumes text
    (`string`); the percent codec works on single-byte strings, the C `char`
    buffers that the code walks with pointers. The machine word `Size` is a
    64-bit unsigned integer and every decrement of the percent encoder's
    length budget wraps around modulo 2^64, as the C++ unsigned arithmetic does. */
module Util {
  import opened Wrappers

  type byte = x: int | 0 <= x < 256
  type Bytes = seq<byte>

  const WORD_MODULUS: int := 0x1_0000_0000_0000_0000

  /** An unsigned machine word (`Size`). */
  type Size = x: int | 0 <= x < WORD_MODULUS

  /** `w -= k` on an unsigned word: subtraction modulo 2^64, so going below
      zero wraps around. */
  function Sub(w: Size, k: nat): (r: Size)
    requires k <= WORD_MODULUS
    ensures r == (w - k) % WORD_MODULUS
  {
    if w >= k then w - k else w - k + WORD_MODULUS
  }

  /** `w--` on an unsigned word: zero wraps to the largest word. */
  function Dec(w: Size): (r: Size)
    ensures w > 0 ==> r == w - 1
    ensures w == 0 ==> r == WORD_MODULUS - 1
    ensures r == (w - 1) % WORD_MODULUS
  {
    Sub(w, 1)
  }

  // ---------------------------------------------------------------------
  // hexEncode / hexDecode
  // ---------------------------------------------------------------------

  predicate IsLowerHexDigit(c: char)
  {
    ('0' <= c <= '9') || ('a' <= c <= 'f')
  }

  /** The character hexEncode writes for a nibble: a digit below ten,
      a lower-case letter from ten on. */
  function LowerHexDigit(v: int): (c: char)
    requires 0 <= v < 16
    ensures IsLowerHexDigit(c)
    ensures DecodeHex(c) == Some(v)
  {
    if v < 10 then (v + '0' as int) as char else (v - 10 + 'a' as int) as char
  }

  /** decodeHex: the value of a lower-case hex digit, or failure for any other
      character (upper-case letters included). */
  function DecodeHex(c: char): (r: Option<int>)
    ensures r.Some? <==> IsLowerHexDigit(c)
    ensures r.Some? ==> 0 <= r.value < 16
    ensures r.Some? ==> (if r.value < 10 then (r.value + '0' as int) as char
                         else (r.value - 10 + 'a' as int) as char) == c
  {
    if '0' <= c <= '9' then Some(c as int - '0' as int)
    else if 'a' <= c <= 'f' then Some(c as int - 'a' as int + 10)
    else None
  }

  /** The text hexEncode produces: each byte as its high nibble, then its low
      nibble. */
  function HexOf(b: Bytes): (s: string)
    ensures |s| == 2 * |b|
    decreases |b|
  {
    if b == [] then []
    else [LowerHexDigit(b[0] / 16), LowerHexDigit(b[0] % 16)] + HexOf(b[1..])
  }

  /** Byte `k` of the input is written at positions 2k and 2k + 1. */
  lemma {:induction false} HexOfPairs(b: Bytes)
    ensures forall k :: 0 <= k < |b| ==>
              HexOf(b)[2 * k] == LowerHexDigit(b[k] / 16) && HexOf(b)[2 * k + 1] == LowerHexDigit(b[k] % 16)
    decreases |b|
  {
    if b != [] {
      var rest := HexOf(b[1..]);
      HexOfPairs(b[1..]);
      var s := HexOf(b);
      forall k | 1 <= k < |b|
        ensures s[2 * k] == LowerHexDigit(b[k] / 16) && s[2 * k + 1] == LowerHexDigit(b[k] % 16)
      {
        assert b[k] == b[1..][k - 1];
        assert s[2 * k] == rest[2 * (k - 1)] && s[2 * k + 1] == rest[2 * (k - 1) + 1];
      }
    }
  }

  lemma HexOfChars(b: Bytes)
    ensures forall j :: 0 <= j < |HexOf(b)| ==> IsLowerHexDigit(HexOf(b)[j])
  {
    HexOfPairs(b);
    var s := HexOf(b);
    forall j | 0 <= j < |s| ensures IsLowerHexDigit(s[j]) {
      var k := j / 2;
      if j % 2 == 0 { assert s[2 * k] == LowerHexDigit(b[k] / 16); }
      else { assert s[2 * k + 1] == LowerHexDigit(b[k] % 16); }
    }
  }

  /** The bytes an even-length text denotes, pair by pair, or failure when
      some character is not a lower-case hex digit. */
  function HexValue(s: string): (r: Option<Bytes>)
    requires |s| % 2 == 0
    ensures r.Some? <==> forall j :: 0 <= j < |s| ==> IsLowerHexDigit(s[j])
    ensures r.Some? ==> |r.value| == |s| / 2
    decreases |s|
  {
    if s == [] then Some([])
    else
      var rest := HexValue(s[2..]);
      assert forall j :: 0 <= j < |s| - 2 ==> s[2..][j] == s[j + 2];
      if IsLowerHexDigit(s[0]) && IsLowerHexDigit(s[1]) && rest.Some? then
        Some([16 * DecodeHex(s[0]).value + DecodeHex(s[1]).value] + rest.value)
      else
        None
  }

  /** Each decoded byte is its pair's high digit times 16 plus its low digit. */
  lemma {:induction false} HexValuePairs(s: string)
    requires |s| % 2 == 0 && HexValue(s).Some?
    ensures forall k :: 0 <= k < |s| / 2 ==>
              HexValue(s).value[k] == 16 * DecodeHex(s[2 * k]).value + DecodeHex(s[2 * k + 1]).value
    decreases |s|
  {
    if s != [] {
      var t := s[2..];
      HexValuePairs(t);
      var r := HexValue(s).value;
      assert r[1..] == HexValue(t).value;
      forall k | 1 <= k < |s| / 2
        ensures r[k] == 16 * DecodeHex(s[2 * k]).value + DecodeHex(s[2 * k + 1]).value
      {
        assert s[2 * k] == t[2 * (k - 1)] && s[2 * k + 1] == t[2 * (k - 1) + 1];
        assert r[k] == r[1..][k - 1];
      }
    }
  }

  /** hexEncode(const void*, Size): a null pointer gives a null string; otherwise
      a buffer of twice the length is filled two characters per byte. */
  method HexEncodeData(data: Option<Bytes>) returns (r: Option<string>)
    ensures data.None? ==> r.None?
    ensures data.Some? ==> r == Some(HexOf(data.value))
  {
    if data.None? {
      return None;
    }
    var bytes := data.value;
    var len := |bytes|;
    var encoded := new char[2 * len];
    for i := 0 to len
      invariant forall k :: 0 <= k < i ==>
                  encoded[2 * k] == LowerHexDigit(bytes[k] / 16)
                  && encoded[2 * k + 1] == LowerHexDigit(bytes[k] % 16)
    {
      var msb := bytes[i] / 16;
      var lsb := bytes[i] % 16;
      encoded[2 * i] := if msb < 10 then (msb + '0' as int) as char else (msb - 10 + 'a' as int) as char;
      encoded[2 * i + 1] := if lsb < 10 then (lsb + '0' as int) as char else (lsb - 10 + 'a' as int) as char;
    }
    var s := HexOf(bytes);
    HexOfPairs(bytes);
    forall j | 0 <= j < 2 * len ensures encoded[j] == s[j] {
      var k := j / 2;
      assert encoded[2 * k] == LowerHexDigit(bytes[k] / 16) == s[2 * k];
      assert encoded[2 * k + 1] == LowerHexDigit(bytes[k] % 16) == s[2 * k + 1];
      if j % 2 == 0 { assert j == 2 * k; } else { assert j == 2 * k + 1; }
    }
    assert encoded[..] == s;
    return Some(encoded[..]);
  }

  /** hexEncode(Buffer): a null buffer gives a null string, an empty buffer the
      empty string, any other buffer its hex text. */
  method HexEncode(buf: Option<Bytes>) returns (r: Option<string>)
    ensures buf.None? <==> r.None?
    ensures buf == Some([]) ==> r == Some([])
    ensures buf.Some? ==> r == Some(HexOf(buf.value))
    ensures r.Some? ==> |r.value| == 2 * |buf.value|
  {
    if buf.Some? {
      if buf.value == [] {
        return Some([]);
      } else {
        r := HexEncodeData(buf);
      }
    } else {
      return None;
    }
  }

  /** hexDecode: null for a null or odd-length string and for any character
      outside 0-9a-f; otherwise each pair becomes msb * 16 + lsb. */
  method HexDecode(str: Option<string>) returns (r: Option<Bytes>)
    ensures str.None? ==> r.None?
    ensures str.Some? && |str.value| % 2 == 1 ==> r.None?
    ensures str.Some? && |str.value| % 2 == 0 ==> r == HexValue(str.value)
  {
    if str.None? {
      return None;
    }
    var s := str.value;
    if |s| % 2 == 1 {
      return None;
    }
    var len := |s| / 2;
    var decoded := new byte[len];
    for i := 0 to len
      invariant forall k :: 0 <= k < i ==>
                  IsLowerHexDigit(s[2 * k]) && IsLowerHexDigit(s[2 * k + 1])
                  && decoded[k] == 16 * DecodeHex(s[2 * k]).value + DecodeHex(s[2 * k + 1]).value
    {
      var msb := DecodeHex(s[2 * i]);
      var lsb := DecodeHex(s[2 * i + 1]);
      if msb.Some? && lsb.Some? {
        decoded[i] := 16 * msb.value + lsb.value;
      } else {
        assert !IsLowerHexDigit(s[2 * i]) || !IsLowerHexDigit(s[2 * i + 1]);
        return None;
      }
    }
    forall j | 0 <= j < |s| ensures IsLowerHexDigit(s[j]) {
      var k := j / 2;
      assert IsLowerHexDigit(s[2 * k]) && IsLowerHexDigit(s[2 * k + 1]);
      if j % 2 == 0 { assert j == 2 * k; } else { assert j == 2 * k + 1; }
    }
    var expected := HexValue(s);
    assert expected.Some?;
    HexValuePairs(s);
    assert decoded[..] == expected.value;
    return Some(decoded[..]);
  }

  /** Decoding the encoding of any byte sequence gives that sequence back. */
  lemma HexRoundTrip(b: Bytes)
    ensures HexValue(HexOf(b)) == Some(b)
  {
    var s := HexOf(b);
    HexOfChars(b);
    HexOfPairs(b);
    var r := HexValue(s);
    assert r.Some?;
    HexValuePairs(s);
    forall k | 0 <= k < |b| ensures r.value[k] == b[k] {
      var m, l := b[k] / 16, b[k] % 16;
      assert s[2 * k] == LowerHexDigit(m);
      assert s[2 * k + 1] == LowerHexDigit(l);
      assert DecodeHex(s[2 * k]).value == m;
      assert DecodeHex(s[2 * k + 1]).value == l;
      assert r.value[k] == 16 * m + l;
    }
    assert r.value == b;
  }

  /** Lower-case hex is canonical: a text that decodes is exactly the encoding
      of what it decodes to. */
  lemma {:induction false} HexCanonical(s: string)
    requires |s| % 2 == 0
    requires HexValue(s).Some?
    ensures HexOf(HexValue(s).value) == s
    decreases |s|
  {
    if s != [] {
      var rest := HexValue(s[2..]);
      assert rest.Some? && IsLowerHexDigit(s[0]) && IsLowerHexDigit(s[1]);
      HexCanonical(s[2..]);
      var m, l := DecodeHex(s[0]).value, DecodeHex(s[1]).value;
      var b := HexValue(s).value;
      assert b == [16 * m + l] + rest.value;
      assert b[1..] == rest.value;
      assert b[0] / 16 == m && b[0] % 16 == l;
      assert LowerHexDigit(m) == s[0] && LowerHexDigit(l) == s[1];
      assert s == s[..2] + s[2..];
    }
  }

  // ---------------------------------------------------------------------
  // percentEncode / percentDecode
  // ---------------------------------------------------------------------

  const PERCENT: byte := 0x25
  const PLUS: byte := 0x2B
  const SPACE: byte := 0x20
  const NUL: byte := 0x00

  /** The bytes percentEncode copies unchanged: A-Z, a-z, 0-9, '-', '.', '_', '~'. */
  predicate IsUnreserved(b: byte)
  {
    (0x41 <= b <= 0x5A) || (0x61 <= b <= 0x7A) || (0x30 <= b <= 0x39)
    || b == 0x2D || b == 0x2E || b == 0x5F || b == 0x7E
  }

  predicate IsHexDigitAnyCase(b: byte)
  {
    (0x30 <= b <= 0x39) || (0x41 <= b <= 0x46) || (0x61 <= b <= 0x66)
  }

  /** The upper-case form of an ASCII letter, any other byte unchanged. */
  function ToUpperAscii(b: byte): byte
  {
    if 0x61 <= b <= 0x7A then b - 0x20 else b
  }

  const UPPER_HEX_DIGITS: Bytes :=
    [0x30, 0x31, 0x32, 0x33, 0x34, 0x35, 0x36, 0x37, 0x38, 0x39, 0x41, 0x42, 0x43, 0x44, 0x45, 0x46]

  /** hexCharFromValue: an upper-case hex digit for a value below 16, '0'
      otherwise. Written out by cases, and proved to be the lookup in
      "0123456789ABCDEF" that the source performs. */
  function HexCharFromValue(value: nat): (r: byte)
    ensures r == if 16 <= value then 0x30 else UPPER_HEX_DIGITS[value]
  {
    if 16 <= value then 0x30
    else if value < 10 then 0x30 + value as byte
    else 0x37 + value as byte
  }

  /** valueFromHexChar: the value of a hex digit of either case; any other
      byte counts as 0. */
  function ValueFromHexChar(hex: byte): (v: int)
    ensures 0 <= v < 16
    ensures !IsHexDigitAnyCase(hex) ==> v == 0
  {
    if 0x30 <= hex <= 0x39 then hex - 0x30
    else if 0x41 <= hex <= 0x46 then hex - 0x41 + 10
    else if 0x61 <= hex <= 0x66 then hex - 0x61 + 10
    else 0
  }

  /** A value below 16 becomes an unreserved hex digit that reads back as
      that value; 16 and above become '0'. */
  lemma HexCharFromValueDigit(value: nat)
    ensures value < 16 ==>
      IsUnreserved(HexCharFromValue(value)) && IsHexDigitAnyCase(HexCharFromValue(value)) &&
      ValueFromHexChar(HexCharFromValue(value)) == value
    ensures value >= 16 ==> HexCharFromValue(value) == 0x30
  {
  }

  /** A hex digit of either case reads as the value whose upper-case digit
      it is. */
  lemma ValueFromHexCharDigit(hex: byte)
    requires IsHexDigitAnyCase(hex)
    ensures HexCharFromValue(ValueFromHexChar(hex)) == ToUpperAscii(hex)
  {
  }

  /** What the encoding of one byte is meant to be: the byte itself when it is
      unreserved, otherwise '%' and two upper-case hex digits. */
  function Escape(b: byte): (r: Bytes)
    ensures IsUnreserved(b) <==> r == [b]
    ensures !IsUnreserved(b) ==>
      |r| == 3 && r[0] == PERCENT && IsHexDigitAnyCase(r[1]) && IsHexDigitAnyCase(r[2]) &&
      16 * ValueFromHexChar(r[1]) + ValueFromHexChar(r[2]) == b
  {
    HexCharFromValueDigit(b / 16);
    HexCharFromValueDigit(b % 16);
    if IsUnreserved(b) then [b] else [PERCENT, HexCharFromValue(b / 16), HexCharFromValue(b % 16)]
  }

  /** The escape of every byte, concatenated: percent encoding with no limit
      on the output length. */
  function FullEncoding(s: Bytes): (r: Bytes)
    ensures |s| <= |r| <= 3 * |s|
    decreases |s|
  {
    if s == [] then [] else Escape(s[0]) + FullEncoding(s[1..])
  }

  /** The encoding is made of unreserved bytes and '%' only. */
  lemma {:induction false} FullEncodingAlphabet(s: Bytes)
    ensures forall j :: 0 <= j < |FullEncoding(s)| ==> IsUnreserved(FullEncoding(s)[j]) || FullEncoding(s)[j] == PERCENT
    decreases |s|
  {
    if s != [] {
      FullEncodingAlphabet(s[1..]);
      HexCharFromValueDigit(s[0] / 16);
      HexCharFromValueDigit(s[0] % 16);
      var e := Escape(s[0]);
      var t := FullEncoding(s[1..]);
      forall j | 0 <= j < |e + t| ensures IsUnreserved((e + t)[j]) || (e + t)[j] == PERCENT {
        if j >= |e| { assert (e + t)[j] == t[j - |e|]; }
      }
    }
  }

  /** Text made of unreserved bytes encodes to itself. */
  lemma {:induction false} FullEncodingUnreserved(s: Bytes)
    requires forall j :: 0 <= j < |s| ==> IsUnreserved(s[j])
    ensures FullEncoding(s) == s
    decreases |s|
  {
    if s != [] {
      FullEncodingUnreserved(s[1..]);
    }
  }

  /** The characters the loop of the static percentEncode writes
      (util.cpp:209-230), `budget` being encodedLength at the loop head and
      `s` the source bytes not yet consumed. An escaped byte lowers the budget
      by five: the two pre-decrements, `-= 2` and the loop's `--`. It writes
      at most three bytes per source byte. */
  function EncodeLoop(budget: Size, s: Bytes): (r: Bytes)
    ensures |r| <= 3 * |s|
    decreases |s|
  {
    if s == [] || budget == 0 then []
    else if IsUnreserved(s[0]) then [s[0]] + EncodeLoop(Dec(budget), s[1..])
    else
      var afterPercent := Dec(budget);
      if afterPercent == 0 then [PERCENT]
      else
        var afterHigh := Dec(afterPercent);
        if afterHigh == 0 then [PERCENT, HexCharFromValue(s[0] / 16)]
        else
          [PERCENT, HexCharFromValue(s[0] / 16), HexCharFromValue(s[0] % 16)]
          + EncodeLoop(Dec(Sub(afterHigh, 2)), s[1..])
  }

  /** The budget only ever cuts the output short: whatever the budget, the
      static percentEncode writes a prefix of the full encoding. */
  lemma {:induction false} EncodeLoopIsPrefix(budget: Size, s: Bytes)
    ensures EncodeLoop(budget, s) <= FullEncoding(s)
    decreases |s|
  {
    if s == [] || budget == 0 {
    } else {
      EncodeLoopIsPrefix(Dec(budget), s[1..]);
      var afterHigh := Dec(Dec(budget));
      EncodeLoopIsPrefix(Dec(Sub(afterHigh, 2)), s[1..]);
      assert FullEncoding(s) == Escape(s[0]) + FullEncoding(s[1..]);
    }
  }

  /** An input made only of unreserved bytes is copied unchanged while the
      budget covers it. */
  lemma {:induction false} EncodeLoopUnreserved(budget: Size, s: Bytes)
    requires forall j :: 0 <= j < |s| ==> IsUnreserved(s[j])
    requires budget >= |s|
    ensures EncodeLoop(budget, s) == s
    decreases |s|
  {
    if s != [] {
      EncodeLoopUnreserved(Dec(budget), s[1..]);
    }
  }

  /** Budget word wrap-around: when an escaped byte arrives with exactly three
      units left, the `-= 2` takes the unsigned counter below zero, and the rest
      of the input is then encoded as if there were no budget at all. */
  lemma EncodeLoopBudgetWraps(b: byte, t: Bytes)
    requires !IsUnreserved(b)
    requires forall j :: 0 <= j < |t| ==> IsUnreserved(t[j])
    requires |t| < WORD_MODULUS - 2
    ensures EncodeLoop(3, [b] + t) == Escape(b) + t
  {
    var s := [b] + t;
    assert s[0] == b && s[1..] == t;
    var wrapped := Dec(Sub(Dec(Dec(3)), 2));
    assert wrapped == WORD_MODULUS - 2;
    EncodeLoopUnreserved(wrapped, t);
  }

  /** The String wrapper of percentEncode as written (util.cpp:262-292): empty
      for empty input, otherwise the static encoder with a budget of three
      characters per source byte plus the terminator. */
  function PercentEncodeString(s: Bytes): (r: Bytes)
    requires 3 * |s| + 1 < WORD_MODULUS
    ensures |r| <= 3 * |s|
    ensures r <= FullEncoding(s)
  {
    EncodeLoopIsPrefix(3 * |s|, s);
    if s == [] then [] else EncodeLoop(Dec(3 * |s| + 1), s)
  }

  /** The wrapper returns an input made only of unreserved bytes unchanged. */
  lemma PercentEncodeUnreserved(s: Bytes)
    requires 3 * |s| + 1 < WORD_MODULUS
    requires forall j :: 0 <= j < |s| ==> IsUnreserved(s[j])
    ensures PercentEncodeString(s) == s
  {
    if s != [] {
      EncodeLoopUnreserved(3 * |s|, s);
    }
  }

  /** The wrapper's output on two spaces: the first escape uses five of the
      six budget units, so the second is cut off after its '%'. */
  lemma PercentEncodeTruncatesTwoEscapes()
    ensures PercentEncodeString([SPACE, SPACE]) == [PERCENT, 0x32, 0x30, PERCENT]
    ensures FullEncoding([SPACE, SPACE]) == [PERCENT, 0x32, 0x30, PERCENT, 0x32, 0x30]
  {
    var s: Bytes := [SPACE, SPACE];
    assert s[1..] == [SPACE];
    assert [SPACE][1..] == [];
    assert EncodeLoop(1, [SPACE]) == [PERCENT];
    assert EncodeLoop(6, s) == [PERCENT, 0x32, 0x30] + EncodeLoop(1, [SPACE]);
  }

  /** The loop as evidently intended: an escaped byte costs the three
      characters it writes (the `-= 2` dropped). */
  function EncodeLoopFixed(budget: Size, s: Bytes): (r: Bytes)
    ensures r <= FullEncoding(s)
    ensures |r| <= 3 * |s|
    decreases |s|
  {
    if s == [] || budget == 0 then []
    else if IsUnreserved(s[0]) then [s[0]] + EncodeLoopFixed(Dec(budget), s[1..])
    else
      var afterPercent := Dec(budget);
      if afterPercent == 0 then [PERCENT]
      else
        var afterHigh := Dec(afterPercent);
        if afterHigh == 0 then [PERCENT, HexCharFromValue(s[0] / 16)]
        else
          [PERCENT, HexCharFromValue(s[0] / 16), HexCharFromValue(s[0] % 16)]
          + EncodeLoopFixed(Dec(afterHigh), s[1..])
  }

  /** With a budget covering the full encoding, the corrected loop writes all of it. */
  lemma {:induction false} EncodeLoopFixedComplete(budget: Size, s: Bytes)
    requires budget >= |FullEncoding(s)|
    ensures EncodeLoopFixed(budget, s) == FullEncoding(s)
    decreases |s|
  {
    if s != [] {
      assert FullEncoding(s) == Escape(s[0]) + FullEncoding(s[1..]);
      if IsUnreserved(s[0]) {
        EncodeLoopFixedComplete(Dec(budget), s[1..]);
      } else {
        EncodeLoopFixedComplete(budget - 3, s[1..]);
      }
    }
  }

  /** The String wrapper over the corrected loop. */
  function PercentEncodeStringFixed(s: Bytes): (r: Bytes)
    requires 3 * |s| + 1 < WORD_MODULUS
    ensures r == FullEncoding(s)
  {
    if s == [] then []
    else
      EncodeLoopFixedComplete(3 * |s|, s);
      EncodeLoopFixed(Dec(3 * |s| + 1), s)
  }

  /** Whether the loop of the static percentDecode stays inside the source:
      it does not when it meets a '%' followed by one character and the
      terminator, since it then steps three bytes and reads past the end. */
  predicate DecodeSafe(budget: Size, s: Bytes)
    decreases |s|
  {
    if s == [] || s[0] == NUL || budget == 0 then true
    else if s[0] == PERCENT then
      if |s| == 1 || s[1] == NUL then true
      else |s| >= 3 && DecodeSafe(Dec(budget), s[3..])
    else DecodeSafe(Dec(budget), s[1..])
  }

  /** The bytes the loop of the static percentDecode writes (util.cpp:242-257),
      `s` being the source not yet consumed, followed by its terminator. */
  function DecodeLoop(budget: Size, s: Bytes): (r: Bytes)
    requires DecodeSafe(budget, s)
    ensures |r| <= |s| && |r| <= budget
    decreases |s|
  {
    if s == [] || s[0] == NUL || budget == 0 then []
    else if s[0] == PERCENT then
      if |s| == 1 || s[1] == NUL then []
      else [16 * ValueFromHexChar(s[1]) + ValueFromHexChar(s[2])] + DecodeLoop(Dec(budget), s[3..])
    else if s[0] == PLUS then [SPACE] + DecodeLoop(Dec(budget), s[1..])
    else [s[0]] + DecodeLoop(Dec(budget), s[1..])
  }

  /** The inputs the String wrapper of percentDecode can be given: the static
      decoder, with the budget the wrapper allocates, stays inside them. */
  predicate Decodable(s: Bytes)
  {
    |s| + 1 < WORD_MODULUS && DecodeSafe(|s|, s)
  }

  /** The String wrapper of percentDecode (util.cpp:294-304): empty for empty
      input, otherwise the static decoder with a buffer one longer than the input. */
  function PercentDecodeString(s: Bytes): (r: Bytes)
    requires Decodable(s)
    ensures |r| <= |s|
  {
    if s == [] then [] else DecodeLoop(Dec(|s| + 1), s)
  }

  /** '+' replaced by a space, every other byte kept. */
  function PlusToSpace(s: Bytes): (r: Bytes)
    ensures |r| == |s|
    ensures forall j :: 0 <= j < |s| ==> r[j] == if s[j] == PLUS then SPACE else s[j]
  {
    seq(|s|, j requires 0 <= j < |s| => if s[j] == PLUS then SPACE else s[j])
  }

  /** The first byte converted, then the rest. */
  lemma PlusToSpaceCons(s: Bytes)
    requires s != []
    ensures PlusToSpace(s) == [if s[0] == PLUS then SPACE else s[0]] + PlusToSpace(s[1..])
  {
    var r, rest := PlusToSpace(s), PlusToSpace(s[1..]);
    forall j | 1 <= j < |s| ensures r[j] == rest[j - 1] {
      assert s[j] == s[1..][j - 1];
    }
  }

  /** Without '%' and NUL bytes, decoding turns '+' into a space and copies
      everything else, as long as the budget covers the input. */
  lemma {:induction false} DecodeLoopPlain(budget: Size, s: Bytes)
    requires forall j :: 0 <= j < |s| ==> s[j] != PERCENT && s[j] != NUL
    requires budget >= |s|
    ensures DecodeSafe(budget, s)
    ensures DecodeLoop(budget, s) == PlusToSpace(s)
    decreases |s|
  {
    if s != [] {
      DecodeLoopPlain(Dec(budget), s[1..]);
      PlusToSpaceCons(s);
    }
  }

  /** A '%' in final position ends decoding: nothing is written for it. */
  lemma {:induction false} DecodeLoopTrailingPercent(budget: Size, t: Bytes)
    requires forall j :: 0 <= j < |t| ==> t[j] != PERCENT && t[j] != NUL
    requires budget >= |t| + 1
    ensures DecodeSafe(budget, t + [PERCENT])
    ensures DecodeLoop(budget, t + [PERCENT]) == PlusToSpace(t)
    decreases |t|
  {
    var s := t + [PERCENT];
    if t != [] {
      assert s[1..] == t[1..] + [PERCENT];
      DecodeLoopTrailingPercent(Dec(budget), t[1..]);
      PlusToSpaceCons(t);
    }
  }

  /** An escape "%XY" decodes to 16 * v(X) + v(Y) whatever the case of its digits. */
  lemma DecodeLoopEscape(budget: Size, x: byte, y: byte, rest: Bytes)
    requires budget > 0 && x != NUL
    requires DecodeSafe(budget - 1, rest)
    ensures DecodeSafe(budget, [PERCENT, x, y] + rest)
    ensures DecodeLoop(budget, [PERCENT, x, y] + rest)
            == [16 * ValueFromHexChar(x) + ValueFromHexChar(y)] + DecodeLoop(budget - 1, rest)
    ensures DecodeLoop(budget, [PERCENT, ToUpperAscii(x), ToUpperAscii(y)] + rest)
            == DecodeLoop(budget, [PERCENT, x, y] + rest)
  {
    assert ([PERCENT, x, y] + rest)[3..] == rest;
    assert ([PERCENT, ToUpperAscii(x), ToUpperAscii(y)] + rest)[3..] == rest;
  }

  /** The escape of a byte decodes back to that byte. */
  lemma EscapeDecodes(budget: Size, b: byte, tail: Bytes)
    requires budget > 0
    requires DecodeSafe(budget - 1, tail)
    ensures DecodeSafe(budget, Escape(b) + tail)
    ensures DecodeLoop(budget, Escape(b) + tail) == [b] + DecodeLoop(budget - 1, tail)
  {
    if IsUnreserved(b) {
      assert ([b] + tail)[1..] == tail;
      return;
    }
    var hi, lo := HexCharFromValue(b / 16), HexCharFromValue(b % 16);
    HexCharFromValueDigit(b / 16);
    HexCharFromValueDigit(b % 16);
    DecodeLoopEscape(budget, hi, lo, tail);
    assert 16 * (b / 16) + b % 16 == b;
  }

  /** Decoding the full encoding of any byte sequence gives it back, as long as
      the budget allows one output byte per source byte. */
  lemma {:induction false} DecodeFullEncoding(budget: Size, b: Bytes)
    requires budget >= |b|
    ensures DecodeSafe(budget, FullEncoding(b))
    ensures DecodeLoop(budget, FullEncoding(b)) == b
    decreases |b|
  {
    if b != [] {
      var tail := FullEncoding(b[1..]);
      DecodeFullEncoding(Dec(budget), b[1..]);
      EscapeDecodes(budget, b[0], tail);
      assert b == [b[0]] + b[1..];
    }
  }

  /** The corrected encoder and the decoder are inverse: every byte sequence
      survives an encode/decode round trip. */
  lemma PercentRoundTripFixed(b: Bytes)
    requires 3 * |b| + 1 < WORD_MODULUS
    ensures Decodable(PercentEncodeStringFixed(b))
    ensures PercentDecodeString(PercentEncodeStringFixed(b)) == b
  {
    var e := PercentEncodeStringFixed(b);
    DecodeFullEncoding(|e|, b);
  }

  /** One turn of the static percentEncode's loop, unfolded. */
  lemma EncodeLoopUnfold(budget: Size, s: Bytes)
    requires s != [] && budget != 0
    ensures IsUnreserved(s[0]) ==> EncodeLoop(budget, s) == [s[0]] + EncodeLoop(Dec(budget), s[1..])
    ensures !IsUnreserved(s[0]) && Dec(budget) == 0 ==> EncodeLoop(budget, s) == [PERCENT]
    ensures !IsUnreserved(s[0]) && Dec(budget) != 0 && Dec(Dec(budget)) == 0 ==>
              EncodeLoop(budget, s) == [PERCENT, HexCharFromValue(s[0] / 16)]
    ensures !IsUnreserved(s[0]) && Dec(budget) != 0 && Dec(Dec(budget)) != 0 ==>
              EncodeLoop(budget, s) == [PERCENT, HexCharFromValue(s[0] / 16), HexCharFromValue(s[0] % 16)]
                                       + EncodeLoop(Dec(Sub(Dec(Dec(budget)), 2)), s[1..])
  {
  }

  /** The static percentEncode's loop state: `src[i..]` is still to be
      consumed with `budget` turns left, and `out[j..]` is what it writes. */
  predicate EncodeAt(budget: Size, src: Bytes, i: nat, out: Bytes, j: nat)
  {
    i <= |src| && j <= |out| && out[j..] == EncodeLoop(budget, src[i..])
  }

  /** The first `j` cells of `a` hold the first `j` bytes of `out`. */
  predicate Written(a: array<byte>, out: Bytes, j: nat)
    reads a
  {
    j <= |out| && j <= a.Length && forall k :: 0 <= k < j ==> a[k] == out[k]
  }

  /** One turn of the static percentEncode's loop: an unreserved byte is
      copied, any other is written as '%' and two hex digits, each of the
      three taking one unit of budget; `stop` tells that the budget ran out
      inside an escape, which ends the loop with everything written. */
  method EncodeTurn(encoded: array<byte>, src: Bytes, i: nat, ghost out: Bytes, j: nat, budget: Size)
      returns (j': nat, budget': Size, stop: bool)
    requires i < |src| && budget != 0 && |out| < encoded.Length
    requires EncodeAt(budget, src, i, out, j) && Written(encoded, out, j)
    modifies encoded
    ensures Written(encoded, out, j') && j <= j'
    ensures stop ==> j' == |out|
    ensures !stop ==> EncodeAt(budget', src, i + 1, out, j')
    ensures forall k :: j' <= k < encoded.Length ==> encoded[k] == old(encoded[k])
  {
    var temp := src[i];
    assert src[i..][0] == temp && src[i..][1..] == src[i + 1..];
    EncodeLoopUnfold(budget, src[i..]);
    ghost var rest := out[j..];
    j', budget', stop := j, budget, false;
    if IsUnreserved(temp) {
      encoded[j'] := temp;
      j' := j' + 1;
      assert out[j'..] == rest[1..];
    } else {
      var hi, lo := HexCharFromValue(temp / 16), HexCharFromValue(temp % 16);
      encoded[j'] := PERCENT;
      j' := j' + 1;
      budget' := Dec(budget');
      if budget' == 0 {
        return j', budget', true;
      }
      encoded[j'] := hi;
      j' := j' + 1;
      budget' := Dec(budget');
      if budget' == 0 {
        return j', budget', true;
      }
      encoded[j'] := lo;
      j' := j' + 1;
      assert out[j'..] == rest[3..];
      budget' := Sub(budget', 2);
    }
    budget' := Dec(budget');
  }

  /** The static percentEncode: 0 for a null destination or source; otherwise
      the loop's output is written at the destination's start and terminated
      by NUL, and its length returned. The caller's buffer must hold what is
      written. */
  method PercentEncodeInto(encoded: array?<byte>, encodedLength: Size, source: Option<Bytes>)
      returns (n: nat)
    requires encoded != null && source.Some? ==>
               |EncodeLoop(Dec(encodedLength), source.value)| < encoded.Length
    modifies encoded
    ensures encoded == null || source.None? ==> n == 0
    ensures encoded != null && source.None? ==> encoded[..] == old(encoded[..])
    ensures encoded != null && source.Some? ==>
              n == |EncodeLoop(Dec(encodedLength), source.value)|
              && encoded[..n] == EncodeLoop(Dec(encodedLength), source.value)
              && encoded[n] == NUL
              && forall k :: n < k < encoded.Length ==> encoded[k] == old(encoded[k])
  {
    if encoded == null || source.None? {
      return 0;
    }
    var src := source.value;
    ghost var out := EncodeLoop(Dec(encodedLength), src);
    var i := 0;
    var j := 0;
    var budget := Dec(encodedLength);
    assert src[0..] == src;
    while i < |src| && budget != 0
      invariant EncodeAt(budget, src, i, out, j) && Written(encoded, out, j)
      invariant forall k :: j <= k < encoded.Length ==> encoded[k] == old(encoded[k])
      decreases |src| - i
    {
      var stop;
      j, budget, stop := EncodeTurn(encoded, src, i, out, j, budget);
      if stop {
        break;
      }
      i := i + 1;
    }
    assert j == |out|;
    encoded[j] := NUL;
    assert encoded[..j] == out;
    return j;
  }

  /** One turn of the static percentDecode's loop at source offset `i`, unfolded. */
  lemma DecodeLoopStep(budget: Size, src: Bytes, i: nat)
    requires i < |src| && src[i] != NUL && budget != 0
    requires DecodeSafe(budget, src[i..])
    requires src[i] == PERCENT ==> i + 1 < |src| && src[i + 1] != NUL
    ensures src[i] == PERCENT ==> i + 3 <= |src|
    ensures src[i] == PERCENT ==>
              DecodeSafe(Dec(budget), src[i + 3..])
              && DecodeLoop(budget, src[i..]) == [16 * ValueFromHexChar(src[i + 1]) + ValueFromHexChar(src[i + 2])]
                                                 + DecodeLoop(Dec(budget), src[i + 3..])
    ensures src[i] != PERCENT ==>
              DecodeSafe(Dec(budget), src[i + 1..])
              && DecodeLoop(budget, src[i..]) == [if src[i] == PLUS then SPACE else src[i]]
                                                 + DecodeLoop(Dec(budget), src[i + 1..])
  {
    var s := src[i..];
    assert s[0] == src[i];
    if src[i] == PERCENT {
      assert s[1] == src[i + 1];
      assert |s| >= 3;
      assert s[2] == src[i + 2] && s[3..] == src[i + 3..];
    } else {
      assert s[1..] == src[i + 1..];
    }
  }

  /** The static percentDecode's loop state: `src[i..]` is still to be
      consumed with `budget` turns left, and `out[j..]` is what it writes. */
  predicate DecodeAt(budget: Size, src: Bytes, i: nat, out: Bytes, j: nat)
  {
    i <= |src| && j <= |out| && DecodeSafe(budget, src[i..])
    && out[j..] == DecodeLoop(budget, src[i..])
  }

  /** Where the loop stops (end of source, NUL, no budget, or a trailing
      '%'), everything has been written. */
  lemma DecodeAtEnd(budget: Size, src: Bytes, i: nat, out: Bytes, j: nat)
    requires DecodeAt(budget, src, i, out, j)
    requires i == |src| || src[i] == NUL || budget == 0
             || (src[i] == PERCENT && (i + 1 == |src| || src[i + 1] == NUL))
    ensures j == |out|
  {
    if i < |src| {
      assert src[i..][0] == src[i];
      if src[i] == PERCENT && i + 1 < |src| {
        assert src[i..][1] == src[i + 1];
      }
    }
  }

  /** The byte one turn of the static percentDecode's loop writes, and how
      many source bytes it consumes: an escape decodes its two hex digits,
      '+' becomes a space, any other byte is copied. */
  method DecodeOne(budget: Size, src: Bytes, i: nat, ghost out: Bytes, ghost j: nat) returns (c: byte, width: nat)
    requires i < |src| && src[i] != NUL && budget != 0
    requires src[i] == PERCENT ==> i + 1 < |src| && src[i + 1] != NUL
    requires DecodeAt(budget, src, i, out, j)
    ensures 1 <= width && i + width <= |src| && j < |out|
    ensures c == out[j] && DecodeAt(Dec(budget), src, i + width, out, j + 1)
  {
    DecodeLoopStep(budget, src, i);
    if src[i] == PERCENT {
      c, width := 16 * ValueFromHexChar(src[i + 1]) + ValueFromHexChar(src[i + 2]), 3;
    } else if src[i] == PLUS {
      c, width := SPACE, 1;
    } else {
      c, width := src[i], 1;
    }
    assert out[j..][0] == out[j] && out[j..][1..] == out[j + 1..];
  }

  /** The static percentDecode: 0 for a null destination or source; otherwise
      the loop's output is written at the destination's start and terminated
      by NUL, and its length returned. The scan must stay inside the source and
      the destination must hold what is written. */
  method PercentDecodeInto(decoded: array?<byte>, decodedLength: Size, source: Option<Bytes>)
      returns (n: nat)
    requires decoded != null && source.Some? ==> DecodeSafe(Dec(decodedLength), source.value)
    requires decoded != null && source.Some? ==>
               |DecodeLoop(Dec(decodedLength), source.value)| < decoded.Length
    modifies decoded
    ensures decoded == null || source.None? ==> n == 0
    ensures decoded != null && source.None? ==> decoded[..] == old(decoded[..])
    ensures decoded != null && source.Some? ==>
              n == |DecodeLoop(Dec(decodedLength), source.value)|
              && decoded[..n] == DecodeLoop(Dec(decodedLength), source.value)
              && decoded[n] == NUL
              && forall k :: n < k < decoded.Length ==> decoded[k] == old(decoded[k])
  {
    if decoded == null || source.None? {
      return 0;
    }
    var src := source.value;
    ghost var out := DecodeLoop(Dec(decodedLength), src);
    var i := 0;
    var j := 0;
    var budget := Dec(decodedLength);
    assert src[0..] == src;
    while i < |src| && src[i] != NUL && budget != 0
      invariant DecodeAt(budget, src, i, out, j)
      invariant forall k :: 0 <= k < j ==> decoded[k] == out[k]
      invariant forall k :: j <= k < decoded.Length ==> decoded[k] == old(decoded[k])
      decreases |src| - i
    {
      if src[i] == PERCENT && (i + 1 == |src| || src[i + 1] == NUL) {
        break;
      }
      var c, width := DecodeOne(budget, src, i, out, j);
      decoded[j] := c;
      i := i + width;
      j := j + 1;
      budget := Dec(budget);
    }
    DecodeAtEnd(budget, src, i, out, j);
    decoded[j] := NUL;
    assert decoded[..j] == out;
    return j;
  }

  /** The String wrapper of percentEncode: a buffer of 3 * length + 1
      characters, filled by the static encoder and read back up to its NUL. */
  method PercentEncode(str: Option<Bytes>) returns (r: Bytes)
    requires str.Some? ==> 3 * |str.value| + 1 < WORD_MODULUS
    ensures str.None? || str == Some([]) ==> r == []
    ensures str.Some? ==> r == PercentEncodeString(str.value)
  {
    if str.None? || |str.value| == 0 {
      return [];
    }
    var src := str.value;
    var encodedLen := 3 * |src| + 1;
    var encoded := new byte[encodedLen];
    assert PercentEncodeString(src) == EncodeLoop(Dec(encodedLen), src);
    var n := PercentEncodeInto(encoded, encodedLen, str);
    r := encoded[..n];
  }

  /** The String wrapper of percentDecode: a buffer of length + 1 bytes,
      filled by the static decoder; the written prefix is the result. */
  method PercentDecode(str: Option<Bytes>) returns (r: Bytes)
    requires str.Some? ==> Decodable(str.value)
    ensures str.None? || str == Some([]) ==> r == []
    ensures str.Some? ==> r == PercentDecodeString(str.value)
  {
    if str.None? || |str.value| == 0 {
      return [];
    }
    var len := |str.value| + 1;
    var decoded := new byte[len];
    assert PercentDecodeString(str.value) == DecodeLoop(Dec(len), str.value);
    var size := PercentDecodeInto(decoded, len, str);
    r := decoded[..size];
  }
}
