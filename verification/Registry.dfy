/**
 * The text format of a registry value (APIRegistry.cpp): a line with the name,
 * a line with the type, then the payload. Bytes are characters below 256.
 */
module Registry {
  import opened Basics

  ghost predicate Octets(s: string) { forall i :: 0 <= i < |s| ==> s[i] < 256 as char }

  // ---------------------------------------------------------------- escaping

  predicate IsSpecial(c: char) { c == '\\' || c == '\r' || c == '\n' || c == '\0' }

  // What stands for the first character. A NUL that is not the last character
  // is followed by a line break for the eye.
  function EscapeCode(s: string): string
    requires s != ""
  {
    if s[0] == '\\' then "\\\\"
    else if s[0] == '\r' then "\\r"
    else if s[0] == '\n' then "\\n"
    else if s[0] == '\0' then (if |s| > 1 then "\\0\n" else "\\0")
    else [s[0]]
  }

  function Escaped(s: string): string { if s == "" then "" else EscapeCode(s) + Escaped(s[1..]) }

  function Meaning(code: char): char {
    if code == 'r' then '\r' else if code == 'n' then '\n' else if code == '0' then '\0' else code
  }

  function Unescaped(s: string): string {
    if s == "" then ""
    else if s[0] == '\\' then
      if |s| == 1 then "" else [Meaning(s[1])] + Unescaped(s[2..])
    else if IsSpecial(s[0]) then Unescaped(s[1..])
    else [s[0]] + Unescaped(s[1..])
  }

  // Unescaping undoes escaping, whatever text follows.
  lemma {:induction false} UnescapeEscaped(s: string, t: string)
    ensures Unescaped(Escaped(s) + t) == s + Unescaped(t)
  {
    hide Unescaped, EscapeCode;
    if s == "" {
      assert Escaped(s) + t == t && s + Unescaped(t) == Unescaped(t);
    } else {
      UnescapeEscaped(s[1..], t);
      UnescapeOne(s, Escaped(s[1..]) + t);
      assert Escaped(s) + t == EscapeCode(s) + (Escaped(s[1..]) + t);
      assert [s[0]] + (s[1..] + Unescaped(t)) == s + Unescaped(t);
    }
  }

  lemma UnescapeOne(s: string, rest: string)
    requires s != ""
    ensures Unescaped(EscapeCode(s) + rest) == [s[0]] + Unescaped(rest)
  {
  }

  // The escaped text holds no NUL, so it can be read back up to one.
  lemma {:induction false} EscapedHasNoNul(s: string)
    ensures '\0' !in Escaped(s)
  {
    if s != "" {
      EscapedHasNoNul(s[1..]);
      assert '\0' !in EscapeCode(s);
    }
  }

  // The loop body of RegEscape: the character at i is replaced by its code, in place.
  method EscapeAt(text: string, at: nat) returns (s: string, i: nat)
    requires at < |text|
    ensures i <= |s| && s[..i] == text[..at] + EscapeCode(text[at..]) && s[i..] == text[at + 1..]
  {
    s, i := text, at;
    ghost var before, after := text[..at], text[at + 1..];
    assert text == before + [text[at]] + after && (|text[at..]| > 1 <==> after != []);
    if IsSpecial(s[i]) {
      s := s[..i] + ['\\'] + s[i..];
      i := i + 1;
      assert s == before + ['\\', text[at]] + after;
      if s[i] == '\r' {
        s := s[i := 'r'];
        assert s == before + ['\\', 'r'] + after;
      } else if s[i] == '\n' {
        s := s[i := 'n'];
        assert s == before + ['\\', 'n'] + after;
      } else if s[i] == '\0' {
        s := s[i := '0'];
        assert s == before + ['\\', '0'] + after;
        if i + 1 != |s| {
          i := i + 1;
          s := s[..i] + ['\n'] + s[i..];
          assert s == before + ['\\', '0', '\n'] + after;
        }
      }
    }
    i := i + 1;
    assert s[..i] == before + EscapeCode(text[at..]);
  }

  // RegEscape
  method RegEscape(text: string) returns (s: string)
    ensures s == Escaped(text)
  {
    hide EscapeCode;
    s := text;
    var i := 0;
    ghost var rest := text;
    assert s[..0] + Escaped(rest) == Escaped(text);
    while i < |s|
      invariant 0 <= i <= |s| && s[i..] == rest
      invariant s[..i] + Escaped(rest) == Escaped(text)
      decreases |s| - i
    {
      ghost var done, code := s[..i], EscapeCode(rest);
      assert s[i + 1..] == rest[1..];
      s, i := EscapeAt(s, i);
      assert done + (code + Escaped(rest[1..])) == (done + code) + Escaped(rest[1..]);
      rest := rest[1..];
    }
    EscapeNothing();
    assert s[..i] + "" == s;
  }

  // The loop body of RegUnescape; 'more' says whether the loop goes on.
  method UnescapeAt(text: string, at: nat) returns (s: string, i: nat, more: bool)
    requires at < |text|
    ensures i <= |s| && (!more ==> i == |s|)
    ensures |s| - i < |text| - at
    ensures s[..i] + Unescaped(s[i..]) == text[..at] + Unescaped(text[at..])
  {
    s, i, more := text, at, true;
    ghost var done, rest := s[..i], s[i..];
    UnescapeStep(rest);
    EscapeNothing();
    hide Unescaped, Meaning;
    if s[i] == '\\' {
      s := s[..i] + s[i + 1..];
      assert s[i..] == rest[1..];
      if i == |s| {
        assert s[i..] == "" && s == done;
        return s, i, false;
      }
      s := s[i := Meaning(s[i])];
      i := i + 1;
      assert s[i..] == rest[2..] && s[..i] == done + [Meaning(rest[1])];
      assert done + ([Meaning(rest[1])] + Unescaped(rest[2..])) == s[..i] + Unescaped(rest[2..]);
    } else if s[i] == '\r' || s[i] == '\n' || s[i] == '\0' {
      s := s[..i] + s[i + 1..];
      assert s[i..] == rest[1..] && s[..i] == done;
    } else {
      i := i + 1;
      assert s[i..] == rest[1..] && s[..i] == done + [rest[0]];
      assert done + ([rest[0]] + Unescaped(rest[1..])) == s[..i] + Unescaped(rest[1..]);
    }
  }

  // RegUnescape
  method RegUnescape(text: string) returns (s: string)
    ensures s == Unescaped(text)
  {
    s := text;
    var i, more := 0, true;
    assert s[..0] + Unescaped(s[0..]) == Unescaped(text) by { assert s[0..] == text; }
    hide Unescaped;
    while more && i < |s|
      invariant 0 <= i <= |s| && (!more ==> i == |s|)
      invariant s[..i] + Unescaped(s[i..]) == Unescaped(text)
      decreases |s| - i
    {
      s, i, more := UnescapeAt(s, i);
    }
    EscapeNothing();
    assert s[i..] == "" && s[..i] + "" == s;
  }

  lemma EscapeNothing()
    ensures Escaped("") == "" == Unescaped("")
  {
  }

  lemma UnescapeStep(s: string)
    requires s != ""
    ensures Unescaped(s) ==
      if s[0] == '\\' then (if |s| == 1 then "" else [Meaning(s[1])] + Unescaped(s[2..]))
      else if IsSpecial(s[0]) then Unescaped(s[1..])
      else [s[0]] + Unescaped(s[1..])
  {
  }

  // ---------------------------------------------------------------- hexadecimal

  function Digit(d: nat): char
    requires d < 16
  {
    if d < 10 then '0' + d as char else 'a' + (d - 10) as char
  }

  predicate IsHex(c: char) { '0' <= c <= '9' || 'a' <= c <= 'f' || 'A' <= c <= 'F' }

  function DigitValue(c: char): (d: nat)
    requires IsHex(c)
    ensures d < 16
  {
    if c <= '9' then (c - '0') as nat else if c <= 'F' then (c - 'A') as nat + 10 else (c - 'a') as nat + 10
  }

  // std::hex, without leading zeros
  function Hex(n: nat): (h: string)
    ensures h != "" && (forall i :: 0 <= i < |h| ==> IsHex(h[i]) && !('A' <= h[i] <= 'F'))
  {
    if n < 16 then [Digit(n)] else Hex(n / 16) + [Digit(n % 16)]
  }

  // The value of the digits in front, on top of what was read.
  function ScanHex(s: string, acc: nat): nat {
    if s == "" || !IsHex(s[0]) then acc else ScanHex(s[1..], acc * 16 + DigitValue(s[0]))
  }

  predicate IsSpace(c: char) { c == ' ' || 9 as char <= c <= 13 as char }

  // sscanf "%x": white space, a sign, 0x, and the digits; nothing is read if there are none.
  function Scanned(s: string): Option<int> {
    if s == "" then None
    else if IsSpace(s[0]) then Scanned(s[1..])
    else if s[0] == '-' then (var v := ScannedDigits(s[1..]); if v.None? then None else Some(-v.value))
    else ScannedDigits(if s[0] == '+' then s[1..] else s)
  }

  function ScannedDigits(s: string): Option<int> {
    if s == "" || !IsHex(s[0]) then None
    else Some(ScanHex(if s[0] == '0' && |s| > 1 && (s[1] == 'x' || s[1] == 'X') then s[2..] else s, 0))
  }

  lemma DigitRoundTrip(d: nat)
    requires d < 16
    ensures IsHex(Digit(d)) && DigitValue(Digit(d)) == d
  {
  }

  lemma {:induction false} ScanHexAppend(a: string, t: string, acc: nat)
    requires forall i :: 0 <= i < |a| ==> IsHex(a[i])
    ensures ScanHex(a + t, acc) == ScanHex(t, ScanHex(a, acc))
  {
    if a == "" {
      assert a + t == t;
    } else {
      assert (a + t)[1..] == a[1..] + t;
      ScanHexAppend(a[1..], t, acc * 16 + DigitValue(a[0]));
    }
  }

  // A printed number reads back, up to the first character that is no digit.
  lemma {:induction false} HexRoundTrip(n: nat, t: string)
    requires t == "" || !IsHex(t[0])
    ensures ScanHex(Hex(n) + t, 0) == n
  {
    ScanHexAppend(Hex(n), t, 0);
    HexValueIs(n);
  }

  lemma HexIsScanned(n: nat, t: string)
    requires t == "" || t[0] == '\n'
    ensures Scanned(Hex(n) + t) == Some(n)
  {
    HexRoundTrip(n, t);
    var s, h := Hex(n) + t, Hex(n);
    assert s[0] == h[0] && (|h| > 1 ==> s[1] == h[1]);
    hide Hex, ScanHex;
  }

  lemma {:induction false} HexValueIs(n: nat)
    ensures ScanHex(Hex(n), 0) == n
  {
    DigitRoundTrip(n % 16);
    hide Digit, DigitValue;
    if n < 16 {
      assert Hex(n)[1..] == "";
    } else {
      HexValueIs(n / 16);
      ScanHexAppend(Hex(n / 16), [Digit(n % 16)], 0);
      assert [Digit(n % 16)][1..] == "";
    }
  }

  // ---------------------------------------------------------------- binary payload

  function HexByte(c: char): string
    requires c < 256 as char
  {
    [Digit(c as nat / 16), Digit(c as nat % 16), ' ']
  }

  function LineBreak(i: nat): string { if i != 0 && i % 16 == 0 then "\n" else "" }

  // RegValueSerializeBinary from byte i on: a line break before every sixteenth.
  function BinaryText(data: string, i: nat): string
    requires Octets(data) && i <= |data|
    decreases |data| - i
  {
    if i == |data| then ""
    else LineBreak(i) + (HexByte(data[i]) + BinaryText(data, i + 1))
  }

  predicate IsBlank(c: char) { c == '\n' || c == '\r' || c == ' ' }

  // The byte scanned from two characters.
  function PairValue(a: char, b: char): (c: char)
    ensures c < 256 as char
  {
    var v := Scanned([a, b]);
    if v.None? then 0 as char else (v.value % 256) as char
  }

  // The bytes RegValueDeserializeBinary finds.
  function BinaryValue(s: string): string {
    if s == "" then ""
    else if IsBlank(s[0]) then BinaryValue(s[1..])
    else if s[0] == '\0' || |s| == 1 || s[1] == '\0' then ""
    else [PairValue(s[0], s[1])] + BinaryValue(s[2..])
  }

  lemma PairRoundTrip(c: char)
    requires c < 256 as char
    ensures var a, b := Digit(c as nat / 16), Digit(c as nat % 16);
            PairValue(a, b) == c && !IsBlank(a) && a != '\0' && b != '\0'
  {
    var a, b := Digit(c as nat / 16), Digit(c as nat % 16);
    DigitRoundTrip(c as nat / 16);
    DigitRoundTrip(c as nat % 16);
    hide Digit, Scanned, DigitValue, IsHex, IsBlank;
    ScanPair(a, b);
    assert c as nat / 16 * 16 + c as nat % 16 == c as nat;
    CharOfCode(c);
  }

  lemma CharOfCode(c: char)
    requires c < 256 as char
    ensures (c as int % 256) as char == c
  {
  }

  lemma ScanPair(a: char, b: char)
    requires IsHex(a) && IsHex(b)
    ensures Scanned([a, b]) == Some(DigitValue(a) * 16 + DigitValue(b))
    ensures !IsBlank(a) && a != '\0' && b != '\0'
  {
    hide DigitValue;
    assert [a, b][1..] == [b] && [b][1..] == "";
    assert ScanHex("", DigitValue(a) * 16 + DigitValue(b)) == DigitValue(a) * 16 + DigitValue(b);
    assert ScanHex([b], DigitValue(a)) == ScanHex("", DigitValue(a) * 16 + DigitValue(b));
    assert ScanHex([a, b], 0) == ScanHex([b], DigitValue(a));
  }

  lemma HexByteReads(c: char, rest: string)
    requires c < 256 as char
    ensures BinaryValue(HexByte(c) + rest) == [c] + BinaryValue(rest)
  {
    PairRoundTrip(c);
    var s := HexByte(c) + rest;
    assert s[2..] == " " + rest && (" " + rest)[1..] == rest;
    hide PairValue, Digit;
  }

  lemma LineBreakReads(i: nat, rest: string)
    ensures BinaryValue(LineBreak(i) + rest) == BinaryValue(rest)
  {
    hide PairValue;
    var s := LineBreak(i) + rest;
    if i != 0 && i % 16 == 0 {
      assert s[1..] == rest;
    } else {
      assert s == rest;
    }
  }

  // Bytes written in hexadecimal read back, with any blanks after them.
  lemma {:induction false} BinaryRoundTrip(data: string, i: nat, t: string)
    requires Octets(data) && i <= |data| && BinaryValue(t) == ""
    ensures BinaryValue(BinaryText(data, i) + t) == data[i..]
    decreases |data| - i
  {
    hide HexByte, BinaryValue, LineBreak;
    if i == |data| {
      assert "" + t == t;
    } else {
      BinaryRoundTrip(data, i + 1, t);
      var rest := BinaryText(data, i + 1) + t;
      HexByteReads(data[i], rest);
      LineBreakReads(i, HexByte(data[i]) + rest);
      assert data[i..] == [data[i]] + data[i + 1..];
      assert BinaryText(data, i) + t == LineBreak(i) + (HexByte(data[i]) + rest);
    }
  }

  // RegValueSerializeBinary
  method SerializeBinary(data: string) returns (os: string)
    requires Octets(data)
    ensures os == BinaryText(data, 0)
  {
    hide HexByte, LineBreak, BinaryText;
    os := "";
    assert "" + BinaryText(data, 0) == BinaryText(data, 0);
    var i := 0;
    while i < |data|
      invariant 0 <= i <= |data| && os + BinaryText(data, i) == BinaryText(data, 0)
    {
      ghost var more := BinaryText(data, i + 1);
      TextFrom(data, i);
      LineBreakIs(os, i);
      assert os + (LineBreak(i) + (HexByte(data[i]) + more)) == ((os + LineBreak(i)) + HexByte(data[i])) + more;
      if i != 0 && i % 16 == 0 { os := os + "\n"; }
      os := os + HexByte(data[i]);
      i := i + 1;
    }
    NoMoreText(data, os);
  }

  lemma LineBreakIs(os: string, i: nat)
    ensures os + LineBreak(i) == if i != 0 && i % 16 == 0 then os + "\n" else os
  {
  }

  lemma NoMoreText(data: string, os: string)
    requires Octets(data)
    ensures os + BinaryText(data, |data|) == os
  {
  }

  datatype Status = Success | MoreData

  // The caller's buffer after a query: bytes that fit are stored, others only counted.
  ghost predicate Stored(d: string, was: string, cb: nat, value: string) {
    var k := if |value| < cb then |value| else cb;
    |d| == |was| && k <= |d| && d == value[..k] + was[k..]
  }

  lemma BinaryValueAt(s: string, i: nat)
    requires i <= |s|
    ensures BinaryValue(s[i..])
            == if i == |s| then ""
               else if IsBlank(s[i]) then BinaryValue(s[i + 1..])
               else if s[i] == '\0' || i + 1 == |s| || s[i + 1] == '\0' then ""
               else [PairValue(s[i], s[i + 1])] + BinaryValue(s[i + 2..])
  {
    hide PairValue;
    if i < |s| {
      assert s[i..][1..] == s[i + 1..];
      if i + 1 < |s| {
        assert s[i..][2..] == s[i + 2..];
      }
    }
  }

  // The loop over blanks.
  method SkipBlanks(s: string, at: nat) returns (i: nat)
    requires at <= |s|
    ensures at <= i <= |s| && BinaryValue(s[i..]) == BinaryValue(s[at..]) && (i < |s| ==> !IsBlank(s[i]))
  {
    hide BinaryValue;
    i := at;
    while i < |s| && IsBlank(s[i])
      invariant at <= i <= |s| && BinaryValue(s[i..]) == BinaryValue(s[at..])
    {
      BinaryValueAt(s, i);
      i := i + 1;
    }
  }

  method StoreOne(data: array<char>, cb: nat, n: nat, v: char)
    requires cb <= data.Length
    modifies data
    ensures data[..] == if n < cb then old(data[..])[n := v] else old(data[..])
  {
    if n < cb { data[n] := v; }
  }

  // RegValueDeserializeBinary; without 'want' there is no buffer.
  method DeserializeBinary(s: string, want: bool, data: array<char>, cb: nat) returns (st: Status, n: nat)
    requires cb <= data.Length
    modifies data
    ensures n == |BinaryValue(s)|
    ensures st == if want && n > cb then MoreData else Success
    ensures if want then Stored(data[..], old(data[..]), cb, BinaryValue(s)) else data[..] == old(data[..])
  {
    hide PairValue, Stored, BinaryValue, IsBlank;
    ghost var was, all := data[..], BinaryValue(s);
    ghost var done := "";
    var i := 0;
    n := 0;
    assert s[0..] == s && done + all == all;
    NothingStored(was, cb);
    while true
      invariant 0 <= i <= |s| && n == |done| && done + BinaryValue(s[i..]) == all
      invariant if want then Stored(data[..], was, cb, done) else data[..] == was
      decreases |s| - i
    {
      i := SkipBlanks(s, i);
      BinaryValueAt(s, i);
      if i == |s| || s[i] == '\0' || i + 1 == |s| || s[i + 1] == '\0' { break; }
      var v := PairValue(s[i], s[i + 1]);
      Appended(done, v, BinaryValue(s[i + 2..]));
      ghost var before := data[..];
      if want {
        StoreOne(data, cb, n, v);
        OneStored(before, data[..], was, cb, done, v);
      }
      done := done + [v];
      n := n + 1;
      i := i + 2;
    }
    assert done + "" == done;
    st := if !want || n <= cb then Success else MoreData;
  }

  lemma Appended(done: string, v: char, rest: string)
    ensures done + ([v] + rest) == (done + [v]) + rest
  {
  }

  lemma NothingStored(was: string, cb: nat)
    requires cb <= |was|
    ensures Stored(was, was, cb, "")
  {
  }

  lemma OneStored(d: string, d': string, was: string, cb: nat, done: string, v: char)
    requires Stored(d, was, cb, done) && |d'| == |d| && cb <= |d|
    requires d' == if |done| < cb then d[|done| := v] else d
    ensures Stored(d', was, cb, done + [v])
  {
  }

  // ---------------------------------------------------------------- numbers

  // A little-endian number and its bytes.
  function Number(data: string): nat
    requires Octets(data)
  {
    if data == "" then 0 else data[0] as nat + 256 * Number(data[1..])
  }

  function NumberBytes(v: nat, size: nat): (d: string)
    ensures |d| == size && Octets(d)
  {
    if size == 0 then "" else [(v % 256) as char] + NumberBytes(v / 256, size - 1)
  }

  lemma {:induction false} NumberRoundTrip(data: string)
    requires Octets(data)
    ensures NumberBytes(Number(data), |data|) == data
  {
    if data != "" {
      NumberRoundTrip(data[1..]);
      var v := Number(data);
      assert v % 256 == data[0] as nat && v / 256 == Number(data[1..]);
      assert [data[0]] + data[1..] == data;
    }
  }

  // The range of numbers of so many bytes.
  function Range(size: nat): (r: int)
    ensures r > 0
  {
    if size == 0 then 1 else 256 * Range(size - 1)
  }

  lemma {:induction false} NumberInRange(data: string)
    requires Octets(data)
    ensures Number(data) < Range(|data|)
  {
    if data != "" {
      NumberInRange(data[1..]);
    }
  }

  // ---------------------------------------------------------------- wide strings

  // Between wide characters and bytes; the library that converts is not part of this model.
  datatype Conversion = Conversion(toBytes: seq<Wchar> -> string, toWide: string -> seq<Wchar>)

  // The characters in a block of bytes, four bytes each; what is left over is dropped.
  function WideOf(data: string): seq<Wchar>
    requires Octets(data)
  {
    if |data| < 4 then []
    else
      NumberInRange(data[..4]);
      assert Range(4) == 0x1_0000_0000;
      [Number(data[..4])] + WideOf(data[4..])
  }

  function WideBytes(w: seq<Wchar>): (d: string)
    ensures |d| == 4 * |w|
  {
    if w == [] then "" else NumberBytes(w[0], 4) + WideBytes(w[1..])
  }

  lemma {:induction false} WideRoundTrip(data: string)
    requires Octets(data)
    ensures WideBytes(WideOf(data)) == data[..|data| / 4 * 4]
  {
    hide NumberBytes, Number;
    var n := |data| / 4 * 4;
    if |data| >= 4 {
      var first, rest := data[..4], data[4..];
      WideRoundTrip(rest);
      NumberRoundTrip(first);
      assert WideOf(data) == [Number(first)] + WideOf(rest);
      assert WideOf(data)[1..] == WideOf(rest);
      hide WideOf, WideBytes, Octets;
      assert |rest| / 4 * 4 == n - 4;
      assert first + rest[..n - 4] == data[..n];
    }
  }

  lemma {:induction false} BytesNumber(v: nat, size: nat)
    requires v < Range(size)
    ensures Number(NumberBytes(v, size)) == v
  {
    if size > 0 {
      BytesNumber(v / 256, size - 1);
      assert NumberBytes(v, size)[1..] == NumberBytes(v / 256, size - 1);
    }
  }

  lemma {:induction false} WideBytesUnique(v: seq<Wchar>, w: seq<Wchar>)
    requires WideBytes(v) == WideBytes(w)
    ensures v == w
  {
    assert |v| == |w|;
    if v != [] {
      assert Range(4) == 0x1_0000_0000;
      var a, b := WideBytes(v), WideBytes(w);
      assert NumberBytes(v[0], 4) == a[..4] && NumberBytes(w[0], 4) == b[..4];
      assert WideBytes(v[1..]) == a[4..] && WideBytes(w[1..]) == b[4..];
      hide WideBytes, NumberBytes, Range;
      BytesNumber(v[0], 4);
      BytesNumber(w[0], 4);
      WideBytesUnique(v[1..], w[1..]);
      assert [v[0]] + v[1..] == [w[0]] + w[1..];
    }
  }

  // ---------------------------------------------------------------- types

  const REG_SZ := 1
  const REG_EXPAND_SZ := 2
  const REG_BINARY := 3
  const REG_DWORD := 4
  const REG_MULTI_SZ := 7
  const REG_QWORD := 11
  const REG_SZ_MB := 101
  const REG_EXPAND_SZ_MB := 102
  const REG_MULTI_SZ_MB := 107

  predicate IsWide(kind: nat) { kind == REG_SZ || kind == REG_EXPAND_SZ || kind == REG_MULTI_SZ }

  predicate IsBytes(kind: nat) { kind == REG_SZ_MB || kind == REG_EXPAND_SZ_MB || kind == REG_MULTI_SZ_MB }

  // The bytes of a number type, zero for the rest.
  function NumberSize(kind: nat): nat { if kind == REG_DWORD then 4 else if kind == REG_QWORD then 8 else 0 }

  // The second line.
  function Tag(kind: nat): string {
    if kind == REG_DWORD then "DWORD"
    else if kind == REG_QWORD then "QWORD"
    else if kind == REG_SZ then "SZ"
    else if kind == REG_MULTI_SZ then "MULTI_SZ"
    else if kind == REG_EXPAND_SZ then "EXPAND_SZ"
    else if kind == REG_SZ_MB then "SZ_MB"
    else if kind == REG_MULTI_SZ_MB then "MULTI_SZ_MB"
    else if kind == REG_EXPAND_SZ_MB then "EXPAND_SZ_MB"
    else if kind == REG_BINARY then "BINARY"
    else Hex(kind)
  }

  // The tests of RegValueDeserialize: the type whose reader is used, binary for a
  // tag that is no name.
  function FormOf(tip: string): nat {
    if tip == "DWORD" then REG_DWORD
    else if tip == "QWORD" then REG_QWORD
    else if tip == "SZ" then REG_SZ
    else if tip == "MULTI_SZ" then REG_MULTI_SZ
    else if tip == "EXPAND_SZ" then REG_EXPAND_SZ
    else if tip == "SZ_MB" then REG_SZ_MB
    else if tip == "MULTI_SZ_MB" then REG_MULTI_SZ_MB
    else if tip == "EXPAND_SZ_MB" then REG_EXPAND_SZ_MB
    else REG_BINARY
  }

  // The type code reported: such a tag is a number in hexadecimal.
  function TypeOf(tip: string): nat {
    if FormOf(tip) != REG_BINARY || tip == "BINARY" || Scanned(tip).None? then FormOf(tip)
    else Scanned(tip).value % 0x1_0000_0000
  }

  // No hexadecimal number is one of the names, which are in capitals.
  lemma HexTag(h: string)
    requires h != "" && IsHex(h[0]) && !('A' <= h[0] <= 'F')
    ensures TypeOf(h) == if Scanned(h).None? then REG_BINARY else Scanned(h).value % 0x1_0000_0000
    ensures FormOf(h) == REG_BINARY
  {
  }

  predicate IsNamed(kind: nat) {
    IsWide(kind) || IsBytes(kind) || NumberSize(kind) > 0 || kind == REG_BINARY
  }

  lemma NamedTagRoundTrip(kind: nat)
    requires IsNamed(kind)
    ensures TypeOf(Tag(kind)) == FormOf(Tag(kind)) == kind && '\n' !in Tag(kind)
  {
  }

  lemma TagRoundTrip(kind: nat)
    requires kind < 0x1_0000_0000
    ensures TypeOf(Tag(kind)) == kind && '\n' !in Tag(kind)
    ensures FormOf(Tag(kind)) == if IsNamed(kind) then kind else REG_BINARY
  {
    if IsNamed(kind) {
      NamedTagRoundTrip(kind);
    } else {
      var h := Hex(kind);
      assert Tag(kind) == h;
      hide Tag, Hex, TypeOf, FormOf, Scanned;
      assert h + "" == h;
      HexIsScanned(kind, "");
      HexTag(h);
      assert '\n' !in h;
    }
  }

  // The payload, by type.
  function Payload(cv: Conversion, kind: nat, data: string): string
    requires Octets(data) && NumberSize(kind) <= |data|
  {
    if NumberSize(kind) > 0 then Hex(Number(data[..NumberSize(kind)]))
    else if IsWide(kind) then Escaped(cv.toBytes(WideOf(data)))
    else if IsBytes(kind) then Escaped(data)
    else BinaryText(data, 0)
  }

  // The value read from a payload, by the tag.
  function ValueOf(cv: Conversion, tip: string, s: string): string { ReadAs(cv, FormOf(tip), s) }

  function ReadAs(cv: Conversion, form: nat, s: string): string {
    if NumberSize(form) > 0 then
      var v := Scanned(s);
      NumberBytes(if v.None? then 0 else v.value % Range(NumberSize(form)), NumberSize(form))
    else if IsWide(form) then WideBytes(cv.toWide(Unescaped(s)))
    else if IsBytes(form) then Unescaped(s)
    else BinaryValue(s)
  }

  // What comes back of a value that was set.
  function Restored(cv: Conversion, kind: nat, data: string): string
    requires Octets(data) && NumberSize(kind) <= |data|
  {
    if NumberSize(kind) > 0 then data[..NumberSize(kind)]
    else if IsWide(kind) then WideBytes(cv.toWide(cv.toBytes(WideOf(data))))
    else data
  }

  // All of it, exactly if a number has its size, and wide text consists of whole
  // characters that survive the conversion to bytes and back.
  lemma RestoredIff(cv: Conversion, kind: nat, data: string)
    requires Octets(data) && NumberSize(kind) <= |data|
    ensures Restored(cv, kind, data) == data <==>
              && (NumberSize(kind) > 0 ==> |data| == NumberSize(kind))
              && (IsWide(kind) ==> |data| % 4 == 0 && cv.toWide(cv.toBytes(WideOf(data))) == WideOf(data))
  {
    hide WideOf, WideBytes;
    if NumberSize(kind) > 0 {
      assert |data| == NumberSize(kind) ==> data[..NumberSize(kind)] == data;
    } else if IsWide(kind) {
      WideRestoredIff(cv.toWide(cv.toBytes(WideOf(data))), data);
    }
  }

  lemma WideRestoredIff(w: seq<Wchar>, data: string)
    requires Octets(data)
    ensures WideBytes(w) == data <==> |data| % 4 == 0 && w == WideOf(data)
  {
    hide WideOf, WideBytes;
    var n := |data| / 4 * 4;
    WideRoundTrip(data);
    if |data| % 4 == 0 {
      assert n == |data| && data[..n] == data;
      if WideBytes(w) == data {
        WideBytesUnique(w, WideOf(data));
      }
    }
  }

  ghost predicate HasNumber(tip: string, s: string) {
    var size := NumberSize(FormOf(tip));
    size > 0 ==> Scanned(s).Some? && -Range(size) < Scanned(s).value < Range(size)
  }

  // A payload with the line end after it reads back as the value it was written from.
  lemma PayloadRoundTrip(cv: Conversion, kind: nat, data: string)
    requires kind < 0x1_0000_0000 && Octets(data) && NumberSize(kind) <= |data|
    ensures ValueOf(cv, Tag(kind), Payload(cv, kind, data) + "\n") == Restored(cv, kind, data)
    ensures '\0' !in Payload(cv, kind, data)
    ensures HasNumber(Tag(kind), Payload(cv, kind, data) + "\n")
  {
    TagRoundTrip(kind);
    hide Tag, FormOf, TypeOf;
    if NumberSize(kind) > 0 {
      NumberPayload(data[..NumberSize(kind)]);
    } else if IsBytes(kind) || IsWide(kind) {
      hide BinaryText, Escaped, Hex, WideBytes, WideOf, Unescaped;
      EscapedPayload(if IsWide(kind) then cv.toBytes(WideOf(data)) else data);
    } else {
      hide BinaryText, Escaped, Unescaped, Hex, WideBytes, WideOf;
      BinaryRoundTrip(data, 0, "\n");
      BinaryHasNoNul(data, 0);
      assert data[0..] == data;
    }
  }

  lemma NumberPayload(data: string)
    requires Octets(data)
    ensures var v := Scanned(Hex(Number(data)) + "\n");
            && v == Some(Number(data)) && Number(data) < Range(|data|)
            && NumberBytes(v.value % Range(|data|), |data|) == data
    ensures '\0' !in Hex(Number(data))
  {
    hide Hex, Scanned, Number, NumberBytes, Range;
    HexIsScanned(Number(data), "\n");
    NumberRoundTrip(data);
    NumberInRange(data);
    ModuloSmaller(Number(data), Range(|data|));
  }

  lemma ModuloSmaller(v: nat, n: nat)
    requires v < n
    ensures v % n == v
  {
  }

  lemma EscapedPayload(text: string)
    ensures Unescaped(Escaped(text) + "\n") == text && '\0' !in Escaped(text)
  {
    UnescapeEscaped(text, "\n");
    EscapedHasNoNul(text);
    assert Unescaped("\n") == "" && text + "" == text;
  }

  lemma TextFrom(data: string, i: nat)
    requires Octets(data) && i < |data|
    ensures BinaryText(data, i) == LineBreak(i) + (HexByte(data[i]) + BinaryText(data, i + 1))
  {
  }

  lemma {:induction false} BinaryHasNoNul(data: string, i: nat)
    requires Octets(data) && i <= |data|
    ensures '\0' !in BinaryText(data, i)
    decreases |data| - i
  {
    if i < |data| {
      BinaryHasNoNul(data, i + 1);
      PairRoundTrip(data[i]);
      hide Digit, PairValue, BinaryText;
      var more := BinaryText(data, i + 1);
      assert '\0' !in HexByte(data[i]) && '\0' !in LineBreak(i);
      hide HexByte, LineBreak;
      assert '\0' !in LineBreak(i) + (HexByte(data[i]) + more);
      TextFrom(data, i);
    }
  }

  // ---------------------------------------------------------------- the file

  // Where the first 'd' stands, or the end.
  function LineEnd(s: string, d: char): (n: nat)
    ensures n <= |s| && d !in s[..n] && (n < |s| ==> s[n] == d)
  {
    if s == "" || s[0] == d then 0
    else
      var n := LineEnd(s[1..], d);
      assert s[..n + 1] == [s[0]] + s[1..][..n];
      n + 1
  }

  // The line that starts at 'at', and where the next one starts.
  function LineAt(s: string, at: nat, d: char): string
    requires at <= |s|
  {
    s[at..][..LineEnd(s[at..], d)]
  }

  function NextLine(s: string, at: nat, d: char): (n: nat)
    requires at <= |s|
    ensures at <= n <= |s|
  {
    var n := at + LineEnd(s[at..], d);
    if n < |s| then n + 1 else n
  }

  // getline: the text up to the delimiter, which is dropped.
  method GetLine(s: string, at: nat, d: char) returns (line: string, next: nat)
    requires at <= |s|
    ensures line == LineAt(s, at, d) && next == NextLine(s, at, d)
  {
    next := at;
    while next < |s| && s[next] != d
      invariant at <= next <= |s| && d !in s[at..next]
    {
      assert s[at..next + 1] == s[at..next] + [s[next]];
      next := next + 1;
    }
    line := s[at..next];
    LineEndIs(s[at..], d, next - at);
    if next < |s| { next := next + 1; }
  }

  lemma {:induction false} LineEndIs(s: string, d: char, n: nat)
    requires n <= |s| && d !in s[..n] && (n < |s| ==> s[n] == d)
    ensures LineEnd(s, d) == n
  {
  }

  // RegSetValueEx: what ends up in the file.
  function FileText(cv: Conversion, name: string, kind: nat, data: string): string
    requires Octets(data) && NumberSize(kind) <= |data|
  {
    name + "\n" + (Tag(kind) + "\n" + (Payload(cv, kind, data) + "\n"))
  }

  datatype Entry = Entry(name: string, tag: string, payload: string)

  // CommonQueryValue's three reads.
  function Parsed(s: string): Entry {
    var second := NextLine(s, 0, '\n');
    var third := NextLine(s, second, '\n');
    Entry(LineAt(s, 0, '\n'), LineAt(s, second, '\n'), LineAt(s, third, '\0'))
  }

  // What was set is what is queried: name, type and bytes.
  lemma ValueRoundTrip(cv: Conversion, name: string, kind: nat, data: string)
    requires '\n' !in name && kind < 0x1_0000_0000 && Octets(data) && NumberSize(kind) <= |data|
    ensures var e := Parsed(FileText(cv, name, kind, data));
            && e.name == name && TypeOf(e.tag) == kind && ValueOf(cv, e.tag, e.payload) == Restored(cv, kind, data)
            && HasNumber(e.tag, e.payload)
  {
    FileParses(cv, name, kind, data);
    TagRoundTrip(kind);
    hide FileText, Parsed, Payload, ValueOf;
    PayloadRoundTrip(cv, kind, data);
  }

  lemma FileParses(cv: Conversion, name: string, kind: nat, data: string)
    requires '\n' !in name && kind < 0x1_0000_0000 && Octets(data) && NumberSize(kind) <= |data|
    ensures Parsed(FileText(cv, name, kind, data)) == Entry(name, Tag(kind), Payload(cv, kind, data) + "\n")
  {
    TagRoundTrip(kind);
    PayloadRoundTrip(cv, kind, data);
    hide Tag, TypeOf, Payload, ValueOf, Restored, HasNumber, LineAt, NextLine, NumberSize;
    LinesParse(name, Tag(kind), Payload(cv, kind, data) + "\n");
  }

  lemma LinesParse(name: string, tag: string, payload: string)
    requires '\n' !in name && '\n' !in tag && '\0' !in payload
    ensures Parsed(name + "\n" + (tag + "\n" + payload)) == Entry(name, tag, payload)
  {
    hide LineAt, NextLine;
    var s := name + "\n" + (tag + "\n" + payload);
    LineAfter("", name, '\n', tag + "\n" + payload);
    assert "" + s == s;
    LineAfter(name + "\n", tag, '\n', payload);
    LastLine(name + "\n" + (tag + "\n"), payload, '\0');
    assert s == name + "\n" + (tag + "\n") + payload;
  }

  lemma LineAfter(before: string, line: string, d: char, rest: string)
    requires d !in line
    ensures var s := before + (line + [d] + rest);
            LineAt(s, |before|, d) == line && NextLine(s, |before|, d) == |before| + |line| + 1
  {
    var s := before + (line + [d] + rest);
    assert s[|before|..] == line + [d] + rest;
    LineSplits(line, d, rest);
  }

  lemma LastLine(before: string, line: string, d: char)
    requires d !in line
    ensures LineAt(before + line, |before|, d) == line
  {
    assert (before + line)[|before|..] == line && line[..|line|] == line;
    LineEndIs(line, d, |line|);
  }

  lemma {:induction false} LineEndsBy(s: string, d: char, i: nat)
    requires i < |s| && s[i] == d
    ensures LineEnd(s, d) <= i
  {
  }

  // A name with a line break in it cannot be read back.
  lemma NameRoundTripIff(cv: Conversion, name: string, kind: nat, data: string)
    requires Octets(data) && NumberSize(kind) <= |data|
    ensures Parsed(FileText(cv, name, kind, data)).name == name <==> '\n' !in name
  {
    hide Tag, Payload, TypeOf;
    var t := Tag(kind) + "\n" + (Payload(cv, kind, data) + "\n");
    var s := name + "\n" + t;
    assert s == FileText(cv, name, kind, data) && s[0..] == s;
    if '\n' !in name {
      LineSplits(name, '\n', t);
    } else {
      var i :| 0 <= i < |name| && name[i] == '\n';
      assert s[i] == '\n';
      LineEndsBy(s, '\n', i);
    }
  }

  lemma LineSplits(a: string, d: char, rest: string)
    requires d !in a
    ensures var s := a + [d] + rest; LineEnd(s, d) == |a| && s[..|a|] == a && s[|a| + 1..] == rest
  {
    var s := a + [d] + rest;
    assert s[..|a|] == a;
    LineEndIs(s, d, |a|);
  }

  // ---------------------------------------------------------------- setting and querying

  // RegValueSerialize after the name line, RegSetValueEx around it
  method SetValue(cv: Conversion, name: string, kind: nat, data: string) returns (os: string)
    requires Octets(data) && NumberSize(kind) <= |data|
    ensures os == FileText(cv, name, kind, data)
  {
    hide Escaped, BinaryText, Hex, Tag, WideOf;
    var payload;
    if NumberSize(kind) > 0 {
      payload := Hex(Number(data[..NumberSize(kind)]));
    } else if IsWide(kind) {
      payload := RegEscape(cv.toBytes(WideOf(data)));
    } else if IsBytes(kind) {
      payload := RegEscape(data);
    } else {
      payload := SerializeBinary(data);
    }
    assert payload == Payload(cv, kind, data);
    os := name + "\n" + (Tag(kind) + "\n" + (payload + "\n"));
  }

  // A buffer holds the value, and is as it was beyond the size given for it.
  ghost predicate Received(d: string, was: string, cb: nat, value: string) {
    |value| <= cb <= |d| == |was| && d[..|value|] == value && forall k :: cb <= k < |d| ==> d[k] == was[k]
  }

  // RegValueDeserializeINT; text without a number leaves the buffer alone, and a
  // number that does not fit is undefined in sscanf
  method DeserializeInt(size: nat, s: string, want: bool, data: array<char>, cb: nat) returns (st: Status, n: nat)
    requires cb <= data.Length
    modifies data
    ensures n == size && st == if want && n > cb then MoreData else Success
    ensures want && n <= cb && Scanned(s).Some? && -Range(size) < Scanned(s).value < Range(size) ==>
              Received(data[..], old(data[..]), cb, NumberBytes(Scanned(s).value % Range(size), size))
    ensures !(want && n <= cb && Scanned(s).Some?) ==> data[..] == old(data[..])
  {
    hide Scanned, NumberBytes, Range;
    if want {
      if cb < size { return MoreData, size; }
      if Scanned(s).Some? {
        StoreBytes(NumberBytes(Scanned(s).value % Range(size), size), data, cb);
      }
    }
    return Success, size;
  }

  // memcpy
  method StoreBytes(v: string, data: array<char>, ghost cb: nat)
    requires |v| <= cb <= data.Length
    modifies data
    ensures Received(data[..], old(data[..]), cb, v)
    ensures data[|v|..] == old(data[|v|..])
  {
    var i := 0;
    while i < |v|
      invariant 0 <= i <= |v| && data[..i] == v[..i] && data[|v|..] == old(data[|v|..])
    {
      data[i] := v[i];
      assert data[..i + 1] == data[..i] + [v[i]] && v[..i + 1] == v[..i] + [v[i]];
      i := i + 1;
    }
    assert forall k :: |v| <= k < data.Length ==> data[k] == data[|v|..][k - |v|];
    assert forall k :: |v| <= k < data.Length ==> old(data[k]) == old(data[|v|..])[k - |v|];
  }

  // RegValueDeserializeMB: a NUL is added if there is room for one
  method DeserializeMB(s: string, want: bool, data: array<char>, cb: nat) returns (st: Status, n: nat)
    requires cb <= data.Length
    modifies data
    ensures n == |Unescaped(s)| && st == if want && n > cb then MoreData else Success
    ensures want && n <= cb ==> Received(data[..], old(data[..]), cb, Unescaped(s)) && (n < cb ==> data[n] == '\0')
    ensures !(want && n <= cb) ==> data[..] == old(data[..])
  {
    hide Unescaped;
    var us := RegUnescape(s);
    n := |us|;
    if want {
      if n > cb { return MoreData, n; }
      StoreBytes(us, data, cb);
      if n + 1 <= cb {
        ghost var was := data[..];
        data[n] := '\0';
        assert data[..n] == was[..n];
      }
    }
    return Success, n;
  }

  // RegValueDeserializeWide: a NUL of four bytes is added if there is room for one
  method DeserializeWide(cv: Conversion, s: string, want: bool, data: array<char>, cb: nat) returns (st: Status, n: nat)
    requires cb <= data.Length
    modifies data
    ensures var v := WideBytes(cv.toWide(Unescaped(s)));
            && n == |v| && st == (if want && n > cb then MoreData else Success)
            && (want && n <= cb ==>
                 Received(data[..], old(data[..]), cb, v) && (n + 4 <= cb ==> data[n..n + 4] == NumberBytes(0, 4)))
    ensures !(want && n <= cb) ==> data[..] == old(data[..])
  {
    hide Unescaped, WideBytes, NumberBytes;
    var us := RegUnescape(s);
    var v := WideBytes(cv.toWide(us));
    n := |v|;
    if want {
      if n > cb { return MoreData, n; }
      if n + 4 <= cb {
        StoreBytes(v + NumberBytes(0, 4), data, cb);
        assert data[..n] == data[..n + 4][..n] == v;
        assert data[n..n + 4] == data[..n + 4][n..];
      } else {
        StoreBytes(v, data, cb);
      }
    }
    return Success, n;
  }

  // RegValueDeserialize
  method Deserialize(cv: Conversion, tip: string, s: string, want: bool, data: array<char>, cb: nat)
    returns (st: Status, kind: nat, n: nat)
    requires cb <= data.Length
    modifies data
    ensures kind == TypeOf(tip) && n == |ValueOf(cv, tip, s)|
    ensures st == if want && n > cb then MoreData else Success
    ensures want && n <= cb && HasNumber(tip, s) ==> Received(data[..], old(data[..]), cb, ValueOf(cv, tip, s))
    ensures !want ==> data[..] == old(data[..])
  {
    hide TypeOf, FormOf, Scanned, Unescaped, BinaryValue, Stored, Received, WideBytes, NumberBytes, Range;
    kind := TypeOf(tip);
    var form := FormOf(tip);
    if NumberSize(form) > 0 {
      st, n := DeserializeInt(NumberSize(form), s, want, data, cb);
    } else if IsWide(form) {
      st, n := DeserializeWide(cv, s, want, data, cb);
    } else if IsBytes(form) {
      st, n := DeserializeMB(s, want, data, cb);
    } else {
      st, n := DeserializeBinary(s, want, data, cb);
      if want && n <= cb { StoredAll(data[..], old(data[..]), cb, BinaryValue(s)); }
    }
  }

  lemma StoredAll(d: string, was: string, cb: nat, value: string)
    requires Stored(d, was, cb, value) && |value| <= cb <= |was|
    ensures Received(d, was, cb, value)
  {
  }

  // CommonQueryValue on the bytes of the file
  method QueryValue(cv: Conversion, file: string, want: bool, data: array<char>, cb: nat)
    returns (st: Status, name: string, kind: nat, n: nat)
    requires cb <= data.Length
    modifies data
    ensures var e := Parsed(file);
            && name == e.name && kind == TypeOf(e.tag) && n == |ValueOf(cv, e.tag, e.payload)|
            && st == (if want && n > cb then MoreData else Success)
            && (want && n <= cb && HasNumber(e.tag, e.payload) ==>
                  Received(data[..], old(data[..]), cb, ValueOf(cv, e.tag, e.payload)))
  {
    hide TypeOf, ValueOf, LineAt, NextLine, Received, HasNumber;
    var at, tip, s;
    name, at := GetLine(file, 0, '\n');
    tip, at := GetLine(file, at, '\n');
    s, at := GetLine(file, at, '\0');
    st, kind, n := Deserialize(cv, tip, s, want, data, cb);
  }

  // Set, then query into a buffer large enough: the same name, type and bytes.
  method SetThenQuery(cv: Conversion, name: string, kind: nat, data: string, buffer: array<char>)
    returns (st: Status, name': string, kind': nat, n: nat)
    requires '\n' !in name && kind < 0x1_0000_0000 && Octets(data) && NumberSize(kind) <= |data|
    requires |Restored(cv, kind, data)| <= buffer.Length
    modifies buffer
    ensures st == Success && name' == name && kind' == kind
    ensures n == |Restored(cv, kind, data)| && buffer[..n] == Restored(cv, kind, data)
  {
    hide FileText, Parsed, ValueOf, Payload, NumberSize, Restored, HasNumber;
    ValueRoundTrip(cv, name, kind, data);
    var file := SetValue(cv, name, kind, data);
    st, name', kind', n := QueryValue(cv, file, true, buffer, buffer.Length);
  }
}
