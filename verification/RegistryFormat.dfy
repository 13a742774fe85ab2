/**
 * The text of a registry value, character by character: names of types, escapes,
 * hexadecimal digits and the order of lines and bytes (APIRegistry.cpp).
 */
module RegistryFormat {
  import opened Registry

  const HEX_DIGITS := "0123456789abcdef"

  // ---------------------------------------------------------------- types and lines

  lemma TagsAre(kind: nat)
    ensures Tag(1) == "SZ" && Tag(2) == "EXPAND_SZ" && Tag(3) == "BINARY" && Tag(4) == "DWORD"
    ensures Tag(7) == "MULTI_SZ" && Tag(11) == "QWORD"
    ensures Tag(101) == "SZ_MB" && Tag(102) == "EXPAND_SZ_MB" && Tag(107) == "MULTI_SZ_MB"
    ensures kind !in {1, 2, 3, 4, 7, 11, 101, 102, 107} ==> Tag(kind) == Hex(kind)
  {
  }

  // Lower-case digits, the highest first and not zero.
  lemma {:induction false} HexOneByOne(n: nat)
    ensures n < 16 ==> Hex(n) == [HEX_DIGITS[n]]
    ensures 16 <= n ==> Hex(n) == Hex(n / 16) + [HEX_DIGITS[n % 16]]
  {
    DigitIs(n % 16);
    if n < 16 { DigitIs(n); }
  }

  lemma DigitIs(d: nat)
    requires d < 16
    ensures Digit(d) == HEX_DIGITS[d]
  {
  }

  // Name, type and payload, each on a line of its own: a number, a text and a binary value.
  lemma NumberFileIs(cv: Conversion, name: string, a: char, b: char, c: char, d: char)
    requires a < 256 as char && b < 256 as char && c < 256 as char && d < 256 as char
    ensures FileText(cv, name, 4, [a, b, c, d])
            == name + "\n" + ("DWORD" + "\n"
               + (Hex(a as nat + 256 * b as nat + 65536 * c as nat + 16777216 * d as nat) + "\n"))
  {
    LowByteFirst(a, b, c, d);
    hide Hex, Number;
    assert [a, b, c, d][..4] == [a, b, c, d];
  }

  lemma TextFileIs(cv: Conversion, name: string, data: string)
    requires Octets(data)
    ensures FileText(cv, name, 101, data) == name + "\n" + ("SZ_MB" + "\n" + (Escaped(data) + "\n"))
    ensures FileText(cv, name, 3, data) == name + "\n" + ("BINARY" + "\n" + (BinaryText(data, 0) + "\n"))
  {
    hide BinaryText, Escaped;
  }

  // ---------------------------------------------------------------- numbers

  lemma LowByteFirst(a: char, b: char, c: char, d: char)
    requires a < 256 as char && b < 256 as char && c < 256 as char && d < 256 as char
    ensures Octets([a, b, c, d])
    ensures Number([a, b, c, d]) == a as nat + 256 * b as nat + 65536 * c as nat + 16777216 * d as nat
  {
    assert [a, b, c, d][1..] == [b, c, d] && [b, c, d][1..] == [c, d] && [c, d][1..] == [d] && [d][1..] == "";
    assert Number([d]) == d as nat;
    assert Number([c, d]) == c as nat + 256 * d as nat;
    assert Number([b, c, d]) == b as nat + 256 * c as nat + 65536 * d as nat;
  }

  // ---------------------------------------------------------------- escapes

  lemma EscapedOneByOne(c: char, s: string)
    ensures Escaped("") == ""
    ensures Escaped([c] + s)
            == (if c == '\\' then "\\\\" else if c == 13 as char then "\\r" else if c == 10 as char then "\\n"
                else if c == 0 as char then (if s == "" then "\\0" else "\\0" + [10 as char]) else [c]) + Escaped(s)
  {
    assert ([c] + s)[1..] == s;
  }

  lemma UnescapedOneByOne(c: char, s: string)
    ensures Unescaped("") == "" && Unescaped("\\") == ""
    ensures Unescaped(['\\', c] + s)
            == [if c == 'r' then 13 as char else if c == 'n' then 10 as char else if c == '0' then 0 as char else c]
               + Unescaped(s)
    ensures c in {10 as char, 13 as char, 0 as char} ==> Unescaped([c] + s) == Unescaped(s)
    ensures c !in {'\\', 10 as char, 13 as char, 0 as char} ==> Unescaped([c] + s) == [c] + Unescaped(s)
  {
    assert (['\\', c] + s)[2..] == s && ([c] + s)[1..] == s;
  }

  // ---------------------------------------------------------------- binary values

  // Where byte j stands in the text of the bytes from i on.
  function Place(i: nat, j: nat): int { 3 * (j - i) + j / 16 - if i == 0 then 0 else (i - 1) / 16 }

  // Two digits and a blank for each byte, and a line break before every sixteenth.
  lemma {:induction false} BinaryAt(data: string, i: nat, j: nat)
    requires Octets(data) && i <= j < |data|
    ensures var s, p := BinaryText(data, i), Place(i, j);
            && 0 <= p && p + 2 < |s|
            && s[p] == HEX_DIGITS[data[j] as nat / 16] && s[p + 1] == HEX_DIGITS[data[j] as nat % 16] && s[p + 2] == ' '
            && (j > 0 && j % 16 == 0 ==> p > 0 && s[p - 1] == '\n')
    decreases j - i
  {
    TextFrom(data, i);
    var br, byte, rest := LineBreak(i), HexByte(data[i]), BinaryText(data, i + 1);
    DigitIs(data[i] as nat / 16);
    DigitIs(data[i] as nat % 16);
    PlaceStep(i, j);
    assert |byte| == 3 && (i > 0 && i % 16 == 0 ==> br == "\n");
    hide BinaryText, Digit, Place, LineBreak;
    if i < j {
      BinaryAt(data, i + 1, j);
      Behind(br, byte, rest, Place(i + 1, j));
      if Place(i + 1, j) > 0 { Behind(br, byte, rest, Place(i + 1, j) - 1); }
    }
  }

  lemma Behind(x: string, y: string, z: string, k: nat)
    requires k < |z|
    ensures |x| + |y| + k < |x + (y + z)| && (x + (y + z))[|x| + |y| + k] == z[k]
  {
  }

  lemma PlaceStep(i: nat, j: nat)
    requires i <= j
    ensures i < j ==> Place(i, j) == |LineBreak(i)| + 3 + Place(i + 1, j) && Place(i + 1, j) >= 0
    ensures Place(i, i) == |LineBreak(i)|
  {
    assert i > 0 ==> i / 16 - (i - 1) / 16 == if i % 16 == 0 then 1 else 0;
    assert i / 16 <= j / 16;
  }
}
