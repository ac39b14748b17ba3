/** String literals of the emitted C: what a C compiler reads back from one, trigraphs being off or already
    replaced, is the string written. */
module CString {
  import opened Common

  type Byte = b: int | 0 <= b < 256 witness 0

  const QUOTE := 34
  const BACKSLASH := 92

  function Digit(d: nat): Byte
    requires d < 8
  {
    48 + d
  }

  /** What is written for one byte of a string. */
  function Escape(b: Byte): seq<Byte> {
    if b == QUOTE then [BACKSLASH, QUOTE]
    else if b == BACKSLASH then [BACKSLASH, BACKSLASH]
    else if b == 10 then [BACKSLASH, 110]
    else if b == 9 then [BACKSLASH, 116]
    else if b == 13 then [BACKSLASH, 114]
    else if 0x20 <= b < 0x7f then [b]
    else [BACKSLASH, Digit(b / 64), Digit(b / 8 % 8), Digit(b % 8)]
  }

  function Escaped(s: seq<Byte>): seq<Byte> {
    if s == [] then [] else Escaped(s[..|s| - 1]) + Escape(s[|s| - 1])
  }

  lemma EscapedNone()
    ensures Escaped([]) == []
  {
  }

  lemma EscapedNext(s: seq<Byte>, i: nat)
    requires i < |s|
    ensures Escaped(s[..i + 1]) == Escaped(s[..i]) + Escape(s[i])
  {
    assert s[..i + 1][..i] == s[..i];
  }

  /** The printer appends byte by byte; a string ends at its NUL, so it has none. */
  method EmitCString(s: seq<Byte>) returns (out: seq<Byte>)
    requires 0 !in s
    ensures out == [QUOTE] + Escaped(s) + [QUOTE]
    ensures out[0] == QUOTE && Read(out[1..]) == Some(s)
  {
    hide Escaped, Read;
    RoundTrip(s);
    EscapedNone();
    out := [QUOTE];
    var i := 0;
    while i < |s|
      invariant i <= |s| && out == [QUOTE] + Escaped(s[..i])
    {
      var b := s[i];
      ghost var was := out;
      if b == QUOTE {
        out := out + [BACKSLASH, QUOTE];
      } else if b == BACKSLASH {
        out := out + [BACKSLASH, BACKSLASH];
      } else if b == 10 {
        out := out + [BACKSLASH, 110];
      } else if b == 9 {
        out := out + [BACKSLASH, 116];
      } else if b == 13 {
        out := out + [BACKSLASH, 114];
      } else if 0x20 <= b < 0x7f {
        out := out + [b];
      } else {
        out := out + [BACKSLASH, Digit(b / 64), Digit(b / 8 % 8), Digit(b % 8)];
      }
      assert out == was + Escape(b);
      EscapedNext(s, i);
      i := i + 1;
    }
    assert s[..i] == s;
    out := out + [QUOTE];
    assert out[1..] == Escaped(s) + [QUOTE];
  }

  // ------------------------------------------- reading a literal, as C11 6.4.4.4 and 6.4.5 say

  predicate Octal(b: Byte) {
    48 <= b < 56
  }

  /** How many octal digits an escape takes: as many as there are, up to three. */
  function OctalDigits(t: seq<Byte>): (n: nat)
    ensures n <= 3 && n <= |t|
  {
    if |t| == 0 || !Octal(t[0]) then 0
    else if |t| == 1 || !Octal(t[1]) then 1
    else if |t| == 2 || !Octal(t[2]) then 2
    else 3
  }

  function OctalValue(t: seq<Byte>): nat
    requires forall k :: 0 <= k < |t| ==> Octal(t[k])
  {
    if t == [] then 0
    else
      assert Octal(t[|t| - 1]);
      8 * OctalValue(t[..|t| - 1]) + (t[|t| - 1] as int - 48)
  }

  /** The byte one simple escape stands for. */
  function Simple(c: Byte): Option<Byte> {
    if c == QUOTE || c == 39 || c == 63 || c == BACKSLASH then Some(c)
    else if c == 97 then Some(7)
    else if c == 98 then Some(8)
    else if c == 102 then Some(12)
    else if c == 110 then Some(10)
    else if c == 114 then Some(13)
    else if c == 116 then Some(9)
    else if c == 118 then Some(11)
    else None
  }

  /** The characters of a literal after its opening quote, up to the closing one, which must be the end
      of the text. Hexadecimal escapes and universal names are not read. */
  function Read(t: seq<Byte>): Option<seq<Byte>> {
    if |t| == 0 then None
    else if t[0] == QUOTE then
      if |t| == 1 then Some([]) else None
    else if t[0] == 10 then None
    else if t[0] != BACKSLASH then Prepend(t[0], Read(t[1..]))
    else
      var n := OctalDigits(t[1..]);
      if n > 0 then
        var v := OctalValue(t[1..][..n]);
        if v < 256 then Prepend(v, Read(t[1 + n..])) else None
      else if |t| > 1 && Simple(t[1]).Some? then Prepend(Simple(t[1]).value, Read(t[2..]))
      else None
  }

  function Prepend(b: Byte, rest: Option<seq<Byte>>): Option<seq<Byte>> {
    if rest.Some? then Some([b] + rest.value) else None
  }

  /** One escaped byte is read back as that byte, whatever follows: three octal digits always end the
      escape, so that a digit of the string itself is not taken into it. */
  lemma ReadEscape(b: Byte, rest: seq<Byte>)
    requires b != 0
    ensures Read(Escape(b) + rest) == Prepend(b, Read(rest))
  {
    var e := Escape(b);
    var t := e + rest;
    assert t[|e|..] == rest;
    if |e| == 4 {
      assert OctalDigits(t[1..]) == 3;
      var d := t[1..][..3];
      assert d == [Digit(b / 64), Digit(b / 8 % 8), Digit(b % 8)];
      OctalOf(b);
      assert t[1 + 3..] == rest;
    } else if |e| == 2 {
      assert OctalDigits(t[1..]) == 0;
    }
  }

  lemma OctalOf(b: Byte)
    ensures OctalValue([Digit(b / 64), Digit(b / 8 % 8), Digit(b % 8)]) == b
  {
    var x, y, z := Digit(b / 64), Digit(b / 8 % 8), Digit(b % 8);
    assert [x, y, z][..2] == [x, y] && [x, y][..1] == [x] && [x][..0] == [];
    assert OctalValue([x]) == b / 64;
    assert OctalValue([x, y]) == 8 * (b / 64) + b / 8 % 8;
  }

  lemma {:induction false} ReadEscaped(s: seq<Byte>, rest: seq<Byte>)
    requires 0 !in s
    ensures Read(Escaped(s) + rest)
         == if Read(rest).Some? then Some(s + Read(rest).value) else None
  {
    hide Read, Escape;
    if s == [] {
      assert Escaped(s) + rest == rest;
      assert Read(rest).Some? ==> s + Read(rest).value == Read(rest).value;
    } else {
      var last := s[|s| - 1];
      assert Escaped(s) + rest == Escaped(s[..|s| - 1]) + (Escape(last) + rest);
      ReadEscaped(s[..|s| - 1], Escape(last) + rest);
      ReadEscape(last, rest);
      if Read(rest).Some? {
        assert s[..|s| - 1] + ([last] + Read(rest).value) == s + Read(rest).value;
      }
    }
  }

  /** Reading back the literal that `EmitCString` writes gives the string. */
  lemma RoundTrip(s: seq<Byte>)
    requires 0 !in s
    ensures Read(Escaped(s) + [QUOTE]) == Some(s)
  {
    ReadEscaped(s, [QUOTE]);
    assert s + [] == s;
  }
}
