/** The text check on the domain option (`src/netstack/dhcp.rs`), against Unicode itself. */
module DomainText {
  import opened Bytes
  import opened DhcpMessage

  /** A Unicode scalar value: any code point but the surrogates. */
  predicate IsScalar(c: int) {
    0 <= c < 0xD800 || 0xE000 <= c < 0x11_0000
  }

  /** Its encoding by section 3 of RFC 3629. */
  function Encoded(c: int): bytes
    requires IsScalar(c)
  {
    if c < 0x80 then [c]
    else if c < 0x800 then [0xC0 + c / 0x40, 0x80 + c % 0x40]
    else if c < 0x1_0000 then [0xE0 + c / 0x1000, 0x80 + c / 0x40 % 0x40, 0x80 + c % 0x40]
    else [0xF0 + c / 0x4_0000, 0x80 + c / 0x1000 % 0x40, 0x80 + c / 0x40 % 0x40, 0x80 + c % 0x40]
  }

  predicate AllScalars(text: seq<int>) {
    forall i :: 0 <= i < |text| ==> IsScalar(text[i])
  }

  function Text(text: seq<int>): bytes
    requires AllScalars(text)
  {
    if text == [] then [] else Encoded(text[0]) + Text(text[1..])
  }

  /** The digits of a code point in base 64. */
  lemma Digits(a: nat, b: nat, c: nat, d: nat)
    requires b < 0x40 && c < 0x40 && d < 0x40
    ensures var n := 0x4_0000 * a + 0x1000 * b + 0x40 * c + d;
            && n / 0x4_0000 == a && n / 0x1000 % 0x40 == b && n / 0x40 % 0x40 == c && n % 0x40 == d
            && n / 0x1000 == 0x40 * a + b && n / 0x40 == 0x1000 * a + 0x40 * b + c
  {
    var n := 0x4_0000 * a + 0x1000 * b + 0x40 * c + d;
    DivModUnique(n, 0x4_0000, a, 0x1000 * b + 0x40 * c + d);
    DivModUnique(n, 0x1000, 0x40 * a + b, 0x40 * c + d);
    DivModUnique(0x40 * a + b, 0x40, a, b);
    DivModUnique(n, 0x40, 0x1000 * a + 0x40 * b + c, d);
    DivModUnique(0x1000 * a + 0x40 * b + c, 0x40, 0x40 * a + b, c);
  }

  lemma HeadStays(head: bytes, rest: bytes)
    ensures (head + rest)[|head|..] == rest
    ensures forall i :: 0 <= i < |head| ==> (head + rest)[i] == head[i]
  {
  }

  /** One encoded scalar in front leaves the verdict to what follows. */
  lemma {:induction false} EncodedAccepted(c: int, rest: bytes)
    requires IsScalar(c)
    ensures Utf8(Encoded(c) + rest) == Utf8(rest)
  {
    ScalarDigits(c);
    HeadStays(Encoded(c), rest);
  }

  lemma ScalarDigits(c: int)
    requires IsScalar(c)
    ensures c == 0x4_0000 * (c / 0x4_0000) + 0x1000 * (c / 0x1000 % 0x40) + 0x40 * (c / 0x40 % 0x40) + c % 0x40
    ensures c / 0x1000 == 0x40 * (c / 0x4_0000) + c / 0x1000 % 0x40
    ensures c / 0x40 == 0x1000 * (c / 0x4_0000) + 0x40 * (c / 0x1000 % 0x40) + c / 0x40 % 0x40
  {
    var q := c / 0x40;
    var r := q / 0x40;
    DivModUnique(c, 0x1000, r, 0x40 * (q % 0x40) + c % 0x40);
    DivModUnique(c, 0x4_0000, r / 0x40, 0x1000 * (r % 0x40) + 0x40 * (q % 0x40) + c % 0x40);
  }

  lemma {:induction false} TextAccepted(text: seq<int>)
    requires AllScalars(text)
    ensures Utf8(Text(text))
  {
    if text != [] {
      TextAccepted(text[1..]);
      EncodedAccepted(text[0], Text(text[1..]));
    }
  }

  /** Two, three or four bytes that the check lets pass are the encoding of a scalar. */
  lemma TwoBytes(x: int, y: int)
    requires 0xC2 <= x < 0xE0 && 0x80 <= y < 0xC0
    ensures var c := 0x40 * (x - 0xC0) + (y - 0x80); IsScalar(c) && Encoded(c) == [x, y]
  {
    Digits(0, 0, x - 0xC0, y - 0x80);
  }

  lemma ThreeBytes(x: int, y: int, z: int)
    requires 0xE0 <= x < 0xF0 && 0x80 <= y < 0xC0 && 0x80 <= z < 0xC0
    requires (x == 0xE0 ==> y >= 0xA0) && (x == 0xED ==> y < 0xA0)
    ensures var c := 0x1000 * (x - 0xE0) + 0x40 * (y - 0x80) + (z - 0x80); IsScalar(c) && Encoded(c) == [x, y, z]
  {
    Digits(0, x - 0xE0, y - 0x80, z - 0x80);
  }

  lemma FourBytes(x: int, y: int, z: int, w: int)
    requires 0xF0 <= x < 0xF5 && 0x80 <= y < 0xC0 && 0x80 <= z < 0xC0 && 0x80 <= w < 0xC0
    requires (x == 0xF0 ==> y >= 0x90) && (x == 0xF4 ==> y < 0x90)
    ensures var c := 0x4_0000 * (x - 0xF0) + 0x1000 * (y - 0x80) + 0x40 * (z - 0x80) + (w - 0x80);
            IsScalar(c) && Encoded(c) == [x, y, z, w]
  {
    Digits(x - 0xF0, y - 0x80, z - 0x80, w - 0x80);
  }

  /** The scalar at the front of accepted text. */
  lemma {:induction false} FrontScalar(b: bytes) returns (c: int, rest: bytes)
    requires Utf8(b) && b != []
    ensures IsScalar(c) && b == Encoded(c) + rest && Utf8(rest) && |rest| < |b|
  {
    var x := b[0] as int;
    if x < 0x80 {
      c, rest := x, b[1..];
    } else if x < 0xE0 {
      TwoBytes(x, b[1]);
      c, rest := 0x40 * (x - 0xC0) + (b[1] as int - 0x80), b[2..];
    } else if x < 0xF0 {
      ThreeBytes(x, b[1], b[2]);
      c, rest := 0x1000 * (x - 0xE0) + 0x40 * (b[1] as int - 0x80) + (b[2] as int - 0x80), b[3..];
    } else {
      FourBytes(x, b[1], b[2], b[3]);
      c := 0x4_0000 * (x - 0xF0) + 0x1000 * (b[1] as int - 0x80) + 0x40 * (b[2] as int - 0x80) + (b[3] as int - 0x80);
      rest := b[4..];
    }
  }

  lemma {:induction false} AcceptedIsText(b: bytes) returns (text: seq<int>)
    requires Utf8(b)
    ensures AllScalars(text) && b == Text(text)
    decreases |b|
  {
    if b == [] {
      text := [];
    } else {
      var c, rest := FrontScalar(b);
      var more := AcceptedIsText(rest);
      text := [c] + more;
      assert text[1..] == more;
    }
  }

  /** The check accepts exactly the encodings of sequences of Unicode scalar values. */
  lemma {:induction false} Utf8Exactly(b: bytes)
    ensures Utf8(b) <==> exists text :: AllScalars(text) && b == Text(text)
  {
    if Utf8(b) {
      var text := AcceptedIsText(b);
    }
    forall text | AllScalars(text) && b == Text(text)
      ensures Utf8(b)
    {
      TextAccepted(text);
    }
  }
}
