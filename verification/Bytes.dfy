/** Bytes, fixed-width integers and the two byte orders used on the link. */
module Bytes {

  type byte = x: int | 0 <= x < 0x100
  type u16 = x: int | 0 <= x < 0x1_0000
  type u32 = x: int | 0 <= x < 0x1_0000_0000
  type bytes = seq<byte>


  datatype Option<+T> = None | Some(value: T)

  datatype Result<+T, +E> = Ok(value: T) | Err(error: E) {
    predicate IsFailure() {
      Err?
    }

    function PropagateFailure<U>(): Result<U, E>
      requires Err?
    {
      Err(error)
    }

    function Extract(): T
      requires Ok?
    {
      value
    }
  }

  function Max(a: nat, b: nat): nat {
    if a < b then b else a
  }

  function Min(a: nat, b: nat): nat {
    if a < b then a else b
  }

  function Zeros(n: nat): (z: bytes)
    ensures |z| == n
    ensures forall i :: 0 <= i < n ==> z[i] == 0
  {
    seq(n, _ => 0)
  }

  lemma Assoc<T>(a: seq<T>, b: seq<T>, c: seq<T>)
    ensures a + b + c == a + (b + c)
  {
  }

  lemma SliceOfDrop<T>(s: seq<T>, base: nat, a: nat, b: nat)
    requires base <= a <= b <= |s|
    ensures s[base..][a - base..b - base] == s[a..b]
    ensures s[base..][a - base..] == s[a..]
  {
  }

  function Flatten<T>(parts: seq<seq<T>>): seq<T> {
    if parts == [] then [] else parts[0] + Flatten(parts[1..])
  }

  lemma {:induction false} FlattenAppend<T>(parts: seq<seq<T>>, last: seq<T>)
    ensures Flatten(parts + [last]) == Flatten(parts) + last
  {
    if parts == [] {
      assert parts + [last] == [last];
      assert [last][1..] == [];
    } else {
      assert (parts + [last])[1..] == parts[1..] + [last];
      FlattenAppend(parts[1..], last);
    }
  }

  /** Quotient and remainder are the only ones in range. */
  lemma DivModUnique(n: int, d: nat, q: int, r: int)
    requires d > 0 && n == q * d + r && 0 <= r < d
    ensures n / d == q && n % d == r
  {
    var q', r' := n / d, n % d;
    assert n == q' * d + r';
    assert (q - q') * d == r' - r;
    if q > q' {
      MulAtLeast(q - q', d);
    } else if q < q' {
      MulAtLeast(q' - q, d);
    }
  }

  lemma MulAtLeast(k: int, d: nat)
    requires k >= 1
    ensures k * d >= d
  {
    assert (k - 1) * d >= 0;
  }

  lemma ModMinus(n: nat, d: nat)
    requires 0 < d <= n
    ensures (n - d) % d == n % d
  {
    var q, r := (n - d) / d, (n - d) % d;
    assert n == (q + 1) * d + r;
    DivModUnique(n, d, q + 1, r);
  }

  lemma ModSuccessor(n: nat, d: nat)
    requires d > 0
    ensures (n + 1) % d == if n % d == d - 1 then 0 else n % d + 1
  {
    var q, r := n / d, n % d;
    if r == d - 1 {
      assert n + 1 == (q + 1) * d;
      DivModUnique(n + 1, d, q + 1, 0);
    } else {
      DivModUnique(n + 1, d, q, r + 1);
    }
  }

  lemma SameRemainder(a: nat, b: nat, d: nat)
    requires d > 0 && a <= b
    ensures a % d == b % d <==> (b - a) % d == 0
  {
    var qa, qb, qc := a / d, b / d, (b - a) / d;
    if a % d == b % d {
      assert b - a == (qb - qa) * d;
      DivModUnique(b - a, d, qb - qa, 0);
    }
    if (b - a) % d == 0 {
      assert b == (qa + qc) * d + a % d;
      DivModUnique(b, d, qa + qc, a % d);
    }
  }

  /** `n` is a multiple of `p`, by counting down. */
  predicate MultipleOf(n: nat, p: nat)
    requires p > 0
  {
    n == 0 || (n >= p && MultipleOf(n - p, p))
  }

  lemma {:induction false} MultipleOfIsMod(n: nat, p: nat)
    requires p > 0
    ensures MultipleOf(n, p) <==> n % p == 0
  {
    if n >= p {
      MultipleOfIsMod(n - p, p);
      ModMinus(n, p);
    } else {
      DivModUnique(n, p, 0, n);
    }
  }

  lemma {:induction false} MultipleSum(x: nat, y: nat, p: nat)
    requires p > 0 && MultipleOf(x, p) && MultipleOf(y, p)
    ensures MultipleOf(x + y, p)
  {
    if x > 0 {
      MultipleSum(x - p, y, p);
    }
  }

  lemma {:induction false} MultipleGap(x: nat, y: nat, p: nat)
    requires p > 0 && MultipleOf(x, p) && MultipleOf(y, p) && x < y + p
    ensures x <= y
  {
    if y > 0 && x > 0 {
      MultipleGap(x - p, y - p, p);
    }
  }

  lemma {:induction false} NextIsNoMultiple(n: nat, p: nat)
    requires p >= 2 && MultipleOf(n, p)
    ensures !MultipleOf(n + 1, p)
  {
    if n > 0 {
      NextIsNoMultiple(n - p, p);
    }
  }

  // -------------------------------------------------------------- big endian

  function Be16(v: u16): (b: bytes)
    ensures |b| == 2 && Be16At(b, 0) == v
  {
    [v / 0x100, v % 0x100]
  }

  function Be16At(b: bytes, i: nat): u16
    requires i + 2 <= |b|
  {
    (b[i] as int) * 0x100 + b[i + 1]
  }

  function Be32(v: u32): (b: bytes)
    ensures |b| == 4 && Be32At(b, 0) == v
  {
    Be16(v / 0x1_0000) + Be16(v % 0x1_0000)
  }

  function Be32At(b: bytes, i: nat): u32
    requires i + 4 <= |b|
  {
    (Be16At(b, i) as int) * 0x1_0000 + Be16At(b, i + 2)
  }

  // ----------------------------------------------------------- little endian

  /** The value of a little-endian digit string. */
  function LeValue(b: bytes): nat {
    if b == [] then 0 else b[0] as int + 0x100 * LeValue(b[1..])
  }

  lemma {:induction false} LeValueOf4(b: bytes)
    requires |b| == 4
    ensures LeValue(b) == b[0] as int + 0x100 * b[1] as int
                          + 0x1_0000 * (b[2] as int + 0x100 * b[3] as int)
    ensures LeValue(b) < 0x1_0000_0000
  {
    assert b[1..][1..] == b[2..] && b[2..][1..] == b[3..] && b[3..][1..] == [];
    assert LeValue(b[3..]) == b[3] as int;
    assert LeValue(b[2..]) == b[2] as int + 0x100 * b[3] as int;
    assert LeValue(b[1..]) == b[1] as int + 0x100 * LeValue(b[2..]);
  }

  function Le32(v: u32): (b: bytes)
    ensures |b| == 4 && LeValue(b) == v
  {
    var low, high := v % 0x1_0000, v / 0x1_0000;
    var b: bytes := [low % 0x100, low / 0x100, high % 0x100, high / 0x100];
    LeValueOf4(b);
    b
  }

  function Le32At(b: bytes, i: nat): u32
    requires i + 4 <= |b|
  {
    LeValueOf4(b[i..i + 4]);
    LeValue(b[i..i + 4])
  }

  /** A run of little-endian words, the layout of every RNDIS header. */
  function LeWords(ws: seq<u32>): (b: bytes)
    ensures |b| == 4 * |ws|
  {
    if ws == [] then [] else LeWords(ws[..|ws| - 1]) + Le32(ws[|ws| - 1])
  }

  lemma LeWordsNext(ws: seq<u32>, i: nat)
    requires i < |ws|
    ensures LeWords(ws[..i + 1]) == LeWords(ws[..i]) + Le32(ws[i])
  {
    assert ws[..i + 1][..i] == ws[..i];
  }

  lemma {:induction false} LeWordsAt(ws: seq<u32>, i: nat)
    requires i < |ws|
    ensures Le32At(LeWords(ws), 4 * i) == ws[i]
  {
    var front := ws[..|ws| - 1];
    if i < |front| {
      LeWordsAt(front, i);
      assert LeWords(ws)[4 * i..4 * i + 4] == LeWords(front)[4 * i..4 * i + 4];
    } else {
      assert LeWords(ws)[4 * i..4 * i + 4] == Le32(ws[i]);
    }
  }

  // --------------------------------------------------------------- both orders

  /** Which byte of a word comes first on the wire, in each order. */
  lemma {:induction false} WireOrders(v: u32, b: bytes, i: nat)
    requires i + 4 <= |b|
    ensures Be32(v) == [v / 0x100_0000, v / 0x1_0000 % 0x100, v / 0x100 % 0x100, v % 0x100]
    ensures Le32(v) == [v % 0x100, v / 0x100 % 0x100, v / 0x1_0000 % 0x100, v / 0x100_0000]
    ensures Be16At(b, i) == 0x100 * b[i] as int + b[i + 1] as int
    ensures Be32At(b, i) == 0x100_0000 * b[i] as int + 0x1_0000 * b[i + 1] as int + 0x100 * b[i + 2] as int
                            + b[i + 3] as int
    ensures Le32At(b, i) == 0x100_0000 * b[i + 3] as int + 0x1_0000 * b[i + 2] as int + 0x100 * b[i + 1] as int
                            + b[i] as int
  {
    LeValueOf4(b[i..i + 4]);
    HalfWords(v);
  }

  /** The bytes of a word, by way of its halves. */
  lemma HalfWords(v: u32)
    ensures v / 0x1_0000 / 0x100 == v / 0x100_0000
    ensures v % 0x1_0000 / 0x100 == v / 0x100 % 0x100
    ensures v % 0x1_0000 % 0x100 == v % 0x100
  {
    var high, low := v / 0x1_0000, v % 0x1_0000;
    var a, b, c, d := high / 0x100, high % 0x100, low / 0x100, low % 0x100;
    assert v == 0x100_0000 * a + 0x1_0000 * b + 0x100 * c + d;
    DivModUnique(v, 0x100_0000, a, 0x1_0000 * b + 0x100 * c + d);
    DivModUnique(v, 0x100, 0x1_0000 * a + 0x100 * b + c, d);
    DivModUnique(0x1_0000 * a + 0x100 * b + c, 0x100, 0x100 * a + b, c);
  }
}
