/**
 * The Internet checksum over split input (`src/netstack/ipv4.rs`), against the
 * flat definition of section 1 of RFC 1071.
 */
module Checksum {
  import opened Bytes

  // ----------------------------------------------------- reference definition

  /** Sum of the big-endian words of `b`; an odd last byte is padded with zero. */
  function WordSum(b: bytes): nat {
    if |b| == 0 then 0
    else if |b| == 1 then (b[0] as int) * 0x100
    else Be16At(b, 0) + WordSum(b[2..])
  }

  /** End-around carry folding down to sixteen bits. */
  function Fold(sum: nat): u16 {
    if sum < 0x1_0000 then sum else Fold(sum % 0x1_0000 + sum / 0x1_0000)
  }

  function Complement(v: u16): u16 {
    0xFFFF - v
  }

  function FlatChecksum(b: bytes): u16 {
    Complement(Fold(WordSum(b)))
  }

  lemma {:induction false} WordSumConcat(a: bytes, b: bytes)
    requires |a| % 2 == 0
    ensures WordSum(a + b) == WordSum(a) + WordSum(b)
  {
    if a == [] {
      assert a + b == b;
    } else {
      assert (a + b)[2..] == a[2..] + b;
      WordSumConcat(a[2..], b);
    }
  }

  lemma {:induction false} WordSumBound(b: bytes)
    ensures WordSum(b) <= 0xFFFF * ((|b| + 1) / 2)
  {
    if |b| >= 2 {
      WordSumBound(b[2..]);
    }
  }

  /** Folding is reduction modulo 0xFFFF that sends only zero to zero. */
  lemma {:induction false} FoldValue(sum: nat)
    ensures Fold(sum) == if sum == 0 then 0 else 1 + (sum - 1) % 0xFFFF
  {
    if sum >= 0x1_0000 {
      var next := sum % 0x1_0000 + sum / 0x1_0000;
      FoldValue(next);
      assert sum - 1 == next - 1 + sum / 0x1_0000 * 0xFFFF;
      DivModUnique(sum - 1, 0xFFFF, (next - 1) / 0xFFFF + sum / 0x1_0000, (next - 1) % 0xFFFF);
    }
  }

  /** A sum plus the complement of its own fold folds to all ones. */
  lemma FoldCancels(sum: nat, field: u16)
    requires field == Complement(Fold(sum)) || (field == 0xFFFF && Complement(Fold(sum)) == 0)
    ensures Fold(sum + field) == 0xFFFF
  {
    FoldValue(sum);
    FoldValue(sum + field);
    if sum == 0 {
      assert sum + field == 0xFFFF;
    } else {
      var r := (sum - 1) % 0xFFFF;
      var q := (sum - 1) / 0xFFFF;
      assert sum == q * 0xFFFF + r + 1;
      if field == Complement(Fold(sum)) {
        assert sum + field - 1 == q * 0xFFFF + 0xFFFE;
        DivModUnique(sum + field - 1, 0xFFFF, q, 0xFFFE);
      } else {
        assert r == 0xFFFE;
        DivModUnique(sum + field - 1, 0xFFFF, q + 1, 0xFFFE);
      }
    }
  }

  // ------------------------------------------------------ the split algorithm

  /** Running total and the odd byte waiting for its partner. */
  datatype Acc = Acc(sum: nat, carry: Option<byte>)

  function EvenPrefix(b: bytes): bytes {
    b[..|b| - |b| % 2]
  }

  function Leftover(b: bytes): Option<byte> {
    if |b| % 2 == 1 then Some(b[|b| - 1]) else None
  }

  /** One part; a waiting byte is paired with zero when the part is empty. */
  function Feed(acc: Acc, part: bytes): Acc {
    match acc.carry
    case None => Acc(acc.sum + WordSum(EvenPrefix(part)), Leftover(part))
    case Some(high) =>
      var low: byte := if part == [] then 0 else part[0];
      var rest := if part == [] then [] else part[1..];
      Acc(acc.sum + (high as int) * 0x100 + low + WordSum(EvenPrefix(rest)), Leftover(rest))
  }

  function FeedAll(acc: Acc, parts: seq<bytes>): Acc
    decreases |parts|
  {
    if parts == [] then acc else FeedAll(Feed(acc, parts[0]), parts[1..])
  }

  function Total(acc: Acc): nat {
    match acc.carry
    case None => acc.sum
    case Some(high) => acc.sum + (high as int) * 0x100
  }

  function SplitSum(parts: seq<bytes>): nat {
    Total(FeedAll(Acc(0, None), parts))
  }

  /** What the source's routine returns: the sum wraps at 32 bits before folding. */
  function PartsChecksum(parts: seq<bytes>): u16 {
    Complement(Fold(SplitSum(parts) % 0x1_0000_0000))
  }

  lemma {:induction false} FeedAllAppend(acc: Acc, parts: seq<bytes>, part: bytes)
    ensures FeedAll(acc, parts + [part]) == Feed(FeedAll(acc, parts), part)
    decreases |parts|
  {
    if parts == [] {
      assert parts + [part] == [part];
      assert [part][1..] == [];
    } else {
      assert (parts + [part])[1..] == parts[1..] + [part];
      FeedAllAppend(Feed(acc, parts[0]), parts[1..], part);
    }
  }

  lemma WrapAdd(exact: nat, w: nat)
    ensures (exact % 0x1_0000_0000 + w) % 0x1_0000_0000 == (exact + w) % 0x1_0000_0000
  {
  }

  lemma WordSumNext(b: bytes, k: nat)
    requires k % 2 == 0 && k + 2 <= |b|
    ensures WordSum(b[..k + 2]) == WordSum(b[..k]) + Be16At(b, k)
  {
    var pair := b[k..k + 2];
    WordSumConcat(b[..k], pair);
    assert b[..k] + pair == b[..k + 2];
    assert WordSum(pair) == Be16At(pair, 0) + WordSum(pair[2..]);
    assert pair[2..] == [];
  }

  /** The sixteen-bit words of `b` added in turn, wrapping at 32 bits. */
  method AddWords(start: u32, b: bytes) returns (sum: u32)
    ensures sum == (start + WordSum(EvenPrefix(b))) % 0x1_0000_0000
  {
    sum := start;
    var k := 0;
    while k + 2 <= |b|
      invariant 0 <= k <= |b| && k % 2 == 0
      invariant sum == (start + WordSum(b[..k])) % 0x1_0000_0000
    {
      WordSumNext(b, k);
      WrapAdd(start + WordSum(b[..k]), Be16At(b, k));
      sum := (sum + Be16At(b, k)) % 0x1_0000_0000;
      k := k + 2;
    }
    assert b[..k] == EvenPrefix(b);
  }

  method FoldDown(total: u32) returns (sum: u16)
    ensures sum == Fold(total)
  {
    var s: u32 := total;
    while s / 0x1_0000 != 0
      invariant Fold(s) == Fold(total)
      decreases s
    {
      s := s % 0x1_0000 + s / 0x1_0000;
    }
    sum := s;
  }

  /** One turn of the loop over the parts. */
  method AddPart(start: u32, carry: Option<byte>, part: bytes, ghost acc: Acc)
    returns (sum: u32, left: Option<byte>)
    requires start == acc.sum % 0x1_0000_0000 && carry == acc.carry
    ensures sum == Feed(acc, part).sum % 0x1_0000_0000 && left == Feed(acc, part).carry
  {
    sum := start;
    var rest := part;
    ghost var exact := acc.sum;
    if carry.Some? {
      var low: byte := if |rest| > 0 then rest[0] else 0;
      WrapAdd(exact, (carry.value as int) * 0x100 + low);
      sum := (sum + (carry.value as int) * 0x100 + low) % 0x1_0000_0000;
      exact := exact + (carry.value as int) * 0x100 + low;
      rest := if |rest| > 0 then rest[1..] else [];
    }
    WrapAdd(exact, WordSum(EvenPrefix(rest)));
    sum := AddWords(sum, rest);
    left := if |rest| % 2 == 1 then Some(rest[|rest| - 1]) else None;
  }

  /**
   * The carry-byte loop over a 32-bit accumulator. Its result is the folded
   * complement of the split sum, taken modulo 2^32.
   */
  method ComputeChecksum(parts: seq<bytes>) returns (c: u16)
    ensures c == PartsChecksum(parts)
  {
    var sum: u32 := 0;
    var carry: Option<byte> := None;
    ghost var acc := Acc(0, None);
    for i := 0 to |parts|
      invariant acc == FeedAll(Acc(0, None), parts[..i])
      invariant carry == acc.carry && sum == acc.sum % 0x1_0000_0000
    {
      FeedAllAppend(Acc(0, None), parts[..i], parts[i]);
      assert parts[..i + 1] == parts[..i] + [parts[i]];
      sum, carry := AddPart(sum, carry, parts[i], acc);
      acc := Feed(acc, parts[i]);
    }
    assert parts[..|parts|] == parts;
    if carry.Some? {
      WrapAdd(acc.sum, (carry.value as int) * 0x100);
      sum := (sum + (carry.value as int) * 0x100) % 0x1_0000_0000;
    }
    var folded := FoldDown(sum);
    c := 0xFFFF - folded;
  }

  // ------------------------------------------------------- split against flat

  /** No empty part sits between an odd-length prefix and later data. */
  predicate Seamless(parts: seq<bytes>, odd: bool) {
    parts == [] ||
    if odd && parts[0] == [] then Flatten(parts) == []
    else Seamless(parts[1..], odd != (|parts[0]| % 2 == 1))
  }

  /** The accumulator has consumed exactly `seen`. */
  ghost predicate Consumed(acc: Acc, seen: bytes) {
    acc.carry == Leftover(seen) && acc.sum == WordSum(EvenPrefix(seen))
  }

  lemma {:induction false} TotalIsWordSum(acc: Acc, seen: bytes)
    requires Consumed(acc, seen)
    ensures Total(acc) == WordSum(seen)
  {
    var even := EvenPrefix(seen);
    WordSumConcat(even, seen[|even|..]);
    assert even + seen[|even|..] == seen;
  }

  /** An even front stays in front. */
  lemma EvenFront(a: bytes, b: bytes)
    requires |a| % 2 == 0
    ensures EvenPrefix(a + b) == a + EvenPrefix(b)
    ensures Leftover(a + b) == Leftover(b)
  {
    var k := |b| - |b| % 2;
    assert |a + b| % 2 == |b| % 2;
    assert (a + b)[..|a| + k] == a + b[..k];
  }

  lemma FeedEven(acc: Acc, seen: bytes, part: bytes)
    requires Consumed(acc, seen) && |seen| % 2 == 0
    ensures Consumed(Feed(acc, part), seen + part)
  {
    assert EvenPrefix(seen) == seen;
    EvenFront(seen, part);
    WordSumConcat(seen, EvenPrefix(part));
  }

  lemma FeedOdd(acc: Acc, seen: bytes, part: bytes)
    requires Consumed(acc, seen) && |seen| % 2 == 1 && part != []
    ensures Consumed(Feed(acc, part), seen + part)
  {
    var even, rest := EvenPrefix(seen), EvenPrefix(part[1..]);
    var pair := [seen[|seen| - 1], part[0]];
    OddSplit(seen, part);
    WordSumConcat(even, pair + rest);
    WordSumConcat(pair, rest);
    assert WordSum(pair) == Be16At(pair, 0) + WordSum(pair[2..]);
    assert pair[2..] == [];
  }

  lemma Regroup(a: bytes, x: byte, y: byte, rest: bytes)
    ensures (a + [x]) + ([y] + rest) == a + ([x, y] + rest)
  {
  }

  lemma OddSplit(seen: bytes, part: bytes)
    requires |seen| % 2 == 1 && part != []
    ensures EvenPrefix(seen + part) == EvenPrefix(seen) + ([seen[|seen| - 1], part[0]] + EvenPrefix(part[1..]))
    ensures Leftover(seen + part) == Leftover(part[1..])
  {
    var even, x := seen[..|seen| - 1], seen[|seen| - 1];
    var y, rest := part[0], part[1..];
    assert seen == even + [x] && part == [y] + rest;
    Regroup(even, x, y, rest);
    EvenFront(even, [x, y] + rest);
    EvenFront([x, y], rest);
    assert EvenPrefix(seen) == even;
  }

  lemma FeedConsumes(acc: Acc, seen: bytes, part: bytes)
    requires Consumed(acc, seen)
    requires part != [] || |seen| % 2 == 0
    ensures Consumed(Feed(acc, part), seen + part)
  {
    if |seen| % 2 == 0 {
      FeedEven(acc, seen, part);
    } else {
      FeedOdd(acc, seen, part);
    }
  }

  predicate AllZero(b: bytes) {
    forall i :: 0 <= i < |b| ==> b[i] == 0
  }

  predicate AllZeroParts(parts: seq<bytes>) {
    forall i :: 0 <= i < |parts| ==> AllZero(parts[i])
  }

  lemma {:induction false} ZeroSum(b: bytes)
    requires AllZero(b)
    ensures WordSum(b) == 0
  {
    if |b| >= 2 {
      ZeroSum(b[2..]);
    }
  }

  /** Zero bytes, and empty parts among them, add nothing. */
  lemma {:induction false} ZeroTail(acc: Acc, parts: seq<bytes>)
    requires AllZeroParts(parts)
    ensures Total(FeedAll(acc, parts)) == Total(acc)
    decreases |parts|
  {
    if parts != [] {
      var part := parts[0];
      ZeroSum(EvenPrefix(part));
      if part != [] {
        ZeroSum(EvenPrefix(part[1..]));
      }
      assert WordSum([]) == 0;
      ZeroTail(Feed(acc, part), parts[1..]);
    }
  }

  lemma {:induction false} EmptyParts(parts: seq<bytes>)
    requires Flatten(parts) == []
    ensures forall i :: 0 <= i < |parts| ==> parts[i] == []
  {
    if parts != [] {
      assert parts[0] == [] && Flatten(parts[1..]) == [];
      EmptyParts(parts[1..]);
      assert forall i :: 0 < i < |parts| ==> parts[i] == parts[1..][i - 1];
    }
  }

  lemma {:induction false} FeedAllConsumes(acc: Acc, seen: bytes, parts: seq<bytes>)
    requires Consumed(acc, seen)
    requires Seamless(parts, |seen| % 2 == 1)
    ensures Total(FeedAll(acc, parts)) == WordSum(seen + Flatten(parts))
    decreases |parts|
  {
    if Flatten(parts) == [] {
      EmptyParts(parts);
      ZeroTail(acc, parts);
      TotalIsWordSum(acc, seen);
      assert seen + Flatten(parts) == seen;
    } else {
      var part := parts[0];
      FeedConsumes(acc, seen, part);
      ParityOfSum(|seen|, |part|);
      FeedAllConsumes(Feed(acc, part), seen + part, parts[1..]);
      Assoc(seen, part, Flatten(parts[1..]));
    }
  }

  lemma ParityOfSum(a: nat, b: nat)
    ensures ((a + b) % 2 == 1) == ((a % 2 == 1) != (b % 2 == 1))
  {
  }

  /** On seamless input the split sum is the word sum of the concatenation. */
  lemma {:induction false} SplitIsFlat(parts: seq<bytes>)
    requires Seamless(parts, false)
    ensures SplitSum(parts) == WordSum(Flatten(parts))
  {
    FeedAllConsumes(Acc(0, None), [], parts);
    assert [] + Flatten(parts) == Flatten(parts);
  }

  // ------------------------------------------- where split and flat disagree

  predicate SameShape(parts: seq<bytes>, other: seq<bytes>) {
    && |parts| == |other|
    && forall i :: 0 <= i < |parts| ==> |parts[i]| == |other[i]|
  }

  function Blank(parts: seq<bytes>): (w: seq<bytes>)
    ensures SameShape(parts, w)
    ensures AllZeroParts(w)
  {
    seq(|parts|, i requires 0 <= i < |parts| => Zeros(|parts[i]|))
  }

  /** Zero contents except for a one in the first byte. */
  function Marked(parts: seq<bytes>): (w: seq<bytes>)
    requires Flatten(parts) != []
    ensures SameShape(parts, w)
  {
    if parts[0] == [] then [[]] + Marked(parts[1..])
    else [[1] + Zeros(|parts[0]| - 1)] + Blank(parts[1..])
  }

  /** Zero contents except for a one in the first byte after the first gap. */
  function Witness(parts: seq<bytes>, odd: bool): (w: seq<bytes>)
    requires !Seamless(parts, odd)
    ensures SameShape(parts, w)
  {
    if odd && parts[0] == [] then Marked(parts)
    else [Zeros(|parts[0]|)] + Witness(parts[1..], odd != (|parts[0]| % 2 == 1))
  }

  lemma {:induction false} FlattenBlank(parts: seq<bytes>)
    requires AllZeroParts(parts)
    ensures AllZero(Flatten(parts))
  {
    if parts != [] {
      FlattenBlank(parts[1..]);
    }
  }

  lemma {:induction false} MarkedSums(acc: Acc, parts: seq<bytes>)
    requires Flatten(parts) != []
    requires acc.carry.None?
    ensures Total(FeedAll(acc, Marked(parts))) == acc.sum + 0x100
    ensures WordSum([0] + Flatten(Marked(parts))) == 1
    decreases |parts|
  {
    var w := Marked(parts);
    if parts[0] == [] {
      assert w[1..] == Marked(parts[1..]) && w[0] == [];
      assert WordSum([]) == 0;
      MarkedSums(acc, parts[1..]);
      assert Flatten(w) == Flatten(w[1..]);
    } else {
      var head, tail := w[0], w[1..];
      assert tail == Blank(parts[1..]);
      if |head| >= 2 {
        assert EvenPrefix(head)[2..] == EvenPrefix(head[2..]);
        ZeroSum(EvenPrefix(head[2..]));
      }
      assert Total(Feed(acc, head)) == acc.sum + 0x100;
      ZeroTail(Feed(acc, head), tail);
      FlattenBlank(tail);
      var rest := ([0] + Flatten(w))[2..];
      assert AllZero(rest);
      ZeroSum(rest);
    }
  }

  lemma {:induction false} LeadingZeros(n: nat, rest: bytes)
    ensures WordSum(Zeros(n) + rest) == WordSum(Zeros(n % 2) + rest)
  {
    if n >= 2 {
      assert (Zeros(n) + rest)[2..] == Zeros(n - 2) + rest;
      LeadingZeros(n - 2, rest);
    }
  }

  lemma FeedZeros(acc: Acc, zeros: bytes)
    requires AllZero(zeros)
    requires acc.carry.None? || (acc.carry == Some(0) && zeros != [])
    ensures Feed(acc, zeros)
         == Acc(acc.sum, if acc.carry.Some? != (|zeros| % 2 == 1) then Some(0) else None)
  {
    if acc.carry.None? {
      ZeroSum(EvenPrefix(zeros));
    } else {
      ZeroSum(EvenPrefix(zeros[1..]));
    }
  }

  /** The loop sees the marked byte as a high byte. */
  lemma {:induction false} WitnessSplit(acc: Acc, parts: seq<bytes>, odd: bool)
    requires !Seamless(parts, odd)
    requires acc.carry == if odd then Some(0) else None
    ensures Total(FeedAll(acc, Witness(parts, odd))) == acc.sum + 0x100
    decreases |parts|
  {
    var w := Witness(parts, odd);
    if odd && parts[0] == [] {
      assert w[1..] == Marked(parts[1..]) && w[0] == [];
      assert WordSum([]) == 0;
      assert Feed(acc, w[0]) == Acc(acc.sum, None);
      MarkedSums(Feed(acc, w[0]), parts[1..]);
    } else {
      var odd' := odd != (|parts[0]| % 2 == 1);
      assert w[1..] == Witness(parts[1..], odd') && w[0] == Zeros(|parts[0]|);
      FeedZeros(acc, w[0]);
      WitnessSplit(Feed(acc, w[0]), parts[1..], odd');
    }
  }

  lemma ZerosJoin(a: nat, b: nat, rest: bytes)
    ensures Zeros(a) + (Zeros(b) + rest) == Zeros(a + b) + rest
  {
    assert Zeros(a) + Zeros(b) == Zeros(a + b);
  }

  /** In the concatenation it is a low byte. */
  lemma {:induction false} WitnessFlat(parts: seq<bytes>, odd: bool)
    requires !Seamless(parts, odd)
    ensures WordSum(Zeros(if odd then 1 else 0) + Flatten(Witness(parts, odd))) == 1
    decreases |parts|
  {
    var w := Witness(parts, odd);
    var pad: nat := if odd then 1 else 0;
    var n := |parts[0]|;
    if odd && n == 0 {
      assert w[1..] == Marked(parts[1..]) && w[0] == [];
      MarkedSums(Acc(0, None), parts[1..]);
      assert Zeros(1) == [0] && Flatten(w) == [] + Flatten(w[1..]) == Flatten(w[1..]);
    } else {
      var odd' := odd != (n % 2 == 1);
      var rest := Witness(parts[1..], odd');
      assert w[1..] == rest && w[0] == Zeros(n);
      WitnessFlat(parts[1..], odd');
      ZerosJoin(pad, n, Flatten(rest));
      LeadingZeros(pad + n, Flatten(rest));
      ParityOfSum(pad, n);
    }
  }

  // ------------------------------------------------- where the sum overflows

  /** The longest input whose word sum always fits 32 bits. */
  const LONGEST: nat := 131_074

  /** Short input neither overflows the accumulator nor depends on the split. */
  lemma {:induction false} NoOverflow(parts: seq<bytes>)
    requires Seamless(parts, false)
    requires |Flatten(parts)| <= LONGEST
    ensures SplitSum(parts) < 0x1_0000_0000
    ensures PartsChecksum(parts) == FlatChecksum(Flatten(parts))
  {
    SplitIsFlat(parts);
    WordSumFits(Flatten(parts));
  }

  lemma {:induction false} WordSumFits(b: bytes)
    requires |b| <= LONGEST
    ensures WordSum(b) < 0x1_0000_0000
  {
    WordSumBound(b);
  }

  /** `flat` cut into pieces of the given lengths. */
  function Cut(parts: seq<bytes>, flat: bytes): (w: seq<bytes>)
    requires |Flatten(parts)| == |flat|
    ensures SameShape(parts, w)
    ensures Flatten(w) == flat
  {
    if parts == [] then []
    else
      var n := |parts[0]|;
      var rest := Cut(parts[1..], flat[n..]);
      assert ([flat[..n]] + rest)[1..] == rest;
      [flat[..n]] + rest
  }

  function AllOnes(words: nat): (b: bytes)
    ensures |b| == 2 * words
    ensures WordSum(b) == 0xFFFF * words
  {
    if words == 0 then []
    else
      var rest := AllOnes(words - 1);
      assert ([0xFF, 0xFF] + rest)[2..] == rest;
      [0xFF, 0xFF] + rest
  }

  /** As many all-ones words as fit, then a one in a high byte, then zeros. */
  function Overflowing(n: nat): (b: bytes)
    requires n > LONGEST
    ensures |b| == n
    ensures WordSum(b) == 0x1_0000_0000 + 0xFF
  {
    var ones, tail := AllOnes(65_537), [1] + Zeros(n - LONGEST - 1);
    WordSumConcat(ones, tail);
    MarkSum(tail);
    ones + tail
  }

  lemma {:induction false} MarkSum(tail: bytes)
    requires tail != [] && tail[0] == 1 && AllZero(tail[1..])
    ensures WordSum(tail) == 0x100
  {
    if |tail| >= 2 {
      assert tail[1] == tail[1..][0] == 0;
      assert forall i :: 0 <= i < |tail[2..]| ==> tail[2..][i] == tail[1..][i + 1];
      ZeroSum(tail[2..]);
    }
  }

  /** Wrapping at 32 bits loses the carry that folding would have kept. */
  lemma WrapIsSeen()
    ensures Fold((0x1_0000_0000 + 0xFF) % 0x1_0000_0000) != Fold(0x1_0000_0000 + 0xFF)
  {
    FoldValue(0xFF);
    FoldValue(0x1_0000_0000 + 0xFF);
  }

  /** Of every longer seamless list of lengths, some content overflows. */
  lemma {:induction false} LongDisagrees(parts: seq<bytes>)
    requires Seamless(parts, false) && |Flatten(parts)| > LONGEST
    ensures exists other :: SameShape(parts, other) && PartsChecksum(other) != FlatChecksum(Flatten(other))
  {
    var flat := Overflowing(|Flatten(parts)|);
    var other := Cut(parts, flat);
    SeamlessByShape(parts, other, false);
    SplitIsFlat(other);
    WrapIsSeen();
    assert SameShape(parts, other);
  }

  lemma {:induction false} GapDisagrees(parts: seq<bytes>)
    requires !Seamless(parts, false)
    ensures exists other :: SameShape(parts, other) && PartsChecksum(other) != FlatChecksum(Flatten(other))
  {
    var other := Witness(parts, false);
    WitnessSplit(Acc(0, None), parts, false);
    WitnessFlat(parts, false);
    assert Zeros(0) + Flatten(other) == Flatten(other);
    assert Fold(0x100) != Fold(1);
    assert SameShape(parts, other);
  }

  /**
   * What the routine returns is the checksum of the concatenation, on every
   * content of a list of part lengths, exactly when no empty part sits between
   * an odd prefix and later data and the lengths add up to at most 131074.
   */
  lemma {:induction false} SplitExactly(parts: seq<bytes>)
    ensures Seamless(parts, false) && |Flatten(parts)| <= LONGEST
       <==> forall other :: SameShape(parts, other) ==> PartsChecksum(other) == FlatChecksum(Flatten(other))
  {
    if !Seamless(parts, false) {
      GapDisagrees(parts);
    } else if |Flatten(parts)| > LONGEST {
      LongDisagrees(parts);
    } else {
      forall other | SameShape(parts, other)
        ensures PartsChecksum(other) == FlatChecksum(Flatten(other))
      {
        SeamlessByShape(parts, other, false);
        NoOverflow(other);
      }
    }
  }

  lemma {:induction false} SeamlessByShape(parts: seq<bytes>, other: seq<bytes>, odd: bool)
    requires SameShape(parts, other)
    ensures Seamless(parts, odd) == Seamless(other, odd)
    ensures |Flatten(parts)| == |Flatten(other)|
    decreases |parts|
  {
    if parts != [] {
      assert SameShape(parts[1..], other[1..]);
      SeamlessByShape(parts[1..], other[1..], odd != (|parts[0]| % 2 == 1));
    }
  }

  /** The smallest gap: an empty part between two single bytes. */
  lemma GapExample()
    ensures SplitSum([[1], [], [2]]) == 0x0300 && WordSum(Flatten([[1], [], [2]])) == 0x0102
    ensures !Seamless([[1], [], [2]], false)
  {
    var parts: seq<bytes> := [[1], [], [2]];
    assert parts[1..] == [[], [2]] && parts[1..][1..] == [[2]] && parts[1..][1..][1..] == [];
    assert Feed(Acc(0, None), [1]) == Acc(0, Some(1)) by {
      assert EvenPrefix([1]) == [];
    }
    assert Feed(Acc(0, Some(1)), []) == Acc(0x100, None);
    assert Feed(Acc(0x100, None), [2]) == Acc(0x100, Some(2)) by {
      assert EvenPrefix([2]) == [];
    }
    assert FeedAll(Acc(0, None), parts) == FeedAll(Acc(0x100, None), [[2]]);
    assert FeedAll(Acc(0x100, None), [[2]]) == FeedAll(Acc(0x100, Some(2)), []);
    assert Flatten([[2]]) == [2] + Flatten([]);
    assert Flatten(parts[1..]) == [] + Flatten([[2]]);
    assert Flatten(parts) == [1, 2];
    assert [1, 2][2..] == [];
  }
}
