/** The Adler-32 checksum with its modulo put off for 5552 bytes at a time, against the definition that
    reduces at every byte (section 2.2 and section 8.2 of RFC 1950). */
module Adler32 {
  import opened Bytes
  import opened Words

  const BASE: nat := 65521
  const NMAX: nat := 5552

  // ----- the definition

  datatype Sums = Sums(s1: nat, s2: nat)

  function Split(adler: u32): Sums {
    Sums(adler % 0x1_0000, adler / 0x1_0000)
  }

  function Join(s: Sums): u32
    requires s.s1 < 0x1_0000 && s.s2 < 0x1_0000
  {
    s.s2 * 0x1_0000 + s.s1
  }

  /** Both sums reduced after every byte. */
  function Update(s: Sums, buf: seq<byte>): Sums {
    if buf == [] then s
    else
      var t := Update(s, buf[..|buf| - 1]);
      var s1: nat := (t.s1 + buf[|buf| - 1]) % BASE;
      Sums(s1, (t.s2 + s1) % BASE)
  }

  function Adler(adler: u32, buf: seq<byte>): u32 {
    var s := Update(Split(adler), buf);
    Join(s)
  }

  lemma {:induction false} UpdateConcat(s: Sums, a: seq<byte>, b: seq<byte>)
    ensures Update(s, a + b) == Update(Update(s, a), b)
  {
    if b == [] {
      assert a + b == a;
    } else {
      UpdateConcat(s, a, b[..|b| - 1]);
      assert (a + b)[..|a + b| - 1] == a + b[..|b| - 1];
    }
  }

  /** Checksumming a concatenation is checksumming the parts one after the other. */
  lemma AdlerConcat(adler: u32, a: seq<byte>, b: seq<byte>)
    ensures Adler(adler, a + b) == Adler(Adler(adler, a), b)
  {
    UpdateConcat(Split(adler), a, b);
    SplitJoin(Update(Split(adler), a));
  }

  lemma SplitJoin(s: Sums)
    requires s.s1 < 0x1_0000 && s.s2 < 0x1_0000
    ensures Split(Join(s)) == s
  {
  }

  // ----- sums that are not reduced

  function Raw(s: Sums, buf: seq<byte>): Sums {
    if buf == [] then s
    else
      var t := Raw(s, buf[..|buf| - 1]);
      Sums(t.s1 + buf[|buf| - 1], t.s2 + t.s1 + buf[|buf| - 1])
  }

  function Reduce(s: Sums): Sums {
    Sums(s.s1 % BASE, s.s2 % BASE)
  }

  lemma {:induction false} RawConcat(s: Sums, a: seq<byte>, b: seq<byte>)
    ensures Raw(s, a + b) == Raw(Raw(s, a), b)
  {
    if b == [] {
      assert a + b == a;
    } else {
      RawConcat(s, a, b[..|b| - 1]);
      assert (a + b)[..|a + b| - 1] == a + b[..|b| - 1];
    }
  }

  /** Reducing once at the end is as good as reducing at every byte. */
  lemma {:induction false} ReduceLate(s: Sums, buf: seq<byte>)
    ensures Reduce(Raw(s, buf)) == Reduce(Update(s, buf))
    ensures buf != [] ==> Reduce(Raw(s, buf)) == Update(s, buf)
  {
    if buf != [] {
      var rest, b := buf[..|buf| - 1], buf[|buf| - 1];
      ReduceLate(s, rest);
      var t, u := Raw(s, rest), Update(s, rest);
      ReduceStep(t.s1, t.s2, u.s1, u.s2, b);
    }
  }

  lemma ReduceStep(x1: nat, x2: nat, y1: nat, y2: nat, b: byte)
    requires x1 % BASE == y1 % BASE && x2 % BASE == y2 % BASE
    ensures (x1 + b) % BASE == (y1 + b) % BASE
    ensures (x2 + x1 + b) % BASE == (y2 + (y1 + b) % BASE) % BASE
    ensures (x1 + b) % BASE % BASE == (x1 + b) % BASE
    ensures (x2 + x1 + b) % BASE % BASE == (x2 + x1 + b) % BASE
  {
    SameSum(x1, y1, b);
    SameSum(x2, y2, x1 + b);
    Again(y1 + b);
    Again(x1 + b);
    Again(x2 + x1 + b);
    SameSum(x1 + b, (y1 + b) % BASE, y2);
  }

  lemma Again(x: nat)
    ensures x % BASE % BASE == x % BASE
  {
  }

  lemma SameSum(x: nat, y: nat, c: nat)
    requires x % BASE == y % BASE
    ensures (x + c) % BASE == (y + c) % BASE
  {
  }

  /** Twice what `n` bytes can add to the second sum when the first is `x`. */
  function Growth(n: nat, x: nat): nat {
    n * (2 * x + 255 * (n + 1))
  }

  /** No sum wraps in the next `n` bytes, whatever they are. */
  predicate Room(s: Sums, n: nat) {
    s.s1 + 255 * n < 0x1_0000_0000 && 2 * s.s2 + Growth(n, s.s1) < 0x2_0000_0000
  }

  lemma RoomStep(s: Sums, b: byte, n: nat)
    requires Room(s, n + 1)
    ensures Room(Sums(s.s1 + b, s.s2 + s.s1 + b), n)
    ensures s.s2 + s.s1 + b < 0x1_0000_0000
  {
    hide Growth;
    GrowthStep(n, s.s1, b);
  }

  lemma GrowthStep(n: nat, x: nat, b: byte)
    ensures Growth(n, x + b) + 2 * (x + b) <= Growth(n + 1, x)
  {
    var y: nat := 2 * x + 255 * (n + 1);
    assert Growth(n + 1, x) == n * (y + 255) + (y + 255);
    assert n * (y + 255) == n * y + 255 * n;
    assert Growth(n, x + b) == n * (y + 2 * b) == n * y + n * (2 * b);
    Product(2 * b, 510, n);
  }

  lemma Product(a: nat, b: nat, c: nat)
    requires a <= b
    ensures a * c <= b * c
  {
    assert b * c == a * c + (b - a) * c;
  }

  lemma RoomLess(s: Sums, n: nat, m: nat)
    requires m <= n && Room(s, n)
    ensures Room(s, m)
  {
    Product(m, n, 2 * s.s1 + 255 * (m + 1));
    Product(2 * s.s1 + 255 * (m + 1), 2 * s.s1 + 255 * (n + 1), n);
  }

  lemma {:induction false} RoomLeft(s: Sums, buf: seq<byte>, n: nat)
    requires Room(s, |buf| + n)
    ensures Room(Raw(s, buf), n)
  {
    hide Room;
    if buf != [] {
      RoomLeft(s, buf[..|buf| - 1], n + 1);
      RoomStep(Raw(s, buf[..|buf| - 1]), buf[|buf| - 1], n);
    }
  }

  /** 5552 bytes fit from any start, even one that is not reduced. */
  lemma RoomForChunk(s: Sums, n: nat)
    requires s.s1 < 0x1_0000 && s.s2 < 0x1_0000 && n <= NMAX
    ensures Room(s, n)
  {
    assert Room(s, NMAX);
    RoomLess(s, NMAX, n);
  }

  // ----- closed forms

  function Total(buf: seq<byte>): nat {
    if buf == [] then 0 else Total(buf[..|buf| - 1]) + buf[|buf| - 1]
  }

  /** The first byte as often as there are bytes, and so on down to the last one once. */
  function Weighted(buf: seq<byte>): nat {
    if buf == [] then 0 else Weighted(buf[..|buf| - 1]) + Total(buf)
  }

  lemma {:induction false} RawClosed(s: Sums, buf: seq<byte>)
    ensures Raw(s, buf) == Sums(s.s1 + Total(buf), s.s2 + |buf| * s.s1 + Weighted(buf))
  {
    if buf != [] {
      RawClosed(s, buf[..|buf| - 1]);
      assert |buf| * s.s1 == (|buf| - 1) * s.s1 + s.s1;
    }
  }

  /** A byte counts in the second sum once for every byte from it to the end. */
  lemma {:induction false} WeightedFront(buf: seq<byte>)
    requires buf != []
    ensures Total(buf) == buf[0] + Total(buf[1..])
    ensures Weighted(buf) == |buf| * buf[0] + Weighted(buf[1..])
  {
    var k := |buf| - 1;
    if k > 0 {
      WeightedFront(buf[..k]);
      assert buf[..k][1..] == buf[1..][..k - 1];
      assert k * buf[0] + buf[0] == |buf| * buf[0];
    } else {
      assert buf[..0] == [] && buf[1..] == [];
    }
  }

  /** The checksum of a message in one formula: the low half is one more than the sum of its bytes, the high
      half their sum with the weights from its length down to 1 and its length, both modulo 65521. */
  lemma AdlerClosed(buf: seq<byte>)
    ensures Adler(1, buf) % 0x1_0000 == (1 + Total(buf)) % 65521
    ensures Adler(1, buf) / 0x1_0000 == (|buf| + Weighted(buf)) % 65521
  {
    hide Total, Weighted, Raw, Update;
    ReduceLate(Sums(1, 0), buf);
    RawClosed(Sums(1, 0), buf);
    if buf == [] {
      UpdateNothing(Sums(1, 0), buf);
    }
    SplitJoin(Update(Sums(1, 0), buf));
  }

  // ----- the loops

  method Do1(buf: array<byte>, i: nat, s1: u32, s2: u32) returns (t1: u32, t2: u32)
    requires i < buf.Length && Room(Sums(s1, s2), 1)
    ensures Sums(t1, t2) == Raw(Sums(s1, s2), buf[i..i + 1])
  {
    RoomStep(Sums(s1, s2), buf[i], 0);
    t1 := s1 + buf[i];
    t2 := s2 + t1;
    assert buf[i..i + 1][..0] == [];
  }

  /** Two runs of `n` bytes, one after the other. */
  lemma Twice(s: Sums, buf: seq<byte>, i: nat, n: nat)
    requires i + 2 * n <= |buf| && Room(s, 2 * n)
    ensures Room(s, n) && Room(Raw(s, buf[i..i + n]), n)
    ensures Raw(s, buf[i..i + 2 * n]) == Raw(Raw(s, buf[i..i + n]), buf[i + n..i + 2 * n])
  {
    hide Raw;
    RoomLess(s, 2 * n, n);
    RoomLeft(s, buf[i..i + n], n);
    RawConcat(s, buf[i..i + n], buf[i + n..i + 2 * n]);
    assert buf[i..i + n] + buf[i + n..i + 2 * n] == buf[i..i + 2 * n];
  }

  method Do2(buf: array<byte>, i: nat, s1: u32, s2: u32) returns (t1: u32, t2: u32)
    requires i + 2 <= buf.Length && Room(Sums(s1, s2), 2)
    ensures Sums(t1, t2) == Raw(Sums(s1, s2), buf[i..i + 2])
  {
    hide Room, Raw;
    Twice(Sums(s1, s2), buf[..], i, 1);
    assert buf[..][i..i + 1] == buf[i..i + 1] && buf[..][i + 1..i + 2] == buf[i + 1..i + 2];
    assert buf[..][i..i + 2] == buf[i..i + 2];
    t1, t2 := Do1(buf, i, s1, s2);
    t1, t2 := Do1(buf, i + 1, t1, t2);
  }

  method Do4(buf: array<byte>, i: nat, s1: u32, s2: u32) returns (t1: u32, t2: u32)
    requires i + 4 <= buf.Length && Room(Sums(s1, s2), 4)
    ensures Sums(t1, t2) == Raw(Sums(s1, s2), buf[i..i + 4])
  {
    hide Room, Raw;
    Twice(Sums(s1, s2), buf[..], i, 2);
    assert buf[..][i..i + 2] == buf[i..i + 2] && buf[..][i + 2..i + 4] == buf[i + 2..i + 4];
    assert buf[..][i..i + 4] == buf[i..i + 4];
    t1, t2 := Do2(buf, i, s1, s2);
    t1, t2 := Do2(buf, i + 2, t1, t2);
  }

  method Do8(buf: array<byte>, i: nat, s1: u32, s2: u32) returns (t1: u32, t2: u32)
    requires i + 8 <= buf.Length && Room(Sums(s1, s2), 8)
    ensures Sums(t1, t2) == Raw(Sums(s1, s2), buf[i..i + 8])
  {
    hide Room, Raw;
    Twice(Sums(s1, s2), buf[..], i, 4);
    assert buf[..][i..i + 4] == buf[i..i + 4] && buf[..][i + 4..i + 8] == buf[i + 4..i + 8];
    assert buf[..][i..i + 8] == buf[i..i + 8];
    t1, t2 := Do4(buf, i, s1, s2);
    t1, t2 := Do4(buf, i + 4, t1, t2);
  }

  method Do16(buf: array<byte>, i: nat, s1: u32, s2: u32) returns (t1: u32, t2: u32)
    requires i + 16 <= buf.Length && Room(Sums(s1, s2), 16)
    ensures Sums(t1, t2) == Raw(Sums(s1, s2), buf[i..i + 16])
  {
    hide Room, Raw;
    Twice(Sums(s1, s2), buf[..], i, 8);
    assert buf[..][i..i + 8] == buf[i..i + 8] && buf[..][i + 8..i + 16] == buf[i + 8..i + 16];
    assert buf[..][i..i + 16] == buf[i..i + 16];
    t1, t2 := Do8(buf, i, s1, s2);
    t1, t2 := Do8(buf, i + 8, t1, t2);
  }

  /** The sums over `buf[from..to]`, when the first part is already in. */
  lemma More(s: Sums, buf: seq<byte>, from: nat, i: nat, to: nat)
    requires from <= i <= to <= |buf|
    ensures Raw(s, buf[from..to]) == Raw(Raw(s, buf[from..i]), buf[i..to])
  {
    hide Raw;
    RawConcat(s, buf[from..i], buf[i..to]);
    assert buf[from..i] + buf[i..to] == buf[from..to];
  }

  method Chunk(buf: array<byte>, from: nat, n: nat, s1: u32, s2: u32) returns (t1: u32, t2: u32)
    requires from + n <= buf.Length && Room(Sums(s1, s2), n)
    ensures Sums(t1, t2) == Raw(Sums(s1, s2), buf[from..from + n])
  {
    hide Room, Raw;
    ghost var s := Sums(s1, s2);
    var at, k := from, n;
    t1, t2 := s1, s2;
    RawNothing(s, buf[from..from]);
    while k >= 16
      invariant at + k == from + n && from <= at
      invariant Room(Sums(t1, t2), k) && Sums(t1, t2) == Raw(s, buf[from..at])
    {
      Advance(s, buf, from, at, at + 16, k - 16);
      RoomLess(Sums(t1, t2), k, 16);
      t1, t2 := Do16(buf, at, t1, t2);
      at := at + 16;
      k := k - 16;
    }
    while k > 0
      invariant at + k == from + n && from <= at
      invariant Room(Sums(t1, t2), k) && Sums(t1, t2) == Raw(s, buf[from..at])
    {
      Advance(s, buf, from, at, at + 1, k - 1);
      RoomLess(Sums(t1, t2), k, 1);
      t1, t2 := Do1(buf, at, t1, t2);
      at := at + 1;
      k := k - 1;
    }
  }

  lemma RawNothing(s: Sums, buf: seq<byte>)
    requires buf == []
    ensures Raw(s, buf) == s
  {
  }

  lemma Advance(s: Sums, buf: array<byte>, from: nat, i: nat, j: nat, n: nat)
    requires from <= i <= j <= buf.Length && Room(Raw(s, buf[from..i]), j - i + n)
    ensures Raw(s, buf[from..j]) == Raw(Raw(s, buf[from..i]), buf[i..j])
    ensures Room(Raw(s, buf[from..j]), n)
  {
    hide Raw, Room;
    More(s, buf[..], from, i, j);
    assert buf[..][from..j] == buf[from..j] && buf[..][from..i] == buf[from..i] && buf[..][i..j] == buf[i..j];
    RoomLeft(Raw(s, buf[from..i]), buf[i..j], n);
  }

  /** `lzo_adler32`. Every sum stays within 32 bits: `u32` has no room for one that does not. */
  method Checksum(adler: u32, buf: array?<byte>, len: nat) returns (r: u32)
    requires buf != null ==> len <= buf.Length
    ensures r == if buf == null then 1 else Adler(adler, buf[..len])
  {
    hide Room, Raw, Update;
    var s1: u32, s2: u32 := adler % 0x1_0000, adler / 0x1_0000 % 0x1_0000;
    if buf == null {
      return 1;
    }
    var at: nat, left: nat := 0, len;
    UpdateNothing(Split(adler), buf[..0]);
    while left > 0
      invariant at + left == len
      invariant s1 < 0x1_0000 && s2 < 0x1_0000
      invariant Sums(s1, s2) == Update(Split(adler), buf[..at])
    {
      var k := if left < NMAX then left else NMAX;
      left := left - k;
      RoomForChunk(Sums(s1, s2), k);
      ReduceLate(Sums(s1, s2), buf[at..at + k]);
      UpdateConcat(Split(adler), buf[..at], buf[at..at + k]);
      assert buf[..at] + buf[at..at + k] == buf[..at + k];
      s1, s2 := Chunk(buf, at, k, s1, s2);
      at := at + k;
      s1 := s1 % BASE;
      s2 := s2 % BASE;
    }
    r := s2 * 0x1_0000 + s1;
  }

  lemma UpdateNothing(s: Sums, buf: seq<byte>)
    requires buf == []
    ensures Update(s, buf) == s
  {
  }
}
