/** The QuickLZ level 3 format: items in groups of thirty-one behind a control word whose highest
    bit is a sentinel. */
module QlzFormat {
  import opened Bytes
  import opened Words
  import opened Lz77

  const GROUP: nat := 31
  const TOP_BIT: nat := 0x8000_0000
  const MIN_OFFSET: nat := 3
  const MAX_OFFSET: nat := 131070
  const MAX_LEN: nat := 255

  datatype Item = Lit(b: byte) | Match(off: nat, len: nat)

  // ----- what items mean

  ghost predicate Fits(out: seq<byte>, x: Item) {
    x.Match? ==> MIN_OFFSET <= x.off <= |out| && x.off <= MAX_OFFSET && 3 <= x.len <= MAX_LEN
  }

  ghost function Apply(out: seq<byte>, x: Item): seq<byte>
    requires Fits(out, x)
  {
    if x.Lit? then out + [x.b] else CopyMatch(out, x.off, x.len)
  }

  /** The items can be played one after the other, starting from `out`, and end with `text`. */
  ghost predicate Plays(out: seq<byte>, xs: seq<Item>, text: seq<byte>)
    decreases |xs|
  {
    if xs == [] then out == text
    else Fits(out, xs[0]) && Plays(Apply(out, xs[0]), xs[1..], text)
  }

  lemma {:induction false} PlaysAppend(out: seq<byte>, xs: seq<Item>, text: seq<byte>, x: Item)
    requires Plays(out, xs, text) && Fits(text, x)
    ensures Plays(out, xs + [x], Apply(text, x))
    decreases |xs|
  {
    if xs == [] {
      assert ([x])[1..] == [];
    } else {
      PlaysAppend(Apply(out, xs[0]), xs[1..], text, x);
      assert (xs + [x])[1..] == xs[1..] + [x];
    }
  }

  function TextLen(x: Item): nat {
    if x.Lit? then 1 else x.len
  }

  /** Items from text position `p` to `q`. No match starts within the last eleven bytes of the text
      or reaches into its last four. */
  ghost predicate Placed(xs: seq<Item>, p: nat, q: nat, size: nat) {
    if xs == [] then p == q
    else
      && p < size
      && (xs[0].Match? ==> 3 <= xs[0].len && p + 11 <= size && p + xs[0].len + 4 <= size)
      && Placed(xs[1..], p + TextLen(xs[0]), q, size)
  }

  lemma {:induction false} PlacedAppend(xs: seq<Item>, p: nat, q: nat, size: nat, x: Item)
    requires Placed(xs, p, q, size) && q < size
    requires x.Match? ==> 3 <= x.len && q + 11 <= size && q + x.len + 4 <= size
    ensures Placed(xs + [x], p, q + TextLen(x), size)
  {
    if xs == [] {
      assert [x][1..] == [];
    } else {
      PlacedAppend(xs[1..], p + TextLen(xs[0]), q, size, x);
      assert (xs + [x])[1..] == xs[1..] + [x];
    }
  }

  /** The last bytes of the text have items of their own. */
  lemma {:induction false} PlacedCount(xs: seq<Item>, p: nat, size: nat)
    requires Placed(xs, p, size, size)
    ensures p <= size && (|xs| >= 4 || |xs| >= size - p)
  {
    if xs != [] {
      PlacedCount(xs[1..], p + TextLen(xs[0]), size);
    }
  }

  // ----- control words

  function Bit(x: Item): nat {
    if x.Match? then 1 else 0
  }

  /** The bits of a group, first item lowest. */
  function Bits(xs: seq<Item>): nat {
    if xs == [] then 0 else Bit(xs[0]) + 2 * Bits(xs[1..])
  }

  /** The control word being filled, as the compressor keeps it: a sentinel on its way down, the
      newest bit at the top. */
  function Filling(xs: seq<Item>): nat {
    if xs == [] then TOP_BIT
    else Filling(xs[..|xs| - 1]) / 2 + Bit(xs[|xs| - 1]) * TOP_BIT
  }

  lemma {:induction false} BitsAppend(xs: seq<Item>, x: Item)
    ensures Bits(xs + [x]) == Bits(xs) + Bit(x) * Pow2(|xs|)
  {
    if xs != [] {
      assert (xs + [x])[1..] == xs[1..] + [x];
      BitsAppend(xs[1..], x);
      var b, p := Bit(x), Pow2(|xs| - 1);
      assert 2 * (b * p) == b * (2 * p);
    }
  }

  lemma {:induction false} BitsBound(xs: seq<Item>, n: nat)
    requires |xs| <= n
    ensures Bits(xs) < Pow2(n)
  {
    if xs != [] {
      BitsBound(xs[1..], n - 1);
    }
  }

  lemma Pow2Top()
    ensures Pow2(31) == TOP_BIT
  {
    assert Pow2(8) == 256;
    Pow2Split(8, 8);
    Pow2Split(16, 8);
    Pow2Split(24, 7);
    assert Pow2(7) == 128;
  }

  /** After `k` items the sentinel is at bit `31 - k` and the items' bits are above it. */
  lemma {:induction false} FillingIs(xs: seq<Item>)
    requires |xs| <= GROUP
    ensures Filling(xs) == Pow2(GROUP - |xs|) * (1 + 2 * Bits(xs))
  {
    Pow2Top();
    if xs != [] {
      var init, x := xs[..|xs| - 1], xs[|xs| - 1];
      FillingIs(init);
      assert xs == init + [x];
      BitsAppend(init, x);
      FillingStep(|init|, Bits(init), Bit(x));
    }
  }

  lemma FillingAppend(xs: seq<Item>, x: Item)
    ensures Filling(xs + [x]) == Filling(xs) / 2 + Bit(x) * TOP_BIT
  {
    assert (xs + [x])[..|xs|] == xs;
  }

  /** The sentinel reaches the lowest bit exactly when the group is full. */
  lemma FillingFull(xs: seq<Item>)
    requires |xs| <= GROUP
    ensures Filling(xs) % 2 == 1 <==> |xs| == GROUP
    ensures |xs| == GROUP ==> Filling(xs) / 2 + TOP_BIT == Closed(xs)
  {
    hide Filling, Bits;
    FillingIs(xs);
    if |xs| < GROUP {
      EvenProduct(Pow2(GROUP - |xs| - 1), 1 + 2 * Bits(xs));
    } else {
      assert Pow2(0) == 1;
      DivMod(Filling(xs), 2, Bits(xs), 1);
    }
  }

  lemma EvenProduct(p: nat, n: nat)
    ensures 2 * p * n % 2 == 0
  {
    assert 2 * p * n == 2 * (p * n);
  }

  lemma FillingStep(k: nat, bits: nat, b: nat)
    requires k < GROUP && b <= 1
    ensures Pow2(GROUP - k) * (1 + 2 * bits) / 2 + b * Pow2(31)
         == Pow2(GROUP - k - 1) * (1 + 2 * (bits + b * Pow2(k)))
  {
    Pow2Split(GROUP - k - 1, k + 1);
    ShiftIn(Pow2(GROUP - k - 1), Pow2(k), 1 + 2 * bits, b);
  }

  lemma ShiftIn(p: nat, q: nat, n: nat, b: nat)
    requires b <= 1
    ensures 2 * p * n / 2 + b * (p * (2 * q)) == p * (n + 2 * (b * q))
  {
    Halve(p, n);
    if b == 1 {
      Distribute(p, n, 2 * q);
    }
  }

  lemma Halve(p: nat, n: nat)
    ensures 2 * p * n / 2 == p * n
  {
    assert 2 * p * n == 2 * (p * n);
  }

  lemma Distribute(p: nat, m: nat, n: nat)
    ensures p * m + p * n == p * (m + n)
  {
  }

  /** The word that goes out. */
  function Closed(xs: seq<Item>): nat {
    Bits(xs) + TOP_BIT
  }

  // ----- bytes

  /** A literal is itself; a match takes the shortest of five codes that can hold it. */
  function Code(x: Item): (c: seq<byte>)
    ensures 1 <= |c| <= 4
  {
    match x
    case Lit(b) => [b]
    case Match(off, len) =>
      if len == 3 && off <= 63 then Little(off * 4, 1)
      else if len == 3 && off <= 16383 then Little(off * 4 + 1, 2)
      else if 3 <= len <= 18 && off <= 1023 then Little((len - 3) * 4 + off * 64 + 2, 2)
      else if 3 <= len <= 33 then Little((len - 2) * 4 + off * 128 + 3, 3)
      else if 3 <= len then Little((len - 3) * 128 + off * 32768 + 3, 4)
      else [0]
  }

  /** How long the code of a match is. */
  lemma CodeForm(off: nat, len: nat)
    requires 3 <= off < 131071 && 3 <= len <= 255
    ensures |Code(Match(off, len))| ==
      if len == 3 && off <= 63 then 1
      else if (len == 3 && off <= 16383) || (len <= 18 && off <= 1023) then 2
      else if len <= 33 then 3
      else 4
  {
  }

  function Payload(xs: seq<Item>): seq<byte> {
    if xs == [] then [] else Code(xs[0]) + Payload(xs[1..])
  }

  function GroupBytes(xs: seq<Item>): seq<byte> {
    Little(Closed(xs), 4) + Payload(xs)
  }

  /** Full groups, one after the other. */
  ghost function Groups(xs: seq<Item>): seq<byte>
    requires |xs| % GROUP == 0
  {
    if xs == [] then []
    else
      var k := |xs| - GROUP;
      Groups(xs[..k]) + GroupBytes(xs[k..])
  }

  /** From here on, with `n` slots left in the control word `w`, the bytes give these items. */
  ghost predicate Reads(bytes: seq<byte>, n: nat, w: nat, xs: seq<Item>)
    decreases |xs|, if n == 0 then 1 else 0
  {
    if xs == [] then true
    else if n == 0 then
      && 4 <= |bytes| && TOP_BIT <= Get(bytes[..4]) < 2 * TOP_BIT
      && Reads(bytes[4..], GROUP, Get(bytes[..4]), xs)
    else
      && Pow2(n) <= w < 2 * Pow2(n) && w % 2 == Bit(xs[0])
      && Code(xs[0]) <= bytes
      && Reads(bytes[|Code(xs[0])|..], n - 1, w / 2, xs[1..])
  }

  lemma {:induction false} PayloadAppend(xs: seq<Item>, x: Item)
    ensures Payload(xs + [x]) == Payload(xs) + Code(x)
  {
    if xs == [] {
      assert [x][1..] == [];
    } else {
      assert (xs + [x])[1..] == xs[1..] + [x];
      PayloadAppend(xs[1..], x);
    }
  }

  /** What the compressor writes for one group is what the decompressor reads. */
  lemma {:induction false} ReadsGroup(xs: seq<Item>, n: nat, rest: seq<byte>, ys: seq<Item>)
    requires |xs| <= n && (ys == [] || (|xs| == n && Reads(rest, 0, 1, ys)))
    ensures Reads(Payload(xs) + rest, n, Bits(xs) + Pow2(n), xs + ys)
  {
    if xs == [] {
      assert Payload(xs) + rest == rest && xs + ys == ys;
    } else {
      ReadsGroup(xs[1..], n - 1, rest, ys);
      ReadsMore(xs, n, rest, ys);
    }
  }

  lemma ReadsMore(xs: seq<Item>, n: nat, rest: seq<byte>, ys: seq<Item>)
    requires 1 <= |xs| <= n
    requires Reads(Payload(xs[1..]) + rest, n - 1, Bits(xs[1..]) + Pow2(n - 1), xs[1..] + ys)
    ensures Reads(Payload(xs) + rest, n, Bits(xs) + Pow2(n), xs + ys)
  {
    BitsBound(xs[1..], n - 1);
    ReadsItem(xs[0], Payload(xs[1..]) + rest, n, Bits(xs[1..]) + Pow2(n - 1), xs[1..] + ys);
    Assoc(Code(xs[0]), Payload(xs[1..]), rest);
    HeadTail(xs);
    Assoc([xs[0]], xs[1..], ys);
  }

  lemma ReadsItem(x: Item, bytes: seq<byte>, n: nat, w: nat, ys: seq<Item>)
    requires 1 <= n && Pow2(n - 1) <= w < 2 * Pow2(n - 1) && Reads(bytes, n - 1, w, ys)
    ensures Reads(Code(x) + bytes, n, Bit(x) + 2 * w, [x] + ys)
  {
    var c := Code(x);
    assert (c + bytes)[|c|..] == bytes;
    assert ([x] + ys)[1..] == ys;
    assert (Bit(x) + 2 * w) / 2 == w && (Bit(x) + 2 * w) % 2 == Bit(x);
  }

  lemma ReadsWord(xs: seq<Item>, rest: seq<byte>, ys: seq<Item>)
    requires 1 <= |xs| <= GROUP && (ys == [] || (|xs| == GROUP && Reads(rest, 0, 1, ys)))
    ensures Reads(GroupBytes(xs) + rest, 0, 1, xs + ys)
  {
    hide Code, Payload, Bits, Little;
    var bytes := GroupBytes(xs) + rest;
    Pow2Top();
    BitsBound(xs, GROUP);
    assert Pow256(4) == 2 * TOP_BIT;
    GetLittle(Closed(xs), 4, Pow256(4));
    assert bytes[..4] == Little(Closed(xs), 4);
    assert bytes[4..] == Payload(xs) + rest;
    ReadsGroup(xs, GROUP, rest, ys);
  }

  lemma {:induction false} ReadsGroups(xs: seq<Item>, rest: seq<byte>, ys: seq<Item>)
    requires |xs| % GROUP == 0 && Reads(rest, 0, 1, ys)
    ensures Reads(Groups(xs) + rest, 0, 1, xs + ys)
  {
    if xs == [] {
      assert Groups(xs) + rest == rest && xs + ys == ys;
    } else {
      var k := |xs| - GROUP;
      var front, last := xs[..k], xs[k..];
      ReadsWord(last, rest, ys);
      ReadsGroups(front, GroupBytes(last) + rest, last + ys);
      SplitSeq(xs, k);
      Assoc(front, last, ys);
      Assoc(Groups(front), GroupBytes(last), rest);
    }
  }

  // ----- sizes

  function TextSum(xs: seq<Item>): nat {
    if xs == [] then 0 else TextSum(xs[..|xs| - 1]) + TextLen(xs[|xs| - 1])
  }

  ghost predicate LongMatches(xs: seq<Item>) {
    forall i :: 0 <= i < |xs| && xs[i].Match? ==> 3 <= xs[i].len
  }

  /** Codes are never longer than the text they stand for. */
  lemma CodeSize(x: Item)
    requires x.Match? ==> 3 <= x.len
    ensures |Code(x)| <= TextLen(x)
  {
  }

  lemma {:induction false} PayloadSize(xs: seq<Item>)
    requires LongMatches(xs)
    ensures |xs| <= TextSum(xs) && |Payload(xs)| <= TextSum(xs) && |Payload(xs)| <= 4 * |xs|
  {
    if xs != [] {
      var init, x := xs[..|xs| - 1], xs[|xs| - 1];
      assert xs == init + [x];
      PayloadSize(init);
      PayloadAppend(init, x);
      CodeSize(x);
    }
  }

  lemma {:induction false} TextSumAppend(xs: seq<Item>, ys: seq<Item>)
    ensures TextSum(xs + ys) == TextSum(xs) + TextSum(ys)
  {
    if ys == [] {
      assert xs + ys == xs;
    } else {
      TextSumAppend(xs, ys[..|ys| - 1]);
      assert (xs + ys)[..|xs + ys| - 1] == xs + ys[..|ys| - 1];
    }
  }

  /** A full group costs four bytes more than its items, and covers at least thirty-one. */
  lemma {:induction false} GroupsSize(xs: seq<Item>)
    requires LongMatches(xs) && |xs| % GROUP == 0
    ensures 31 * |Groups(xs)| <= 35 * TextSum(xs)
  {
    if xs != [] {
      var k := |xs| - GROUP;
      GroupsSize(xs[..k]);
      PayloadSize(xs[k..]);
      SplitSeq(xs, k);
      TextSumAppend(xs[..k], xs[k..]);
    }
  }

  /** A compressed body: what the decompressor gets to read, and what it has to return. */
  ghost predicate Encodes(bytes: seq<byte>, xs: seq<Item>, text: seq<byte>) {
    Reads(bytes, 0, 1, xs) && Plays([], xs, text) && Placed(xs, 0, |text|, |text|)
  }

  // ----- the packet

  const MAX_SIZE: nat := 0xffff_ffff - 400

  /** How long a size field is, from bit 1 of the first byte. */
  function FieldLen(source: seq<byte>): nat
    requires |source| >= 1
  {
    if source[0] / 2 % 2 == 1 then 4 else 1
  }

  /** qlz_size_header */
  function SizeHeader(source: seq<byte>): nat
    requires |source| >= 1
  {
    2 * FieldLen(source) + 1
  }

  /** qlz_size_compressed: a word is read, and masked to the length of the field. */
  function SizeCompressed(source: seq<byte>): nat
    requires |source| >= 9
  {
    var n := FieldLen(source);
    Get(source[1..5]) % Pow256(n)
  }

  /** qlz_size_decompressed */
  function SizeDecompressed(source: seq<byte>): nat
    requires |source| >= 9
  {
    var n := FieldLen(source);
    Get(source[1 + n..5 + n]) % Pow256(n)
  }

  /** A complete packet: the header tells its own length and the text's, and the body is the items of
      the text or the text itself. */
  ghost predicate Packet(bytes: seq<byte>, xs: seq<Item>, text: seq<byte>) {
    && 9 <= |bytes| && 1 <= |text|
    && SizeCompressed(bytes) == |bytes| && SizeDecompressed(bytes) == |text|
    && SizeHeader(bytes) <= 9
    && var body := bytes[SizeHeader(bytes)..];
       if bytes[0] % 2 == 1 then Encodes(body, xs, text) && |body| >= 9 else body == text
  }
}
