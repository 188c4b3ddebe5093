/** The input byte stream. */
module InStream {
  import opened Bytes
  import opened Words
  import opened Varint
  import opened StreamBase
  import opened StreamFormat

  /** A `char` is signed: this is what is left of one in a word of `w` bytes. */
  function SignExtended(b: byte, w: nat): (c: nat)
    requires w >= 2
    ensures c < Pow256(w)
  {
    assert Pow256(w) == 256 * Pow256(w - 1);
    if b < 128 then b else Pow256(w) - 256 + b
  }

  /** `b << 7`, with the sign, cut to `w` bytes. */
  function SignShifted(b: byte, w: nat): (c: nat)
    ensures c < Pow256(w)
  {
    (if b < 128 then 128 * b else 128 * b - 32768) % Pow256(w)
  }

  /** The first two bytes put together: an OR of seven bits and what is above them. */
  function Together(c: nat, b: byte, w: nat): nat {
    c % 128 + SignShifted(b, w)
  }

  function Masked(c: nat): nat {
    c % 16384
  }

  /** The first two groups of a number. */
  function Groups2(b0: byte, b1: byte): nat {
    var x0: nat, x1: nat := b0, b1;
    x0 % 128 + 128 * (x1 % 128)
  }

  /** The sign of the first two bytes does no harm: the masks take it away. */
  lemma FirstTwo(b0: byte, b1: byte, w: nat)
    requires w >= 2
    ensures SignExtended(b0, w) < 128 <==> b0 < 128
    ensures b0 < 128 ==> SignExtended(b0, w) == b0
    ensures
      var c := Together(SignExtended(b0, w), b1, w);
      && Masked(c) <= c < Pow256(w) && (c < 16384 <==> b1 < 128)
      && Masked(c) == Groups2(b0, b1) && (b1 < 128 ==> c == Groups2(b0, b1))
  {
    hide Pow256, SignExtended, SignShifted;
    FirstOne(b0, w);
    SecondOne(b0 % 128, b1, w);
  }

  lemma FirstOne(b: byte, w: nat)
    requires w >= 2
    ensures SignExtended(b, w) % 128 == b % 128
    ensures SignExtended(b, w) < 128 <==> b < 128
    ensures b < 128 ==> SignExtended(b, w) == b
  {
    hide Pow256;
    var q := WideWord(w);
    if b >= 128 {
      DivMod(SignExtended(b, w), 128, 512 * q - 1, b - 128);
    }
  }

  lemma SecondOne(low: nat, b: byte, w: nat)
    requires w >= 2 && low < 128
    ensures
      var c := low + SignShifted(b, w);
      && c < Pow256(w) && (c < 16384 <==> b < 128)
      && c % 16384 == low + 128 * (b % 128) && (b < 128 ==> c == low + 128 * b)
  {
    hide Pow256, SignShifted;
    var q := WideWord(w);
    Shifted(b, w, q);
    var c := low + SignShifted(b, w);
    if b < 128 {
      DivMod(c, 16384, 0, c);
    } else {
      assert c == 16384 * (4 * q - 1) + (low + 128 * (b - 128));
      DivMod(c, 16384, 4 * q - 1, low + 128 * (b - 128));
    }
  }

  lemma Shifted(b: byte, w: nat, q: nat)
    requires q >= 1 && Pow256(w) == 65536 * q
    ensures SignShifted(b, w) == if b < 128 then 128 * b else 65536 * q - 32768 + 128 * b
  {
    hide Pow256;
    if b < 128 {
      DivMod(128 * b, 65536 * q, 0, 128 * b);
    } else {
      Around(128 * b - 32768, 65536 * q);
    }
  }

  lemma WideWord(w: nat) returns (q: nat)
    requires w >= 2
    ensures q >= 1 && Pow256(w) == 65536 * q
  {
    q := Pow256(w - 2);
    assert Pow256(w) == 256 * Pow256(w - 1);
  }

  /** One group further: what is known of the number so far, and where the rest is. */
  ghost predicate SoFar(data: seq<byte>, start: nat, limit: nat, acc: nat, p: nat, at: nat)
    requires limit <= |data|
  {
    Groups(data, start, limit)
    == match Groups(data, at, limit)
       case None => None
       case Some((m, next)) => var n: nat := acc + p * m; Some((n, next))
  }

  lemma SoFarMore(data: seq<byte>, start: nat, limit: nat, acc: nat, p: nat, at: nat)
    requires at < limit <= |data| && data[at] >= 128 && SoFar(data, start, limit, acc, p, at)
    ensures SoFar(data, start, limit, acc + data[at] % 128 * p, 128 * p, at + 1)
  {
    match Groups(data, at + 1, limit)
    case None =>
    case Some((m, next)) =>
      assert data[at] % 128 == data[at] - 128;
      Regroup(acc, p, data[at] - 128, m);
  }

  lemma Regroup(acc: nat, p: nat, b: nat, m: nat)
    ensures acc + p * (b + 128 * m) == acc + b * p + 128 * p * m
  {
    assert p * (b + 128 * m) == p * b + p * (128 * m);
    assert p * (128 * m) == 128 * p * m;
  }

  lemma SoFarLast(data: seq<byte>, start: nat, limit: nat, acc: nat, p: nat, at: nat)
    requires at < limit <= |data| && data[at] < 128 && SoFar(data, start, limit, acc, p, at)
    ensures Groups(data, start, limit) == Some((acc + data[at] % 128 * p, at + 1))
  {
    assert data[at] * p == p * data[at];
  }

  lemma AddShifted(acc: nat, x: nat, m: nat)
    requires m >= 1
    ensures (acc % m + x) % m == (acc + x) % m
  {
    var q := acc / m;
    assert acc + x == m * q + (acc % m + x);
    var r := (acc % m + x) % m;
    var d := (acc % m + x) / m;
    assert acc + x == m * (q + d) + r;
    DivMod(acc + x, m, q + d, r);
  }

  class InStream {
    const data: seq<byte>
    const host: bool
    var status: int
    var cur: nat
    var stubs: seq<u64>
    var little: bool

    ghost function State(): State
      reads this
    {
      StreamBase.State(status, cur, stubs, Some(|data|))
    }

    /** Where reading has to stop. */
    ghost function Limit(): nat
      reads this
    {
      if status == 0 && stubs != [] && stubs[|stubs| - 1] < |data| then stubs[|stubs| - 1] else |data|
    }

    ghost predicate Valid()
      reads this
    {
      |data| < TOP && State().Safe()
    }

    constructor (data: seq<byte>, host: bool, net: bool)
      requires |data| < TOP
      ensures Valid() && State() == StreamBase.State(0, 0, [], Some(|data|))
      ensures this.data == data && this.host == host && little == (!net && host)
    {
      this.data, this.host, status, cur, stubs := data, host, 0, 0, [];
      little := if net then false else host;
    }

    method LittleEndian(order: bool)
      modifies this`little
      ensures little == order
    {
      little := order;
    }

    method CheckStub(pos: nat) returns (ok: bool)
      modifies this`status
      ensures (State(), ok) == StreamBase.CheckStub(old(State()), pos)
    {
      if status != 0 {
        return false;
      }
      if stubs != [] && pos > stubs[|stubs| - 1] {
        status := 1;
        return false;
      }
      ok := true;
    }

    method Seek(pos: nat) returns (ok: bool)
      modifies this`status, this`cur
      ensures State() == Sought(old(State()), pos) && (ok <==> status == 0)
    {
      ok := CheckStub(pos);
      if ok {
        if pos > |data| {
          status := 1;
          return false;
        }
        cur := pos;
      }
    }

    method Skip(off: int) returns (ok: bool)
      modifies this`status, this`cur
      ensures State() == Skipped(old(State()), off) && (ok <==> status == 0)
    {
      ok := Seek((cur + off) % TOP);
    }

    method StubPush(size: u64)
      modifies this`stubs
      ensures State() == Pushed(old(State()), size)
    {
      if status == 0 {
        stubs := stubs + [(size + cur) % TOP];
      }
    }

    method StubPop(align: bool, check: bool)
      modifies this`status, this`cur, this`stubs
      ensures State() == Popped(old(State()), align, check)
      ensures old(status) == 0 && old(stubs) != [] ==>
        var pos := old(stubs)[|old(stubs)| - 1];
        var to := if align then pos else old(cur);
        && stubs == old(stubs)[..|old(stubs)| - 1]
        && (status == 0 <==> (check ==> old(cur) == pos) && State().Within(to))
        && cur == (if status == 0 then to else old(cur))
      ensures old(status) != 0 || old(stubs) == [] ==> status != 0 && cur == old(cur) && stubs == old(stubs)
    {
      if status != 0 {
        return;
      }
      if stubs == [] {
        status := 1;
        return;
      }
      var pos := stubs[|stubs| - 1];
      stubs := stubs[..|stubs| - 1];
      if check && cur != pos {
        status := 1;
        return;
      }
      var ok := Seek(if align then pos else cur);
    }

    method End()
      modifies this`status, this`stubs
      ensures State() == Ended(old(State()))
    {
      if status == 0 {
        stubs := [];
        if (|data| - cur) % TOP > 0 {
          status := 1;
        }
      }
    }

    method Ensure(size: nat) returns (ok: bool)
      requires Valid()
      modifies this`status
      ensures Valid() && (State(), ok) == Ensured(old(State()), size)
      ensures ok <==> old(status) == 0 && cur + size <= old(Limit())
      ensures ok ==> status == 0
      ensures !ok ==> status == if old(status) == 0 then 1 else old(status)
    {
      if status == 0 {
        EnsuredExactly(State(), size);
      }
      ok := CheckStub((cur + size) % TOP);
      if ok {
        var end := if stubs != [] && stubs[|stubs| - 1] < |data| then stubs[|stubs| - 1] else |data|;
        var left := (end - cur) % TOP;
        if left < size {
          status := 1;
          ok := false;
        }
      }
    }

    /** What a read from state `s` promises: it does what the parse `r` says, and nothing if the stream
        had failed. */
    ghost predicate Got<T>(s: State, order: bool, r: Option<(T, nat)>, v: T)
      reads this
    {
      && Valid() && stubs == s.stubs && little == order
      && (if !s.Good() then status == s.status && cur == s.cur
          else if r.Some? then status == 0 && v == r.value.0 && cur == r.value.1
          else status == 1)
    }

    method ReadPod(w: nat) returns (c: nat)
      requires Valid()
      modifies this`status, this`cur
      ensures Got(old(State()), little, ParsePod(little, w, data, old(cur), old(Limit())), c)
    {
      c := 0;
      var ok := Ensure(w);
      if ok {
        var bytes := data[cur..cur + w];
        c := PodValue(host, bytes);
        SwapValue(host, little, bytes);
        if w > 1 && host != little {
          c := Swap(c, w);
        } else if w <= 1 {
          OneByte(bytes);
        }
        cur := cur + w;
      }
    }

    /** `ensure(1)`, then `data_[cur_++]` */
    method NextByte() returns (ok: bool, b: byte)
      requires Valid()
      modifies this`status, this`cur
      ensures Valid() && (ok <==> old(status) == 0 && old(cur) < old(Limit()))
      ensures ok ==> status == 0 && old(cur) < |data| && b == data[old(cur)]
      ensures ok ==> cur == old(cur) + 1 && Limit() == old(Limit())
      ensures !ok ==> cur == old(cur) && status == if old(status) == 0 then 1 else old(status)
    {
      b := 0;
      ok := Ensure(1);
      if ok {
        b := data[cur];
        cur := cur + 1;
      }
    }

    /** The overload for one byte. */
    method ReadVarintByte() returns (c: nat)
      requires Valid()
      modifies this`status, this`cur
      ensures Got(old(State()), little, ParseVar(1, data, old(cur), old(Limit())), c)
    {
      c := 0;
      var ok, b := NextByte();
      if ok {
        c := b;
        if c < 128 {
          return;
        }
        ok, b := NextByte();
        if ok {
          c := c % 128 + 128;   // OR with a number whose low seven bits are clear
        }
      }
    }

    method ReadVarintWide(w: nat) returns (c: nat)
      requires Valid() && w >= 2
      modifies this`status, this`cur
      ensures Got(old(State()), little, ParseVar(w, data, old(cur), old(Limit())), c)
    {
      hide Groups, ParseVar, Pow256, SoFar, SignExtended, Together, Masked, Groups2, Cut;
      ghost var start, limit := cur, Limit();
      c := 0;
      ShortVar(data, start, limit, w);
      var ok, b0 := NextByte();
      if ok {
        c := SignExtended(b0, w);
        FirstTwo(b0, 0, w);
        if c < 128 {
          return;
        }
        var b1: byte;
        ok, b1 := NextByte();
        if ok {
          FirstTwo(b0, b1, w);
          c := Together(c, b1, w);
          if c < 16384 {
            TwoGroups(data, start, limit, w);
            return;
          }
          c := Masked(c);
          FirstGroups(data, start, limit);
          LongVar(data, start, limit, w);
          c := ReadGroups(w, c, start);
        }
      }
    }

    /** The third group and those after it. */
    method ReadGroups(w: nat, c0: nat, ghost start: nat) returns (c: nat)
      requires Valid() && status == 0 && w >= 2 && c0 < Pow256(w)
      requires start < cur <= Limit() && SoFar(data, start, Limit(), c0, 16384, cur)
      modifies this`status, this`cur
      ensures Got(old(State()), little, Cut(Groups(data, start, old(Limit())), w), c)
    {
      hide Groups, Pow256, SoFar;
      ghost var limit, acc: nat := Limit(), c0;
      c := c0;
      DivMod(c0, Pow256(w), 0, c0);
      var v: byte, p: nat := 255, 16384;
      while v > 127
        invariant Valid() && stubs == old(stubs) && little == old(little) && status == 0 && limit == Limit()
        invariant p >= 1 && start < cur <= limit
        invariant v > 127 ==> SoFar(data, start, limit, acc, p, cur)
        invariant v <= 127 ==> Groups(data, start, limit) == Some((acc, cur))
        invariant c == acc % Pow256(w)
        decreases v > 127, limit - cur
      {
        var ok, b := NextByte();
        if !ok {
          SoFarEnds(data, start, limit, acc, p, cur);
          return;
        }
        v := b;
        if v > 127 {
          SoFarMore(data, start, limit, acc, p, cur - 1);
        } else {
          SoFarLast(data, start, limit, acc, p, cur - 1);
        }
        var low: nat := v % 128 * p;
        AddShifted(acc, low, Pow256(w));
        acc := acc + low;
        c := (c + low) % Pow256(w);   // OR above the bits read so far
        p := 128 * p;
      }
    }

    method ReadVarint(w: nat) returns (c: nat)
      requires Valid() && w >= 1
      modifies this`status, this`cur
      ensures Got(old(State()), little, ParseVar(w, data, old(cur), old(Limit())), c)
    {
      if w == 1 {
        c := ReadVarintByte();
      } else {
        c := ReadVarintWide(w);
      }
    }

    /** `readRaw`: one copy if the elements are in memory as they are in the data, a loop otherwise. */
    method ReadRaw(t: Type, n: nat) returns (vs: seq<Value>)
      requires Valid() && WellFormed(t)
      modifies this`status, this`cur, this`little
      ensures Got(old(State()), old(little), ParseAll(old(little), t, n, data, old(cur), old(Limit())), vs)
      decreases t, n, 1
    {
      if n == 0 {
        vs := [];
      } else if !t.Pod? || (t.w > 1 && host != little) {
        vs := ReadEach(t, n);
      } else {
        vs := ReadCopy(t.w, n);
      }
    }

    method ReadEach(t: Type, n: nat) returns (vs: seq<Value>)
      requires Valid() && WellFormed(t)
      modifies this`status, this`cur, this`little
      ensures Got(old(State()), old(little), ParseAll(old(little), t, n, data, old(cur), old(Limit())), vs)
      decreases t, n, 0
    {
      hide Parse;
      ghost var start, limit := cur, Limit();
      var i := 0;
      vs := [];
      while status == 0 && i < n
        invariant i <= n && Valid() && stubs == old(stubs) && little == old(little)
        invariant old(status) != 0 ==> status == old(status) && cur == old(cur)
        invariant old(status) == 0 ==> (status == 0 || status == 1) && start <= limit
        invariant status == 0 ==> limit == Limit() && ParseAll(little, t, i, data, start, limit) == Some((vs, cur))
        invariant old(status) == 0 && status == 1 ==> ParseAll(little, t, i, data, start, limit).None?
      {
        var v := Read(t);
        vs := vs + [v];
        i := i + 1;
      }
      if old(status) == 0 && status == 1 {
        ParseAllFails(little, t, i, n, data, start, limit);
      }
    }

    method ReadCopy(w: nat, n: nat) returns (vs: seq<Value>)
      requires Valid() && w >= 1 && (w == 1 || host == little)
      modifies this`status, this`cur
      ensures Got(old(State()), little, ParseAll(little, Pod(w), n, data, old(cur), old(Limit())), vs)
    {
      hide ParseAll, Pods;
      vs := [];
      var size := Product(n, w);
      if status == 0 {
        PodsAll(host, little, w, n, data, cur, Limit(), size);
      }
      var ok := Ensure(size);
      if ok {
        vs := Pods(host, w, n, data[cur..cur + size]);
        cur := cur + size;
      }
    }

    /** `>>` for a value of any type. */
    method Read(t: Type) returns (v: Value)
      requires Valid() && WellFormed(t)
      modifies this`status, this`cur, this`little
      ensures Got(old(State()), old(little), Parse(old(little), t, data, old(cur), old(Limit())), v)
      decreases t, 0, 1
    {
      hide ParsePod, ParseVar, ParseAll, FromUnsigned, Pow256;
      v := Num(0);
      match t
      case Pod(w) =>
        var c := ReadPod(w);
        v := Num(c);
      case Var(w) =>
        var c := ReadVarint(w);
        v := Num(c);
      case Zig(w) =>
        var c := ReadVarint(w);
        if status == 0 {
          v := Num(FromUnsigned(c, w));
        }
      case Array(_, _, _) =>
        v := ReadArray(t);
      case Pair(_, _) =>
        v := ReadPair(t);
      case Ordered(order, inner) =>
        var before := little;
        little := order;
        v := Read(inner);
        little := before;
    }

    method ReadArray(t: Type) returns (v: Value)
      requires Valid() && WellFormed(t) && t.Array?
      modifies this`status, this`cur, this`little
      ensures Got(old(State()), old(little), Parse(old(little), t, data, old(cur), old(Limit())), v)
      decreases t, 0, 0
    {
      hide ParsePod, ParseAll, Pow256;
      v := Num(0);
      var n := ReadPod(t.count);
      if status == 0 {
        if t.max > 0 && n > t.max {
          status := 1;
          return;
        }
        var vs := ReadRaw(t.elem, n);
        v := List(vs);
      }
    }

    method ReadPair(t: Type) returns (v: Value)
      requires Valid() && WellFormed(t) && t.Pair?
      modifies this`status, this`cur, this`little
      ensures Got(old(State()), old(little), Parse(old(little), t, data, old(cur), old(Limit())), v)
      decreases t, 0, 0
    {
      var a := Read(t.first);
      var b := Read(t.second);
      v := Two(a, b);
    }

    /** `Manip::offset_value`: on success the cursor is back where it was. */
    method OffsetValue(pos: nat, t: Type) returns (v: Value)
      requires Valid() && WellFormed(t)
      modifies this`status, this`cur, this`little
      ensures Valid() && stubs == old(stubs) && little == old(little)
      ensures old(status) != 0 ==> status == old(status) && cur == old(cur)
      ensures old(status) == 0 ==>
        if pos <= old(Limit()) && Parse(little, t, data, pos, old(Limit())).Some?
        then status == 0 && cur == old(cur) && v == Parse(little, t, data, pos, old(Limit())).value.0
        else status == 1
    {
      v := Num(0);
      var before := cur;
      var ok := Seek(pos);
      if ok {
        v := Read(t);
        if status == 0 {
          ok := Seek(before);
        }
      }
    }
  }

  function Product(a: nat, b: nat): (p: nat)
    ensures p == a * b
  {
    assert a * b >= 0;
    a * b
  }

  function Cut(r: Option<(nat, nat)>, w: nat): Option<(nat, nat)> {
    match r
    case None => None
    case Some((n, next)) => Some((n % Pow256(w), next))
  }

  /** The first two groups, when a third follows. */
  lemma FirstGroups(data: seq<byte>, start: nat, limit: nat)
    requires start + 2 <= limit <= |data| && data[start] >= 128 && data[start + 1] >= 128
    ensures SoFar(data, start, limit, Groups2(data[start], data[start + 1]), 16384, start + 2)
  {
    match Groups(data, start + 2, limit)
    case None =>
    case Some((m, next)) =>
  }

  lemma ShortVar(data: seq<byte>, start: nat, limit: nat, w: nat)
    requires w >= 2 && start <= limit <= |data|
    ensures start == limit ==> ParseVar(w, data, start, limit) == None
    ensures start < limit && data[start] < 128 ==>
      var n: nat, next: nat := data[start], start + 1; ParseVar(w, data, start, limit) == Some((n, next))
    ensures start + 1 == limit && data[start] >= 128 ==> ParseVar(w, data, start, limit) == None
  {
  }

  lemma LongVar(data: seq<byte>, start: nat, limit: nat, w: nat)
    requires w >= 2 && start < limit <= |data| && data[start] >= 128
    ensures ParseVar(w, data, start, limit) == Cut(Groups(data, start, limit), w)
    ensures 16384 < Pow256(w)
  {
    hide Groups;
    var q := WideWord(w);
  }

  lemma TwoGroups(data: seq<byte>, start: nat, limit: nat, w: nat)
    requires w >= 2 && start + 2 <= limit <= |data| && data[start] >= 128 && data[start + 1] < 128
    ensures ParseVar(w, data, start, limit) == Some((Groups2(data[start], data[start + 1]), start + 2))
  {
    hide Pow256;
    var q := WideWord(w);
    var b0: int, b1: int := data[start], data[start + 1];
    var n := Groups2(data[start], data[start + 1]);
    assert Groups(data, start + 1, limit) == Some((b1, start + 2));
    assert Groups(data, start, limit) == Some((b0 - 128 + 128 * b1, start + 2));
    assert n == b0 - 128 + 128 * b1;
    hide Groups, Groups2;
    DivMod(n, 65536 * q, 0, n);
  }

  lemma SoFarEnds(data: seq<byte>, start: nat, limit: nat, acc: nat, p: nat, at: nat)
    requires limit <= at && limit <= |data| && SoFar(data, start, limit, acc, p, at)
    ensures Groups(data, start, limit) == None
  {
  }
}
