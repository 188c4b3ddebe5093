/** The output byte stream over a growing buffer. */
module OutStream {
  import opened Bytes
  import opened Words
  import opened Varint
  import StreamBase
  import opened StreamFormat
  import opened GrowingBuffer

  /** `c | 0x80`, cut to a byte. */
  function Low(c: nat): byte {
    c % 128 + 128
  }

  lemma VarTwo(c: nat)
    requires c >= 128
    ensures VarBytes(c) == [Low(c)] + VarBytes(c / 128)
  {
  }

  /** From state `b` and bytes `before` to state `a` and bytes `after` by writing `s`: nothing in a failed
      stream; all of it if it ends within the stub; otherwise a failure that keeps what was written before. */
  ghost predicate Outcome(b: StreamBase.State, before: seq<byte>, begin: nat, s: seq<byte>,
      a: StreamBase.State, after: seq<byte>) {
    && a.stubs == b.stubs && a.len == b.len && begin + b.cur <= |before|
    && (if !b.Good() then a == b && after == before
        else if b.Within(b.cur + |s|) then
          a.status == 0 && a.cur == b.cur + |s| && Wrote(before, after, begin + b.cur, s)
        else a.status == 1 && Kept(before, after, begin + b.cur))
  }

  /** Writing `x` and then `y` is writing `x + y`. */
  lemma OutcomeThen(b: StreamBase.State, before: seq<byte>, begin: nat, x: seq<byte>,
      m: StreamBase.State, middle: seq<byte>, y: seq<byte>, a: StreamBase.State, after: seq<byte>)
    requires Outcome(b, before, begin, x, m, middle) && Outcome(m, middle, begin, y, a, after)
    ensures Outcome(b, before, begin, x + y, a, after)
  {
    hide Wrote, Kept;
    if b.Good() && b.Within(b.cur + |x|) {
      if b.Within(b.cur + |x + y|) {
        WroteMore(before, middle, after, begin + b.cur, x, y);
      } else {
        WroteKept(before, middle, after, begin + b.cur, x);
      }
    }
  }

  lemma OutcomeFailed(b: StreamBase.State, before: seq<byte>, begin: nat, x: seq<byte>, y: seq<byte>,
      a: StreamBase.State, after: seq<byte>)
    requires Outcome(b, before, begin, x, a, after) && !a.Good()
    ensures Outcome(b, before, begin, x + y, a, after)
  {
  }

  lemma OutcomeNothing(b: StreamBase.State, before: seq<byte>, begin: nat)
    requires begin + b.cur <= |before| && b.Safe()
    ensures Outcome(b, before, begin, [], b, before)
  {
    if b.Good() {
      WroteNothing(before, before, begin + b.cur);
    }
  }

  class OutStream {
    const host: bool
    const data: GrowingBuffer
    var status: int
    var stubs: seq<u64>
    var little: bool

    ghost function State(): StreamBase.State
      reads this, data
    {
      StreamBase.State(status, data.cur, stubs, None)
    }

    ghost predicate Valid()
      reads this, data
    {
      data.Valid() && State().Safe()
    }

    constructor (data: GrowingBuffer, host: bool, net: bool)
      requires data.Valid() && data.cur == 0
      ensures Valid() && this.data == data && this.host == host && little == (!net && host)
      ensures status == 0 && stubs == []
    {
      this.data, this.host, status, stubs := data, host, 0, [];
      little := if net then false else host;
    }

    method CheckStub(pos: nat) returns (ok: bool)
      modifies this`status
      ensures (State(), ok) == StreamBase.CheckStub(old(State()), pos)
    {
      if status != 0 {
        return false;
      }
      if stubs != [] && pos > stubs[|stubs| - 1] {
        status := 1;
        return false;
      }
      ok := true;
    }

    method Seek(pos: nat) returns (ok: bool)
      requires Valid()
      modifies this`status, data`cur, data`buf
      ensures Valid() && State() == StreamBase.Sought(old(State()), pos) && (ok <==> status == 0)
      ensures old(data.buf) <= data.buf
      ensures !ok || data.begin + pos <= old(|data.buf|) ==> data.buf == old(data.buf)
    {
      ok := CheckStub(pos);
      if ok {
        data.Seek(pos);
      }
    }

    method Skip(off: int) returns (ok: bool)
      requires Valid()
      modifies this`status, data`cur, data`buf
      ensures State() == StreamBase.Skipped(old(State()), off) && (ok <==> status == 0)
      ensures Valid() && old(data.buf) <= data.buf && (!ok ==> data.buf == old(data.buf))
    {
      var pos := (data.cur + off) % TOP;
      ok := CheckStub(pos);
      if ok {
        if off < 0 && -off > data.cur {
          status := 1;
          return false;
        }
        ok := Seek(pos);
      }
    }

    method StubPush(size: u64)
      modifies this`stubs
      ensures State() == StreamBase.Pushed(old(State()), size)
    {
      if status == 0 {
        stubs := stubs + [(size + data.cur) % TOP];
      }
    }

    method StubPop(align: bool, check: bool)
      requires Valid()
      modifies this`status, this`stubs, data`cur, data`buf
      ensures State() == StreamBase.Popped(old(State()), align, check)
      ensures old(status) == 0 && old(stubs) != [] ==>
        var pos := old(stubs)[|old(stubs)| - 1];
        var to := if align then pos else old(data.cur);
        && stubs == old(stubs)[..|old(stubs)| - 1]
        && (status == 0 <==> (check ==> old(data.cur) == pos) && State().Within(to))
        && data.cur == (if status == 0 then to else old(data.cur))
      ensures old(status) != 0 || old(stubs) == [] ==> status != 0 && data.cur == old(data.cur) && stubs == old(stubs)
      ensures Valid() && old(data.buf) <= data.buf
    {
      if status != 0 {
        return;
      }
      if stubs == [] {
        status := 1;
        return;
      }
      var pos := stubs[|stubs| - 1];
      stubs := stubs[..|stubs| - 1];
      if check && data.cur != pos {
        status := 1;
        return;
      }
      var to := if align then pos else data.cur;
      var ok := CheckStub(to);
      if ok {
        data.Seek(to);
      }
    }

    /** `n` is the size of something in memory: the position does not wrap. */
    method Ensure(n: nat) returns (ok: bool)
      requires Valid()
      modifies this`status, data`buf
      ensures Valid() && (ok <==> old(status) == 0 && State().Within(data.cur + n))
      ensures data.cur + n < TOP ==> (State(), ok) == StreamBase.Ensured(old(State()), n)
      ensures ok ==> status == 0 && old(data.buf) <= data.buf && data.begin + data.cur + n <= |data.buf|
      ensures !ok ==> data.buf == old(data.buf) && status == if old(status) == 0 then 1 else old(status)
    {
      ok := CheckStub(data.cur + n);
      if ok {
        data.Ensure(n);
      }
    }

    /** What writing `s` in state `b` over the bytes `before` comes to. */
    ghost predicate Put(b: StreamBase.State, order: bool, before: seq<byte>, begin: nat, s: seq<byte>)
      reads this, data
    {
      Valid() && little == order && data.begin == begin && Outcome(b, before, begin, s, State(), data.buf)
    }

    /** Room for `s`, then `s`. */
    method Store(s: seq<byte>)
      requires Valid() && s != []
      modifies this`status, data`cur, data`buf
      ensures Put(old(State()), little, old(data.buf), old(data.begin), s)
    {
      var ok := Ensure(|s|);
      if ok {
        ghost var grown := data.buf;
        data.Append(s);
        WroteGrown(old(data.buf), grown, data.buf, old(data.begin + data.cur), s);
      }
    }

    method WritePod(n: nat, w: nat)
      requires Valid() && w >= 1 && n < Pow256(w)
      modifies this`status, data`cur, data`buf
      ensures Put(old(State()), little, old(data.buf), old(data.begin), PodBytes(little, n, w))
    {
      hide Put, PodBytes, Swap;
      SwapBytes(host, little, n, w);
      var c := n;
      if w > 1 && host != little {
        c := Swap(n, w);
      } else if w == 1 {
        OneByteOrder(host, little, n);
      }
      Store(PodBytes(host, c, w));
    }

    /** `s` has been written so far. */
    ghost predicate Written(b: StreamBase.State, order: bool, before: seq<byte>, begin: nat, s: seq<byte>)
      reads this, data
    {
      && Valid() && stubs == b.stubs && little == order && data.begin == begin
      && b.Good() && status == 0 && data.cur == b.cur + |s|
      && begin + b.cur <= |before| && Wrote(before, data.buf, begin + b.cur, s)
    }

    /** There is room for `n` more bytes. */
    ghost predicate Room(n: nat)
      reads this, data
    {
      data.begin + data.cur + n <= |data.buf| && State().Within(data.cur + n)
    }

    lemma Finished(b: StreamBase.State, order: bool, before: seq<byte>, begin: nat, s: seq<byte>)
      requires Written(b, order, before, begin, s) && b.len == None
      ensures Put(b, order, before, begin, s)
    {
    }

    /** Asks for the room a writer needs first. */
    method Open(n: nat) returns (ok: bool)
      requires Valid()
      modifies this`status, data`buf
      ensures ok ==> Written(old(State()), little, old(data.buf), old(data.begin), []) && Room(n)
      ensures !ok ==> forall s: seq<byte> :: |s| >= n ==> Put(old(State()), little, old(data.buf), old(data.begin), s)
    {
      ok := Ensure(n);
    }

    /** `data_.append(c | 0x80)` */
    method EmitLow(c: nat, ghost b: StreamBase.State, ghost before: seq<byte>, ghost c0: nat,
        ghost s: seq<byte>, ghost n: nat)
      requires Written(b, little, before, data.begin, s) && Room(n + 1) && Left(c0, s, c) && c >= 128
      modifies data`cur, data`buf
      ensures Written(b, little, before, data.begin, s + [Low(c)]) && Room(n) && Left(c0, s + [Low(c)], c / 128)
    {
      ghost var middle := data.buf;
      data.AppendByte(Low(c));
      WroteMore(before, middle, data.buf, data.begin + b.cur, s, [Low(c)]);
      VarTwo(c);
      Assoc(s, [Low(c)], VarBytes(c / 128));
    }

    /** `data_.append(c)`, the last one. */
    method EmitLast(c: nat, ghost b: StreamBase.State, ghost before: seq<byte>, ghost c0: nat, ghost s: seq<byte>)
      requires Written(b, little, before, data.begin, s) && Room(1) && Left(c0, s, c) && c < 128 && b.len == None
      modifies data`cur, data`buf
      ensures Put(b, little, before, data.begin, VarBytes(c0))
    {
      ghost var middle := data.buf;
      data.AppendByte(c);
      WroteMore(before, middle, data.buf, data.begin + b.cur, s, [c]);
    }

    /** One group. */
    method WriteOne(c: nat)
      requires Valid() && c < 128
      modifies this`status, data`cur, data`buf
      ensures Put(old(State()), little, old(data.buf), old(data.begin), VarBytes(c))
    {
      hide Put, Written, Room, Low, Left;
      ghost var b, before, s := State(), data.buf, [];
      VarCount(c);
      var ok := Open(1);
      if ok {
        EmitLast(c, b, before, c, s);
      }
    }

    /** Two groups. */
    method WriteTwo(c: nat)
      requires Valid() && 128 <= c < 16384
      modifies this`status, data`cur, data`buf
      ensures Put(old(State()), little, old(data.buf), old(data.begin), VarBytes(c))
    {
      hide Put, Written, Room, Low, Left;
      ghost var b, before, s := State(), data.buf, [];
      VarCount(c);
      var ok := Open(2);
      if ok {
        EmitLow(c, b, before, c, s, 1);
        s := s + [Low(c)];
        EmitLast(c / 128, b, before, c, s);
      }
    }

    /** Two groups that others follow: `c >> 14` is `(c >> 7) >> 7`. */
    method EmitTwoLows(c: nat, ghost b: StreamBase.State, ghost before: seq<byte>, ghost c0: nat,
                       ghost s: seq<byte>, ghost n: nat)
      requires Written(b, little, before, data.begin, s) && Room(n + 2) && Left(c0, s, c) && c >= 16384
      modifies data`cur, data`buf
      ensures Written(b, little, before, data.begin, s + [Low(c)] + [Low(c / 128)]) && Room(n)
      ensures Left(c0, s + [Low(c)] + [Low(c / 128)], c / 16384)
    {
      hide Written, Room, Low, Left;
      Shifts(c);
      EmitLow(c, b, before, c0, s, n + 1);
      EmitLow(c / 128, b, before, c0, s + [Low(c)], n);
    }

    /** Three groups. */
    method WriteThree(c: nat)
      requires Valid() && 16384 <= c < 2097152
      modifies this`status, data`cur, data`buf
      ensures Put(old(State()), little, old(data.buf), old(data.begin), VarBytes(c))
    {
      hide Put, Written, Room, Low, Left;
      ghost var b, before, s := State(), data.buf, [];
      VarCount(c);
      var ok := Open(3);
      if ok {
        EmitTwoLows(c, b, before, c, s, 1);
        s := s + [Low(c)] + [Low(c / 128)];
        EmitLast(c / 16384, b, before, c, s);
      }
    }

    /** Four groups. */
    method WriteFour(c: nat)
      requires Valid() && 2097152 <= c < 268435456
      modifies this`status, data`cur, data`buf
      ensures Put(old(State()), little, old(data.buf), old(data.begin), VarBytes(c))
    {
      hide Put, Written, Room, Low, Left;
      Shifts(c);
      ghost var b, before, s := State(), data.buf, [];
      VarCount(c);
      var ok := Open(4);
      if ok {
        EmitTwoLows(c, b, before, c, s, 2);
        s := s + [Low(c)] + [Low(c / 128)];
        EmitLow(c / 16384, b, before, c, s, 1);
        s := s + [Low(c / 16384)];
        EmitLast(c / 2097152, b, before, c, s);
      }
    }

    /** Five groups or more. */
    method WriteMore(c: nat)
      requires Valid() && 268435456 <= c
      modifies this`status, data`cur, data`buf
      ensures Put(old(State()), little, old(data.buf), old(data.begin), VarBytes(c))
    {
      hide Put, Written, Room, Low, Left;
      Shifts(c);
      ghost var b, before, s := State(), data.buf, [];
      VarCount(c);
      var ok := Open(5);
      if ok {
        EmitTwoLows(c, b, before, c, s, 3);
        s := s + [Low(c)] + [Low(c / 128)];
        EmitTwoLows(c / 16384, b, before, c, s, 1);
        s := s + [Low(c / 16384)] + [Low(c / 2097152)];
        WriteRest(c / 268435456, b, before, c, s);
      }
    }

    /** The overload for one byte. */
    method WriteVarintByte(c: nat)
      requires Valid() && c < 256
      modifies this`status, data`cur, data`buf
      ensures Put(old(State()), little, old(data.buf), old(data.begin), VarBytes(c))
    {
      if c < 128 {
        WriteOne(c);
      } else {
        WriteTwo(c);
      }
    }

    /** The overload for two bytes. */
    method WriteVarintShort(c: nat)
      requires Valid() && c < 65536
      modifies this`status, data`cur, data`buf
      ensures Put(old(State()), little, old(data.buf), old(data.begin), VarBytes(c))
    {
      if c < 128 {
        WriteOne(c);
      } else if c < 16384 {
        WriteTwo(c);
      } else {
        WriteThree(c);
      }
    }

    /** The template for wider types. */
    method WriteVarintWide(c: nat)
      requires Valid()
      modifies this`status, data`cur, data`buf
      ensures Put(old(State()), little, old(data.buf), old(data.begin), VarBytes(c))
    {
      if c < 128 {
        WriteOne(c);
      } else if c < 16384 {
        WriteTwo(c);
      } else if c < 2097152 {
        WriteThree(c);
      } else if c < 268435456 {
        WriteFour(c);
      } else {
        WriteMore(c);
      }
    }

    method WriteVarint(c: nat, w: nat)
      requires Valid() && w >= 1 && c < Pow256(w)
      modifies this`status, data`cur, data`buf
      ensures Put(old(State()), little, old(data.buf), old(data.begin), VarBytes(c))
    {
      assert Pow256(1) == 256 * Pow256(0) && Pow256(2) == 256 * Pow256(1);
      if w == 1 {
        WriteVarintByte(c);
      } else if w == 2 {
        WriteVarintShort(c);
      } else {
        WriteVarintWide(c);
      }
    }

    /** The groups from the fifth on, each with room of its own. */
    method WriteRest(c1: nat, ghost b: StreamBase.State, ghost before: seq<byte>, ghost c0: nat, ghost s0: seq<byte>)
      requires Written(b, little, before, data.begin, s0) && Room(1) && Left(c0, s0, c1) && b.len == None
      modifies this`status, data`cur, data`buf
      ensures Put(b, little, before, data.begin, VarBytes(c0))
    {
      hide Put, Written, Room, Low, Left;
      var c := c1;
      ghost var s := s0;
      while true
        invariant Written(b, little, before, data.begin, s) && Room(1) && Left(c0, s, c)
        invariant data.begin == old(data.begin) && little == old(little)
        decreases c
      {
        if c < 128 {
          EmitLast(c, b, before, c0, s);
          break;
        } else {
          EmitLow(c, b, before, c0, s, 0);
          s := s + [Low(c)];
        }
        c := c / 128;
        var ok := More(b, before, c0, s, c);
        if !ok {
          break;
        }
      }
    }

    /** `while(ensure(1))` */
    method More(ghost b: StreamBase.State, ghost before: seq<byte>, ghost c0: nat, ghost s: seq<byte>, ghost c: nat)
        returns (ok: bool)
      requires Written(b, little, before, data.begin, s) && Left(c0, s, c) && b.len == None
      modifies this`status, data`buf
      ensures ok ==> Written(b, little, before, data.begin, s) && Room(1)
      ensures !ok ==> Put(b, little, before, data.begin, VarBytes(c0))
    {
      ghost var middle := data.buf;
      ok := Ensure(1);
      if ok {
        WroteNothing(middle, data.buf, data.begin + data.cur);
        WroteMore(before, middle, data.buf, data.begin + b.cur, s, []);
        assert s + [] == s;
      }
    }

    /** `writeRaw`: one copy if the elements are in memory as they are in the data, a loop otherwise. */
    method WriteRaw(t: Type, vs: seq<Value>)
      requires Valid() && WellFormed(t) && AllTyped(t, vs)
      modifies this`status, this`little, data`cur, data`buf
      ensures Put(old(State()), old(little), old(data.buf), old(data.begin), EncodeAll(old(little), t, vs))
      decreases Depth(t), |vs|, 3
    {
      if vs == [] {
        OutcomeNothing(State(), data.buf, data.begin);
      } else if !t.Pod? || (t.w > 1 && host != little) {
        WriteEach(t, vs);
      } else {
        SamePods(host, little, t.w, vs);
        Store(EncodeAll(host, t, vs));
      }
    }

    method WriteEach(t: Type, vs: seq<Value>)
      requires Valid() && WellFormed(t) && AllTyped(t, vs)
      modifies this`status, this`little, data`cur, data`buf
      ensures Put(old(State()), old(little), old(data.buf), old(data.begin), EncodeAll(old(little), t, vs))
      decreases Depth(t), |vs|, 2
    {
      hide Encode, Outcome, AllTyped, Typed;
      ghost var b, before, begin := State(), data.buf, data.begin;
      OutcomeNothing(b, before, begin);
      var i := 0;
      Prefix(little, t, vs, 0);
      while status == 0 && i < |vs|
        invariant i <= |vs| && AllTyped(t, vs[..i])
        invariant Put(b, old(little), before, begin, EncodeAll(old(little), t, vs[..i]))
      {
        ghost var m, middle := State(), data.buf;
        Prefix(little, t, vs, i);
        Write(t, vs[i]);
        OutcomeThen(b, before, begin, EncodeAll(little, t, vs[..i]), m, middle, Encode(little, t, vs[i]),
            State(), data.buf);
        i := i + 1;
      }
      ghost var rest := Suffix(old(little), t, vs, i);
      SuffixRest(old(little), t, vs, i);
      if status != 0 {
        OutcomeFailed(b, before, begin, EncodeAll(old(little), t, vs[..i]), rest, State(), data.buf);
      } else {
        assert vs[..i] == vs;
      }
    }

    /** `<<` for a value of any type. */
    method Write(t: Type, v: Value)
      requires Valid() && WellFormed(t) && Typed(t, v)
      modifies this`status, this`little, data`cur, data`buf
      ensures Put(old(State()), old(little), old(data.buf), old(data.begin), Encode(old(little), t, v))
      decreases Depth(t), 0, 2
    {
      hide Outcome, PodBytes, VarBytes, ToUnsigned, Pow256, EncodeAll;
      match t
      case Pod(w) => WritePod(v.n, w);
      case Var(w) => WriteVarint(v.n, w);
      case Zig(w) => WriteVarint(ToUnsigned(v.n, w), w);
      case Array(_, _, _) => WriteArray(t, v);
      case Pair(first, second) =>
        ghost var b, before, begin := State(), data.buf, data.begin;
        Write(first, v.a);
        ghost var m, middle := State(), data.buf;
        Write(second, v.b);
        OutcomeThen(b, before, begin, Encode(little, first, v.a), m, middle, Encode(little, second, v.b),
            State(), data.buf);
      case Ordered(order, inner) =>
        var order0 := little;
        little := order;
        Write(inner, v);
        little := order0;
    }

    /** A count of zero, the elements, and then the count where the zero was. */
    method WriteArray(t: Type, v: Value)
      requires Valid() && WellFormed(t) && t.Array? && Typed(t, v)
      modifies this`status, this`little, data`cur, data`buf
      ensures Put(old(State()), old(little), old(data.buf), old(data.begin), Encode(old(little), t, v))
      decreases Depth(t), 0, 1
    {
      hide Outcome, PodBytes, Pow256, EncodeAll;
      ghost var b, before, begin := State(), data.buf, data.begin;
      var off, vs := data.cur, v.elems;
      var n := |vs| % Pow256(t.count);
      ghost var x, y, z := PodBytes(little, 0, t.count), EncodeAll(little, t.elem, vs), PodBytes(little, n, t.count);
      WritePod(0, t.count);
      if status == 0 && vs != [] {
        ghost var m, middle := State(), data.buf;
        WriteRaw(t.elem, vs);
        OutcomeThen(b, before, begin, x, m, middle, y, State(), data.buf);
        if status == 0 {
          ghost var m2, middle2 := State(), data.buf;
          OutcomeGood(b, before, begin, x + y, m2, middle2);
          OffsetValue(off, Pod(t.count), Num(n));
          OutcomeOver(b, before, begin, x, y, z, m2, middle2, State(), data.buf);
        } else {
          OutcomeSize(b, before, begin, x + y, z + y, State(), data.buf);
        }
      } else if status != 0 {
        OutcomeFailed(b, before, begin, x, y, State(), data.buf);
        OutcomeSize(b, before, begin, x + y, z + y, State(), data.buf);
      } else {
        ZeroCount(little, t.elem, t.count);
      }
    }

    /** `Manip::offset_value` */
    method OffsetValue(pos: nat, t: Type, v: Value)
      requires Valid() && WellFormed(t) && Typed(t, v)
      modifies this`status, this`little, data`cur, data`buf
      ensures Valid() && little == old(little) && data.begin == old(data.begin)
      ensures Detour(old(State()), old(data.buf), data.begin, pos, Encode(little, t, v), State(), data.buf)
      decreases Depth(t), 0, 3
    {
      hide Outcome, Detour, Encode;
      ghost var b, before, s := State(), data.buf, Encode(little, t, v);
      var cur := data.cur;
      var ok := Seek(pos);
      ghost var m, grown := State(), data.buf;
      if ok {
        Write(t, v);
        DetourWritten(b, before, data.begin, pos, s, m, grown, State(), data.buf);
        if status == 0 {
          ok := Seek(cur);
        }
      } else {
        DetourFailed(b, before, data.begin, pos, s);
      }
    }

    /** `Manip::insert`: before the cursor the value goes through a stream of its own, which is always in
        network order. */
    method Insert(pos: nat, t: Type, v: Value)
      requires Valid() && WellFormed(t) && Typed(t, v)
      modifies this`status, this`little, data`cur, data`buf
      ensures Valid() && little == old(little) && stubs == old(stubs) && data.begin == old(data.begin)
      ensures old(status) != 0 ==> State() == old(State()) && data.buf == old(data.buf)
      ensures old(status) == 0 && pos < old(data.cur) ==>
        var s := Encode(false, t, v);
        && (status == 0 <==> old(State()).Within(old(data.cur) + |s|))
        && (status == 0 ==> data.Text() == old(data.Text())[..pos] + s + old(data.Text())[pos..])
        && (status != 0 ==> status == 1 && data.buf == old(data.buf) && data.cur == old(data.cur))
        && data.buf[..data.begin] == old(data.buf)[..data.begin]
      ensures old(status) == 0 && pos >= old(data.cur) ==>
        var s := Encode(little, t, v);
        && (status == 0 <==> old(State()).Within(pos + |s|))
        && (status == 0 ==> data.cur == pos + |s| && Wrote(old(data.buf), data.buf, data.begin + pos, s))
    {
      hide Encode, Wrote;
      if data.cur <= pos {
        WriteAt(pos, t, v);
      } else {
        var bytes := Packed(t, v);
        if bytes != [] {
          InsertBytes(pos, bytes);
        } else {
          assert data.Text() == data.Text()[..pos] + [] + data.Text()[pos..];
        }
      }
    }

    method InsertBytes(pos: nat, bytes: seq<byte>)
      requires Valid() && bytes != [] && pos < data.cur
      modifies this`status, data`cur, data`buf
      ensures Valid()
      ensures old(status) != 0 ==> State() == old(State()) && data.buf == old(data.buf)
      ensures old(status) == 0 ==>
        && (status == 0 <==> old(State()).Within(old(data.cur) + |bytes|))
        && (status == 0 ==> data.Text() == old(data.Text())[..pos] + bytes + old(data.Text())[pos..])
        && (status != 0 ==> status == 1 && data.buf == old(data.buf) && data.cur == old(data.cur))
        && data.buf[..data.begin] == old(data.buf)[..data.begin]
    {
      var ok := Ensure(|bytes|);
      if ok {
        Unmoved(old(data.buf), data.buf, data.begin, data.begin + data.cur);
        data.Insert(pos, bytes);
      }
    }

    method WriteAt(pos: nat, t: Type, v: Value)
      requires Valid() && WellFormed(t) && Typed(t, v) && data.cur <= pos
      modifies this`status, this`little, data`cur, data`buf
      ensures Valid() && little == old(little) && data.begin == old(data.begin)
      ensures PlacedAt(old(State()), old(data.buf), data.begin, pos, Encode(little, t, v), State(), data.buf)
    {
      hide Encode, Outcome, PlacedAt, Typed;
      ghost var b, before, s := State(), data.buf, Encode(little, t, v);
      if data.cur == pos {
        Write(t, v);
        OutcomeAt(b, before, data.begin, pos, s, b, before, State(), data.buf);
      } else {
        var ok := Seek(pos);
        ghost var m, grown := State(), data.buf;
        if ok {
          Write(t, v);
          OutcomeAt(b, before, data.begin, pos, s, m, grown, State(), data.buf);
        } else {
          NotPlaced(b, before, data.begin, pos, s);
        }
      }
    }

    /** The inner stream: a new one without stubs does not fail. */
    method Packed(t: Type, v: Value) returns (bytes: seq<byte>)
      requires WellFormed(t) && Typed(t, v)
      ensures bytes == Encode(false, t, v)
    {
      hide Encode;
      var buf := new GrowingBuffer.Reference([]);
      var ds := new OutStream(buf, host, true);
      ds.Write(t, v);
      assert ds.status == 0;
      ds.Finish();
      bytes := buf.buf;
    }

    /** Cuts the buffer to what was written and takes the stubs away. */
    method Finish()
      requires Valid()
      modifies this`stubs, data
      ensures Valid() && status == old(status)
      ensures status == 0 ==> data.buf == old(data.buf[..data.begin + data.cur])
      ensures status == 0 ==> data.begin == data.cur == 0 && stubs == []
      ensures status != 0 ==> State() == old(State()) && data.buf == old(data.buf) && data.begin == old(data.begin)
    {
      if status == 0 {
        data.ExportData();
        stubs := [];
      }
    }

    method LittleEndian(order: bool)
      modifies this`little
      ensures little == order
    {
      little := order;
    }
  }

  /** Writing `s` at `pos`, at the cursor or behind it. */
  ghost predicate PlacedAt(b: StreamBase.State, before: seq<byte>, begin: nat, pos: nat, s: seq<byte>,
      a: StreamBase.State, after: seq<byte>) {
    && a.stubs == b.stubs && a.len == b.len
    && (if !b.Good() then a == b && after == before
        else if b.Within(pos + |s|) then
          a.status == 0 && a.cur == pos + |s| && Wrote(before, after, begin + pos, s)
        else a.status != 0)
  }

  lemma NotPlaced(b: StreamBase.State, before: seq<byte>, begin: nat, pos: nat, s: seq<byte>)
    requires !StreamBase.Sought(b, pos).Good()
    ensures PlacedAt(b, before, begin, pos, s, StreamBase.Sought(b, pos), before)
  {
  }

  lemma OutcomeAt(b: StreamBase.State, before: seq<byte>, begin: nat, pos: nat, s: seq<byte>,
                  m: StreamBase.State, grown: seq<byte>, a: StreamBase.State, after: seq<byte>)
    requires before <= grown && m == b.(cur := pos) && Outcome(m, grown, begin, s, a, after)
    requires !b.Good() ==> m == b && grown == before
    ensures PlacedAt(b, before, begin, pos, s, a, after)
  {
    hide Wrote, Kept;
    if a.Good() && b.Good() {
      WroteGrown(before, grown, after, begin + pos, s);
    }
  }

  lemma Unmoved(a: seq<byte>, b: seq<byte>, begin: nat, end: nat)
    requires a <= b && begin <= end <= |a|
    ensures b[begin..end] == a[begin..end] && b[..begin] == a[..begin]
  {
  }

  /** Writing `s` at `pos` and coming back: on success the state is what it was. */
  ghost predicate Detour(b: StreamBase.State, before: seq<byte>, begin: nat, pos: nat, s: seq<byte>,
      a: StreamBase.State, after: seq<byte>) {
    && a.stubs == b.stubs && a.len == b.len
    && (if !b.Good() then a == b && after == before
        else if b.Within(pos + |s|) then a == b && Wrote(before, after, begin + pos, s)
        else a.status == 1 && Kept(before, after, begin + if pos <= b.cur then pos else b.cur))
  }

  lemma DetourFailed(b: StreamBase.State, before: seq<byte>, begin: nat, pos: nat, s: seq<byte>)
    requires !StreamBase.Sought(b, pos).Good() && begin + b.cur <= |before|
    ensures Detour(b, before, begin, pos, s, StreamBase.Sought(b, pos), before)
  {
  }

  lemma DetourWritten(b: StreamBase.State, before: seq<byte>, begin: nat, pos: nat, s: seq<byte>,
                      m: StreamBase.State, grown: seq<byte>, a: StreamBase.State, after: seq<byte>)
    requires b.Safe() && begin + b.cur <= |before| && before <= grown && b.len == None
    requires m == StreamBase.Sought(b, pos) && m.Good() && Outcome(m, grown, begin, s, a, after)
    ensures a.Good() ==>
      && |before| <= |after| && StreamBase.Sought(a, b.cur).Good()
      && Detour(b, before, begin, pos, s, StreamBase.Sought(a, b.cur), after)
    ensures !a.Good() ==> Detour(b, before, begin, pos, s, a, after)
  {
    hide Wrote, Kept;
    if a.Good() {
      WroteGrown(before, grown, after, begin + pos, s);
      WroteLonger(before, after, begin + pos, s);
    } else {
      KeptLess(before, grown, after, begin + pos, begin + if pos <= b.cur then pos else b.cur);
    }
  }

  lemma WroteLonger(a: seq<byte>, b: seq<byte>, at: nat, s: seq<byte>)
    requires Wrote(a, b, at, s)
    ensures |a| <= |b|
  {
  }

  lemma KeptLess(a: seq<byte>, b: seq<byte>, c: seq<byte>, at: nat, less: nat)
    requires a <= b && Kept(b, c, at) && less <= at && less <= |a|
    ensures Kept(a, c, less)
  {
    assert c[..less] == c[..at][..less] == b[..less] == a[..less];
  }

  lemma OutcomeGood(b: StreamBase.State, before: seq<byte>, begin: nat, s: seq<byte>, a: StreamBase.State,
      after: seq<byte>)
    requires Outcome(b, before, begin, s, a, after) && a.Good()
    ensures b.Good() && a.cur == b.cur + |s|
  {
  }

  lemma ZeroCount(little: bool, t: Type, count: nat)
    requires WellFormed(t)
    ensures 0 % Pow256(count) == 0
    ensures PodBytes(little, 0, count) + EncodeAll(little, t, []) == PodBytes(little, 0, count)
  {
  }

  lemma OutcomeSize(b: StreamBase.State, before: seq<byte>, begin: nat, x: seq<byte>, y: seq<byte>,
      a: StreamBase.State, after: seq<byte>)
    requires Outcome(b, before, begin, x, a, after) && !a.Good() && |x| == |y|
    ensures Outcome(b, before, begin, y, a, after)
  {
  }

  /** The count written over the zero. */
  lemma OutcomeOver(b: StreamBase.State, before: seq<byte>, begin: nat, x: seq<byte>, y: seq<byte>, z: seq<byte>,
                    m: StreamBase.State, middle: seq<byte>, a: StreamBase.State, after: seq<byte>)
    requires Outcome(b, before, begin, x + y, m, middle) && m.Good() && |z| == |x|
    requires a == m && Wrote(middle, after, begin + b.cur, z)
    ensures Outcome(b, before, begin, z + y, a, after)
  {
    WroteOver(before, middle, after, begin + b.cur, x, y, z);
  }

  lemma Prefix(little: bool, t: Type, vs: seq<Value>, i: nat)
    requires WellFormed(t) && AllTyped(t, vs) && i <= |vs|
    ensures AllTyped(t, vs[..i]) && (i == 0 ==> EncodeAll(little, t, vs[..i]) == [])
    ensures i < |vs| ==>
      && Typed(t, vs[i]) && AllTyped(t, vs[..i + 1])
      && EncodeAll(little, t, vs[..i + 1]) == EncodeAll(little, t, vs[..i]) + Encode(little, t, vs[i])
  {
    hide Encode, Typed;
    if i < |vs| {
      assert vs[..i + 1][..i] == vs[..i];
    }
  }

  /** What the elements from `i` on come to. */
  ghost function Suffix(little: bool, t: Type, vs: seq<Value>, i: nat): (s: seq<byte>)
    requires WellFormed(t) && AllTyped(t, vs) && i <= |vs|
    decreases |vs|
  {
    if i == |vs| then [] else Suffix(little, t, vs[..|vs| - 1], i) + Encode(little, t, vs[|vs| - 1])
  }

  lemma {:induction false} SuffixRest(little: bool, t: Type, vs: seq<Value>, i: nat)
    requires WellFormed(t) && AllTyped(t, vs) && i <= |vs|
    ensures AllTyped(t, vs[..i]) && EncodeAll(little, t, vs) == EncodeAll(little, t, vs[..i]) + Suffix(little, t, vs, i)
    decreases |vs|
  {
    hide Typed, Encode;
    if i == |vs| {
      assert vs[..i] == vs;
    } else {
      var k := |vs| - 1;
      SuffixRest(little, t, vs[..k], i);
      assert vs[..k][..i] == vs[..i];
      Assoc(EncodeAll(little, t, vs[..i]), Suffix(little, t, vs[..k], i), Encode(little, t, vs[k]));
    }
  }

  /** What is left to write of `c0` after `s`. */
  ghost predicate Left(c0: nat, s: seq<byte>, c: nat) {
    VarBytes(c0) == s + VarBytes(c)
  }

  lemma Shifts(c: nat)
    ensures c / 128 / 128 == c / 16384 && c / 16384 / 128 == c / 2097152 && c / 2097152 / 128 == c / 268435456
    ensures c / 16384 / 16384 == c / 268435456
  {
  }

  lemma VarCount(c: nat)
    ensures Left(c, [], c)
    ensures c >= 128 ==> |VarBytes(c)| >= 2
    ensures c >= 16384 ==> |VarBytes(c)| >= 3
    ensures c >= 2097152 ==> |VarBytes(c)| >= 4
    ensures c >= 268435456 ==> |VarBytes(c)| >= 5
  {
    if c >= 128 {
      VarTwo(c);
      VarCount(c / 128);
    }
  }

  lemma OneByteOrder(host: bool, little: bool, n: nat)
    ensures PodBytes(host, n, 1) == PodBytes(little, n, 1)
  {
    OneByte(Little(n, 1));
  }
}
