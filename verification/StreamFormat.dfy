/** Typed values as bytes: what the output stream writes for them and what the input stream reads. */
module StreamFormat {
  import opened Bytes
  import opened Words
  import opened Varint

  /** An integer of `w` bytes, plain or as a varint, unsigned or signed; an array behind a count of `count`
      bytes, with a limit unless `max` is 0; two things in a row; something in a byte order of its own. */
  datatype Type =
    | Pod(w: nat)
    | Var(w: nat)
    | Zig(w: nat)
    | Array(count: nat, max: nat, elem: Type)
    | Pair(first: Type, second: Type)
    | Ordered(little: bool, inner: Type)

  datatype Value = Num(n: int) | List(elems: seq<Value>) | Two(a: Value, b: Value)

  function Depth(t: Type): nat {
    match t
    case Array(_, _, elem) => 1 + Depth(elem)
    case Pair(first, second) => 1 + Depth(first) + Depth(second)
    case Ordered(_, inner) => 1 + Depth(inner)
    case _ => 0
  }

  predicate WellFormed(t: Type) {
    match t
    case Pod(w) => w >= 1
    case Var(w) => w >= 1
    case Zig(w) => w >= 1
    case Array(count, max, elem) => count >= 1 && max < Pow256(count) && WellFormed(elem)
    case Pair(first, second) => WellFormed(first) && WellFormed(second)
    case Ordered(_, inner) => WellFormed(inner)
  }

  predicate Typed(t: Type, v: Value)
    requires WellFormed(t)
    decreases t, 0
  {
    match t
    case Pod(w) => v.Num? && 0 <= v.n < Pow256(w)
    case Var(w) => v.Num? && 0 <= v.n < Pow256(w)
    case Zig(w) => v.Num? && InRange(v.n, w)
    case Array(_, _, elem) => v.List? && AllTyped(elem, v.elems)
    case Pair(first, second) => v.Two? && Typed(first, v.a) && Typed(second, v.b)
    case Ordered(_, inner) => Typed(inner, v)
  }

  predicate AllTyped(t: Type, vs: seq<Value>)
    requires WellFormed(t)
    decreases t, 1
  {
    forall i :: 0 <= i < |vs| ==> Typed(t, vs[i])
  }

  /** Every array is short enough for its count and its limit. */
  predicate Fits(t: Type, v: Value)
    requires WellFormed(t) && Typed(t, v)
    decreases t, 0
  {
    match t
    case Pod(_) => true
    case Var(_) => true
    case Zig(_) => true
    case Array(count, max, elem) =>
      |v.elems| < Pow256(count) && (max > 0 ==> |v.elems| <= max) && AllFit(elem, v.elems)
    case Pair(first, second) => Fits(first, v.a) && Fits(second, v.b)
    case Ordered(_, inner) => Fits(inner, v)
  }

  predicate AllFit(t: Type, vs: seq<Value>)
    requires WellFormed(t) && AllTyped(t, vs)
    decreases t, 1
  {
    forall i :: 0 <= i < |vs| ==> Fits(t, vs[i])
  }

  // ----- byte order

  function Reversed(s: seq<byte>): (r: seq<byte>)
    ensures |r| == |s|
  {
    if s == [] then [] else Reversed(s[1..]) + [s[0]]
  }

  lemma {:induction false} ReversedTwice(s: seq<byte>)
    ensures Reversed(Reversed(s)) == s
  {
    if s != [] {
      ReversedTwice(s[1..]);
      ReversedAppend(Reversed(s[1..]), s[0]);
    }
  }

  lemma {:induction false} ReversedAppend(s: seq<byte>, b: byte)
    ensures Reversed(s + [b]) == [b] + Reversed(s)
  {
    if s != [] {
      assert (s + [b])[1..] == s[1..] + [b];
      ReversedAppend(s[1..], b);
    }
  }

  /** The bytes of an integer, in the order of the data. */
  function PodBytes(little: bool, n: nat, w: nat): (s: seq<byte>)
    ensures |s| == w
  {
    if little then Little(n, w) else Reversed(Little(n, w))
  }

  lemma {:induction false} LittleAt(n: nat, w: nat, i: nat)
    requires i < w
    ensures Little(n, w)[i] == n / Pow256(i) % 256
  {
    if i > 0 {
      LittleAt(n / 256, w - 1, i - 1);
      DivDiv(n, 256, Pow256(i - 1));
    }
  }

  lemma {:induction false} ReversedAt(s: seq<byte>, i: nat)
    requires i < |s|
    ensures Reversed(s)[i] == s[|s| - 1 - i]
  {
    if i < |s| - 1 {
      ReversedAt(s[1..], i);
    }
  }

  /** Little endian is the lowest byte first; the network's order is the highest first. */
  lemma ByteOrder(n: nat, w: nat, i: nat)
    requires i < w
    ensures PodBytes(true, n, w)[i] == n / Pow256(i) % 256
    ensures PodBytes(false, n, w)[i] == n / Pow256(w - 1 - i) % 256
  {
    hide Little, Reversed, Pow256;
    LittleAt(n, w, i);
    LittleAt(n, w, w - 1 - i);
    ReversedAt(Little(n, w), i);
  }

  function PodValue(little: bool, s: seq<byte>): nat {
    if little then Get(s) else Get(Reversed(s))
  }

  lemma PodRoundTrip(little: bool, n: nat, w: nat)
    requires n < Pow256(w)
    ensures PodValue(little, PodBytes(little, n, w)) == n
  {
    GetLittle(n, w, Pow256(w));
    ReversedTwice(Little(n, w));
  }

  lemma {:induction false} LittleGet(s: seq<byte>)
    ensures Little(Get(s), |s|) == s && Get(s) < Pow256(|s|)
  {
    if s != [] {
      LittleGet(s[1..]);
      DivMod(Get(s), 256, Get(s[1..]), s[0]);
    }
  }

  /** `SwapByteOrder` */
  function Swap(n: nat, w: nat): (m: nat)
    ensures m < Pow256(w)
  {
    LittleGet(Reversed(Little(n, w)));
    Get(Reversed(Little(n, w)))
  }

  /** Swapping when the orders differ and copying the host's memory gives the order of the data, whatever
      the host. */
  lemma SwapBytes(host: bool, little: bool, n: nat, w: nat)
    ensures PodBytes(host, if host != little then Swap(n, w) else n, w) == PodBytes(little, n, w)
  {
    var s := Little(n, w);
    LittleGet(Reversed(s));
    ReversedTwice(s);
  }

  /** The same for reading. */
  lemma SwapValue(host: bool, little: bool, s: seq<byte>)
    ensures PodValue(little, s)
      == if host != little then Swap(PodValue(host, s), |s|) else PodValue(host, s)
  {
    LittleGet(s);
    LittleGet(Reversed(s));
    ReversedTwice(s);
  }

  // ----- writing

  /** The bytes of a value. The count of an array wraps to its type. */
  function Encode(little: bool, t: Type, v: Value): (s: seq<byte>)
    requires WellFormed(t) && Typed(t, v)
    decreases t, 0
  {
    match t
    case Pod(w) => PodBytes(little, v.n, w)
    case Var(w) => VarBytes(v.n)
    case Zig(w) => VarBytes(ToUnsigned(v.n, w))
    case Array(count, _, elem) =>
      PodBytes(little, |v.elems| % Pow256(count), count) + EncodeAll(little, elem, v.elems)
    case Pair(first, second) => Encode(little, first, v.a) + Encode(little, second, v.b)
    case Ordered(order, inner) => Encode(order, inner, v)
  }

  function EncodeAll(little: bool, t: Type, vs: seq<Value>): (s: seq<byte>)
    requires WellFormed(t) && AllTyped(t, vs)
    decreases t, |vs|
  {
    if vs == [] then []
    else
      var k := |vs| - 1;
      EncodeAll(little, t, vs[..k]) + Encode(little, t, vs[k])
  }

  /** Something in an order of its own is written in that order, whatever the order around it. */
  lemma OrderedBytes(little: bool, order: bool, n: nat, w: nat, i: nat)
    requires i < w && n < Pow256(w)
    ensures
      var s := Encode(little, Ordered(order, Pod(w)), Num(n));
      |s| == w && s[i] == n / Pow256(if order then i else w - 1 - i) % 256
  {
    ByteOrder(n, w, i);
  }

  /** Integers as they are in memory, when that is how they are in the data. */
  lemma {:induction false} SamePods(host: bool, little: bool, w: nat, vs: seq<Value>)
    requires w >= 1 && (w == 1 || host == little) && AllTyped(Pod(w), vs)
    ensures EncodeAll(host, Pod(w), vs) == EncodeAll(little, Pod(w), vs)
    ensures vs != [] ==> EncodeAll(little, Pod(w), vs) != []
  {
    if vs != [] {
      var k := |vs| - 1;
      SamePods(host, little, w, vs[..k]);
      if w == 1 {
        OneByte(Little(vs[k].n, 1));
      }
    }
  }

  lemma OneByte(s: seq<byte>)
    requires |s| <= 1
    ensures Reversed(s) == s
  {
  }

  // ----- reading

  function ParsePod(little: bool, w: nat, data: seq<byte>, at: nat, limit: nat): (r: Option<(nat, nat)>)
    requires at <= limit <= |data|
    ensures r.Some? ==> at <= r.value.1 <= limit
  {
    if at + w <= limit then Some((PodValue(little, data[at..at + w]), at + w)) else None
  }

  function Parse(little: bool, t: Type, data: seq<byte>, at: nat, limit: nat): (r: Option<(Value, nat)>)
    requires WellFormed(t) && at <= limit <= |data|
    ensures r.Some? ==> at <= r.value.1 <= limit
    decreases t, 0
  {
    match t
    case Pod(w) =>
      (match ParsePod(little, w, data, at, limit)
       case None => None
       case Some((n, next)) => Some((Num(n), next)))
    case Var(w) =>
      (match ParseVar(w, data, at, limit)
       case None => None
       case Some((n, next)) => Some((Num(n), next)))
    case Zig(w) =>
      (match ParseVar(w, data, at, limit)
       case None => None
       case Some((n, next)) => Some((Num(FromUnsigned(n, w)), next)))
    case Array(count, max, elem) =>
      (match ParsePod(little, count, data, at, limit)
       case None => None
       case Some((n, mid)) =>
         if max > 0 && n > max then None
         else
           match ParseAll(little, elem, n, data, mid, limit)
           case None => None
           case Some((vs, next)) => Some((List(vs), next)))
    case Pair(first, second) =>
      (match Parse(little, first, data, at, limit)
       case None => None
       case Some((a, mid)) =>
         match Parse(little, second, data, mid, limit)
         case None => None
         case Some((b, next)) => Some((Two(a, b), next)))
    case Ordered(order, inner) => Parse(order, inner, data, at, limit)
  }

  function ParseAll(little: bool, t: Type, n: nat, data: seq<byte>, at: nat, limit: nat): (r: Option<(seq<Value>, nat)>)
    requires WellFormed(t) && at <= limit <= |data|
    ensures r.Some? ==> at <= r.value.1 <= limit && |r.value.0| == n
    decreases t, n
  {
    if n == 0 then Some(([], at))
    else
      match ParseAll(little, t, n - 1, data, at, limit)
      case None => None
      case Some((vs, mid)) =>
        match Parse(little, t, data, mid, limit)
        case None => None
        case Some((v, next)) => Some((vs + [v], next))
  }

  /** A read that failed for some elements fails for more. */
  lemma {:induction false} ParseAllFails(little: bool, t: Type, m: nat, n: nat, data: seq<byte>, at: nat, limit: nat)
    requires WellFormed(t) && at <= limit <= |data| && m <= n && ParseAll(little, t, m, data, at, limit).None?
    ensures ParseAll(little, t, n, data, at, limit).None?
  {
    if m < n {
      ParseAllFails(little, t, m, n - 1, data, at, limit);
    }
  }

  /** Integers copied from memory in the host's order. */
  function Pods(host: bool, w: nat, n: nat, s: seq<byte>): (vs: seq<Value>)
    requires |s| == n * w
    ensures |vs| == n
  {
    if n == 0 then []
    else
      OneMore(n, w);
      Pods(host, w, n - 1, s[..|s| - w]) + [Num(PodValue(host, s[|s| - w..]))]
  }

  lemma OneMore(n: nat, w: nat)
    requires n > 0
    ensures n * w == (n - 1) * w + w && (n - 1) * w >= 0
  {
  }

  lemma SamePod(host: bool, little: bool, s: seq<byte>)
    requires host == little || |s| <= 1
    ensures PodValue(host, s) == PodValue(little, s)
  {
    if |s| <= 1 {
      OneByte(s);
    }
  }

  /** One copy of the whole array reads what the loop over its elements reads. */
  lemma {:induction false} PodsAll(host: bool, little: bool, w: nat, n: nat, data: seq<byte>,
                                   at: nat, limit: nat, size: nat)
    requires w >= 1 && (w == 1 || host == little) && at <= limit <= |data| && size == n * w
    ensures ParseAll(little, Pod(w), n, data, at, limit)
      == if at + size <= limit then Some((Pods(host, w, n, data[at..at + size]), at + size)) else None
  {
    hide PodValue, Pods;
    if n > 0 {
      OneMore(n, w);
      var less := size - w;
      PodsAll(host, little, w, n - 1, data, at, limit, less);
      if at + size <= limit {
        hide ParsePod;
        var s := data[at..at + size];
        PodsLast(host, w, n, s);
        LastSlice(data, at, less, w);
        SamePod(host, little, s[less..]);
        ParsesPod(little, w, data, at + less, limit);
      }
    }
  }

  lemma LastSlice(data: seq<byte>, at: nat, less: nat, w: nat)
    requires at + less + w <= |data|
    ensures data[at..at + (less + w)][..less] == data[at..at + less]
    ensures data[at..at + (less + w)][less..] == data[at + less..at + less + w]
  {
  }

  lemma ParsesPod(little: bool, w: nat, data: seq<byte>, at: nat, limit: nat)
    requires w >= 1 && at + w <= limit <= |data|
    ensures Parse(little, Pod(w), data, at, limit) == Some((Num(PodValue(little, data[at..at + w])), at + w))
  {
    hide PodValue;
  }

  lemma PodsLast(host: bool, w: nat, n: nat, s: seq<byte>)
    requires n > 0 && |s| == n * w
    ensures |s| >= w && |s| - w == (n - 1) * w
    ensures Pods(host, w, n, s) == Pods(host, w, n - 1, s[..|s| - w]) + [Num(PodValue(host, s[|s| - w..]))]
  {
    OneMore(n, w);
  }

  // ----- round trip

  /** `s` is what the data say at `at`, below the limit. */
  ghost predicate Says(data: seq<byte>, at: nat, limit: nat, s: seq<byte>) {
    at + |s| <= limit <= |data| && data[at..at + |s|] == s
  }

  lemma SaysParts(data: seq<byte>, at: nat, limit: nat, a: seq<byte>, b: seq<byte>)
    requires Says(data, at, limit, a + b)
    ensures Says(data, at, limit, a) && Says(data, at + |a|, limit, b)
  {
    assert data[at..at + |a|] == data[at..at + |a + b|][..|a|];
    assert data[at + |a|..at + |a| + |b|] == data[at..at + |a + b|][|a|..];
  }

  /** The read got `v` and ended at `end` if it could, and failed or got something else if not. */
  ghost predicate Back<T(!new)>(r: Option<(T, nat)>, could: bool, v: T, end: nat) {
    if could then r == Some((v, end)) else r.None? || r.value.0 != v
  }

  /** Reading what was written gives the value back and ends where the writing ended, exactly when every
      array fits its count and its limit; otherwise the read fails or gives another value. */
  lemma {:induction false} RoundTrip(little: bool, t: Type, v: Value, data: seq<byte>, at: nat, limit: nat)
    requires WellFormed(t) && Typed(t, v) && Says(data, at, limit, Encode(little, t, v))
    ensures Back(Parse(little, t, data, at, limit), Fits(t, v), v, at + |Encode(little, t, v)|)
    decreases t, 0, 1
  {
    hide PodValue, PodBytes, VarBytes, ParseVar, ToUnsigned, FromUnsigned, Pow256;
    hide AllTyped, AllFit, EncodeAll, ParseAll;
    match t
    case Pod(w) => PodRoundTrip(little, v.n, w);
    case Var(w) => VarRoundTrip(w, v.n, data, at, limit);
    case Zig(w) =>
      VarRoundTrip(w, ToUnsigned(v.n, w), data, at, limit);
      ZigZagOnly(v.n, w);
    case Array(count, max, elem) => ArrayRoundTrip(little, t, v, data, at, limit);
    case Pair(_, _) => PairRoundTrip(little, t, v, data, at, limit);
    case Ordered(order, inner) => RoundTrip(order, inner, v, data, at, limit);
  }

  lemma {:induction false} PairRoundTrip(little: bool, t: Type, v: Value, data: seq<byte>, at: nat, limit: nat)
    requires WellFormed(t) && t.Pair? && Typed(t, v) && Says(data, at, limit, Encode(little, t, v))
    ensures Back(Parse(little, t, data, at, limit), Fits(t, v), v, at + |Encode(little, t, v)|)
    decreases t, 0, 0
  {
    hide Says;
    var x, y := Encode(little, t.first, v.a), Encode(little, t.second, v.b);
    SaysParts(data, at, limit, x, y);
    RoundTrip(little, t.first, v.a, data, at, limit);
    SaysRoom(data, at + |x|, limit, y);
    RoundTrip(little, t.second, v.b, data, at + |x|, limit);
  }

  lemma ZigZagOnly(v: int, w: nat)
    requires w >= 1 && InRange(v, w)
    ensures FromUnsigned(ToUnsigned(v, w), w) == v
  {
    ZigZagRoundTrip(v, 0, w);
  }

  lemma {:induction false} ArrayRoundTrip(little: bool, t: Type, v: Value, data: seq<byte>, at: nat, limit: nat)
    requires WellFormed(t) && t.Array? && Typed(t, v) && Says(data, at, limit, Encode(little, t, v))
    ensures Back(Parse(little, t, data, at, limit), Fits(t, v), v, at + |Encode(little, t, v)|)
    decreases t.elem, |v.elems| + 1
  {
    hide PodValue, PodBytes, Pow256, AllTyped, AllFit, EncodeAll, ParseAll;
    var n := |v.elems| % Pow256(t.count);
    SaysParts(data, at, limit, PodBytes(little, n, t.count), EncodeAll(little, t.elem, v.elems));
    PodRoundTrip(little, n, t.count);
    if |v.elems| < Pow256(t.count) {
      DivMod(|v.elems|, Pow256(t.count), 0, |v.elems|);
      AllRoundTrip(little, t.elem, v.elems, data, at + t.count, limit);
    }
  }

  lemma {:induction false} AllRoundTrip(little: bool, t: Type, vs: seq<Value>, data: seq<byte>, at: nat, limit: nat)
    requires WellFormed(t) && AllTyped(t, vs) && Says(data, at, limit, EncodeAll(little, t, vs))
    ensures Back(ParseAll(little, t, |vs|, data, at, limit), AllFit(t, vs), vs, at + |EncodeAll(little, t, vs)|)
    decreases t, |vs|
  {
    hide Typed, Fits, Encode, Parse, Says, Back;
    if vs == [] {
      SaysRoom(data, at, limit, EncodeAll(little, t, vs));
      AllNothing(little, t, vs, data, at, limit);
    } else {
      hide AllTyped, AllFit, ParseAll;
      var k := |vs| - 1;
      AllFitParts(t, vs);
      var x, y := EncodeAll(little, t, vs[..k]), Encode(little, t, vs[k]);
      SaysParts(data, at, limit, x, y);
      AllRoundTrip(little, t, vs[..k], data, at, limit);
      SaysRoom(data, at + |x|, limit, y);
      RoundTrip(little, t, vs[k], data, at + |x|, limit);
      ParseLast(little, t, vs, data, at, limit, at + |x|);
    }
  }

  lemma AllNothing(little: bool, t: Type, vs: seq<Value>, data: seq<byte>, at: nat, limit: nat)
    requires WellFormed(t) && vs == [] && AllTyped(t, vs) && at <= limit <= |data|
    ensures Back(ParseAll(little, t, |vs|, data, at, limit), AllFit(t, vs), vs, at + |EncodeAll(little, t, vs)|)
  {
  }

  lemma SaysRoom(data: seq<byte>, at: nat, limit: nat, s: seq<byte>)
    requires Says(data, at, limit, s)
    ensures at <= limit <= |data|
  {
  }

  /** All but the last, then the last. */
  lemma ParseLast(little: bool, t: Type, vs: seq<Value>, data: seq<byte>, at: nat, limit: nat, mid: nat)
    requires WellFormed(t) && vs != [] && AllTyped(t, vs) && at <= mid <= limit <= |data|
    requires AllTyped(t, vs[..|vs| - 1]) && Typed(t, vs[|vs| - 1])
    requires Back(ParseAll(little, t, |vs| - 1, data, at, limit), AllFit(t, vs[..|vs| - 1]), vs[..|vs| - 1], mid)
    requires
      var v := vs[|vs| - 1];
      Back(Parse(little, t, data, mid, limit), Fits(t, v), v, mid + |Encode(little, t, v)|)
    ensures
      Back(ParseAll(little, t, |vs|, data, at, limit), AllFit(t, vs), vs, mid + |Encode(little, t, vs[|vs| - 1])|)
  {
    hide Typed, Fits, Encode, Parse, AllTyped, AllFit, EncodeAll;
    AllFitParts(t, vs);
    assert vs == vs[..|vs| - 1] + [vs[|vs| - 1]];
  }

  lemma AllFitParts(t: Type, vs: seq<Value>)
    requires WellFormed(t) && AllTyped(t, vs) && vs != []
    ensures AllTyped(t, vs[..|vs| - 1]) && Typed(t, vs[|vs| - 1])
    ensures AllFit(t, vs) <==> AllFit(t, vs[..|vs| - 1]) && Fits(t, vs[|vs| - 1])
  {
    hide Typed, Fits;
    var k := |vs| - 1;
    assert forall i :: 0 <= i < k ==> vs[..k][i] == vs[i];
  }

  /** 256 bytes behind a count of one byte: the count says 0, and reading gives an empty array and stops
      behind the count. */
  lemma LongArray(little: bool, elems: seq<Value>)
    requires |elems| == 256 && AllTyped(Pod(1), elems)
    ensures
      var t, v := Array(1, 0, Pod(1)), List(elems);
      && WellFormed(t) && Typed(t, v) && !Fits(t, v)
      && Parse(little, t, Encode(little, t, v), 0, |Encode(little, t, v)|) == Some((List([]), 1))
  {
    hide AllTyped, EncodeAll;
    assert Pow256(1) == 256 * Pow256(0);
    var data := Encode(little, Array(1, 0, Pod(1)), List(elems));
    assert data[0..1] == PodBytes(little, 0, 1);
    PodRoundTrip(little, 0, 1);
  }

  /** An array over its limit: its own bytes are refused. */
  lemma ArrayOverLimit(little: bool, max: nat, elem: Type, elems: seq<Value>)
    requires WellFormed(elem) && AllTyped(elem, elems) && 0 < max < |elems| < 256
    ensures
      var t, v := Array(1, max, elem), List(elems);
      && WellFormed(t) && Typed(t, v) && !Fits(t, v)
      && Parse(little, t, Encode(little, t, v), 0, |Encode(little, t, v)|) == None
  {
    hide AllTyped, EncodeAll, ParseAll;
    assert Pow256(1) == 256 * Pow256(0);
    var n := |elems|;
    DivMod(n, 256, 0, n);
    var data := Encode(little, Array(1, max, elem), List(elems));
    assert data[0..1] == PodBytes(little, n, 1);
    PodRoundTrip(little, n, 1);
  }
}
