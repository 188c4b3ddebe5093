/** lzo1x_1_compress: the matcher, the block compressor and the block driver. */
module LzoCompress {
  import opened Bytes
  import opened Words
  import opened Lz77
  import opened LzoFormat
  import opened LzoParse

  /** Write a count in its extended form. */
  method WriteExt(out: array<byte>, op0: nat, n: nat) returns (op: nat)
    requires 1 <= n && op0 + n / 255 + 1 <= out.Length
    modifies out
    ensures op <= op0 + n / 255 + 1
    ensures out[..op] == old(out[..op0]) + Ext(n)
  {
    op := op0;
    var tt := n;
    while tt > 255
      invariant 1 <= tt <= n && op <= out.Length
      invariant op - op0 == (n - tt) / 255 && (n - tt) % 255 == 0
      invariant out[..op] + Ext(tt) == old(out[..op0]) + Ext(n)
    {
      ghost var before := out[..op];
      op := Put(out, op, 0);
      assert before + ([0] + Ext(tt - 255)) == (before + [0]) + Ext(tt - 255);
      tt := tt - 255;
    }
    op := Put(out, op, tt);
  }

  /** Copy a long run, sixteen bytes at a time and then byte by byte. */
  method WriteLongRun(out: array<byte>, op0: nat, src: seq<byte>, ii0: nat, ip: nat) returns (op: nat)
    requires ii0 + 16 <= ip <= |src| && op0 + (ip - ii0) <= out.Length
    modifies out
    ensures op == op0 + (ip - ii0)
    ensures out[..op] == old(out[..op0]) + src[ii0..ip]
  {
    ghost var front := out[..op0];
    op := op0;
    var ii := ii0;
    while ip - ii >= 16
      invariant ii0 <= ii <= ip && op - op0 == ii - ii0
      invariant out[..op] == front + src[ii0..ii]
    {
      CopyNextWord(out, op, src, ii, 8, front, ii0);
      CopyNextWord(out, op + 8, src, ii + 8, 8, front, ii0);
      op := op + 16;
      ii := ii + 16;
    }
    op := WriteBytes(out, op, src, ii, ip);
    JoinSlices(src, ii0, ii, ip);
    Assoc(front, src[ii0..ii], src[ii..ip]);
  }

  /** A run of 4 to 16 literals. The stores always take sixteen bytes. */
  method WriteMediumRun(src: seq<byte>, ii: nat, ip: nat, out: array<byte>, op0: nat) returns (op: nat)
    requires ii + 4 <= ip <= ii + 16 && ip + 16 <= |src| && op0 + 17 <= out.Length
    modifies out
    ensures op == op0 + 1 + (ip - ii)
    ensures out[..op] == old(out[..op0]) + Run(src[ii..ip])
  {
    hide Run;
    ghost var front := out[..op0];
    var t := ip - ii;
    op := Put(out, op0, t - 3);
    assert out[..op] == front + [t - 3] + src[ii..ii];
    CopyNextWord(out, op, src, ii, 8, front + [t - 3], ii);
    CopyNextWord(out, op + 8, src, ii + 8, 8, front + [t - 3], ii);
    MediumBytes(out[..op + 16], front, src, ii, ip);
    op := op + t;
    SliceOfPrefix(out[..], 0, op, op0 + 17);
  }

  /** What is left of sixteen bytes stored for a run of fewer. */
  lemma MediumBytes(bytes: seq<byte>, front: seq<byte>, src: seq<byte>, ii: nat, ip: nat)
    requires ii + 4 <= ip <= ii + 16 <= |src|
    requires bytes == front + [ip - ii - 3] + src[ii..ii + 16]
    ensures bytes[..|front| + 1 + (ip - ii)] == front + Run(src[ii..ip])
  {
    var t := ip - ii;
    var header := front + [t - 3];
    assert bytes[..|header| + t] == header + src[ii..ii + 16][..t];
    assert src[ii..ii + 16][..t] == src[ii..ip];
    Assoc(front, [t - 3], src[ii..ip]);
  }

  /** A literal run of at least four bytes. */
  method WriteRun(src: seq<byte>, ii: nat, ip: nat, out: array<byte>, op0: nat) returns (op: nat)
    requires ii + 4 <= ip && ip + 16 <= |src|
    requires op0 + (ip - ii) + (ip - ii) / 255 + 19 <= out.Length
    modifies out
    ensures op <= op0 + (ip - ii) + (ip - ii) / 255 + 2
    ensures out[..op] == old(out[..op0]) + Run(src[ii..ip])
  {
    var t := ip - ii;
    hide RunHeader;
    if t <= 16 {
      op := WriteMediumRun(src, ii, ip, out, op0);
    } else {
      ghost var front := out[..op0];
      op := WriteRunHeader(t, out, op0);
      op := WriteLongRun(out, op, src, ii, ip);
      Assoc(front, RunHeader(t), src[ii..ip]);
    }
  }

  /** What stands before a run of more than three literals. */
  method WriteRunHeader(t: nat, out: array<byte>, op0: nat) returns (op: nat)
    requires 4 <= t && op0 + t / 255 + 2 <= out.Length
    modifies out
    ensures op <= op0 + t / 255 + 2
    ensures out[..op] == old(out[..op0]) + RunHeader(t)
  {
    if t <= 18 {
      op := Put(out, op0, t - 3);
    } else {
      op := Put(out, op0, 0);
      op := WriteExt(out, op, t - 18);
    }
  }

  /** The literals before a match. A run of one to three bytes goes into the spare bits of the match
      before it; they are clear, so the source's OR is an addition. */
  method WriteLiterals(src: seq<byte>, ii: nat, ip: nat, out: array<byte>, op0: nat) returns (op: nat)
    requires ii <= ip && ip + 16 <= |src|
    requires op0 + (ip - ii) + (ip - ii) / 255 + 19 <= out.Length
    requires Patchable(out[..op0], ip - ii)
    modifies out
    ensures op <= op0 + (ip - ii) + (ip - ii) / 255 + 2
    ensures out[..op] == Patch(old(out[..op0]), ip - ii) + Run(src[ii..ip])
  {
    op := op0;
    var t := ip - ii;
    if t == 0 {
    } else if t <= 3 {
      ghost var e := out[..op];
      out[op - 2] := out[op - 2] + t;
      assert out[..op] == Patch(e, t);
      CopyWord(out, op, src, ii, 4);
      op := op + t;
      assert out[..op] == out[..op0 + 4][..op];
      assert src[ii..ip] == src[ii..ii + 4][..t];
    } else {
      op := WriteRun(src, ii, ip, out, op);
    }
  }

  method WriteLength(marker: nat, max: nat, len: nat, out: array<byte>, op0: nat) returns (op: nat)
    requires 4 <= len && max <= M3_MAX_LEN && marker <= M3_MARKER
    requires op0 + len / 255 + 2 <= out.Length
    modifies out
    ensures op <= op0 + len / 255 + 2
    ensures out[..op] == old(out[..op0]) + Length(marker, max, len)
  {
    if len <= max {
      op := Put(out, op0, marker + (len - 2));
    } else {
      op := Put(out, op0, marker);
      op := WriteExt(out, op, len - max);
    }
  }

  method WriteOffset(o: nat, out: array<byte>, op0: nat) returns (op: nat)
    requires op0 + 2 <= out.Length
    modifies out
    ensures op == op0 + 2
    ensures out[..op] == old(out[..op0]) + [o % 64 * 4, o / 64 % 256]
  {
    assert o * 4 % 256 == o % 64 * 4;
    op := Put(out, op0, o * 4 % 256);
    op := Put(out, op, o / 64 % 256);
  }

  /** A match, with nothing in its spare bits yet. */
  method WriteMatch(off: nat, len: nat, out: array<byte>, op0: nat) returns (op: nat)
    requires 1 <= off <= M4_MAX_OFFSET && 4 <= len
    requires op0 + len / 255 + 4 <= out.Length
    modifies out
    ensures op <= out.Length && out[..op] == old(out[..op0]) + Code(off, len, 0)
  {
    hide Ext, Length;
    if len <= M2_MAX_LEN && off <= M2_MAX_OFFSET {
      var mOff := off - 1;
      op := Put(out, op0, (len - 1) * 32 + mOff % 8 * 4);
      op := Put(out, op, mOff / 8);
    } else if off <= M3_MAX_OFFSET {
      op := WriteLength(M3_MARKER, M3_MAX_LEN, len, out, op0);
      op := WriteOffset(off - 1, out, op);
    } else {
      var mOff := off - 0x4000;
      op := WriteLength(M4_MARKER + mOff / 0x4000 * 8, M4_MAX_LEN, len, out, op0);
      op := WriteOffset(mOff, out, op);
    }
  }

  /** UA_GET64(p) ^ UA_GET64(q) */
  function WordDifference(src: seq<byte>, p: nat, q: nat): nat
    requires p + 8 <= |src| && q + 8 <= |src|
  {
    Xor(Get(src[p..p + 8]), Get(src[q..q + 8]))
  }

  lemma EqualWords(src: seq<byte>, p: nat, q: nat, len: nat)
    requires p + len + 8 <= |src| && q + len + 8 <= |src|
    requires src[p..p + len] == src[q..q + len]
    requires WordDifference(src, p + len, q + len) == 0
    ensures src[p..p + (len + 8)] == src[q..q + (len + 8)]
  {
    var x, y := src[p + len..p + len + 8], src[q + len..q + len + 8];
    XorZero(Get(x), Get(y));
    GetInjective(x, y);
    JoinSlices(src, p, p + len, p + (len + 8));
    JoinSlices(src, q, q + len, q + (len + 8));
  }

  lemma UnequalWords(src: seq<byte>, p: nat, q: nat, len: nat, v: nat)
    requires p + len + 8 <= |src| && q + len + 8 <= |src|
    requires src[p..p + len] == src[q..q + len]
    requires v == WordDifference(src, p + len, q + len) > 0
    ensures var j := Ctz(v) / 8;
            && j < 8
            && src[p..p + (len + j)] == src[q..q + (len + j)]
            && src[p + (len + j)] != src[q + (len + j)]
  {
    hide Xor, Ctz, Get;
    var x, y := src[p + len..p + len + 8], src[q + len..q + len + 8];
    FirstDifference(x, y);
    JoinDifference(src, p, q, len, Ctz(v) / 8);
  }

  /** A first difference within the next eight bytes. */
  lemma JoinDifference(src: seq<byte>, p: nat, q: nat, len: nat, j: nat)
    requires p + len + 8 <= |src| && q + len + 8 <= |src|
    requires src[p..p + len] == src[q..q + len]
    requires Differ(src[p + len..p + len + 8], src[q + len..q + len + 8], j)
    ensures j < 8 && src[p..p + (len + j)] == src[q..q + (len + j)]
    ensures src[p + (len + j)] != src[q + (len + j)]
  {
    var x, y := src[p + len..p + len + 8], src[q + len..q + len + 8];
    assert x[..j] == src[p + len..p + (len + j)];
    assert y[..j] == src[q + len..q + (len + j)];
    assert x[j] == src[p + (len + j)];
    assert y[j] == src[q + (len + j)];
    JoinSlices(src, p, p + len, p + (len + j));
    JoinSlices(src, q, q + len, q + (len + j));
  }

  /** The search goes on in words of eight bytes, and ends with the one that gets past the end. */
  lemma ReachNext(ip: nat, ipEnd: nat, len: nat)
    requires ip < ipEnd && len % 8 == 4
    ensures Reach(ip, ipEnd) >= 12 && ip + Reach(ip, ipEnd) <= ipEnd + 11
    ensures len < Reach(ip, ipEnd) ==>
      && ip + len <= ipEnd + 3 && len + 8 <= Reach(ip, ipEnd)
      && (len + 8 == Reach(ip, ipEnd) <==> ip + len + 8 >= ipEnd)
  {
    var r, x := Reach(ip, ipEnd), (len - 4) / 8;
    assert len == 8 * x + 4;
    assert r == 4 + 8 * ((r - 4) / 8);
  }

  /** Extend a four byte match, eight bytes per comparison. Every byte it counts is equal; it stops
      at the first difference, or with the word that ends where no match may start any more. */
  method MatchLength(src: seq<byte>, ip: nat, mPos: nat, ipEnd: nat) returns (len: nat)
    requires mPos < ip < ipEnd && ipEnd + 20 <= |src|
    requires src[ip..ip + 4] == src[mPos..mPos + 4]
    ensures ip + len <= ipEnd + 11 && Longest(src, mPos, ip, len, ipEnd)
  {
    hide Ctz, Xor, Get, WordDifference, Reach;
    len := 4;
    ReachNext(ip, ipEnd, len);
    var v := WordDifference(src, ip + len, mPos + len);
    while v == 0
      invariant 4 <= len < Reach(ip, ipEnd) && len % 8 == 4
      invariant src[ip..ip + len] == src[mPos..mPos + len]
      invariant v == WordDifference(src, ip + len, mPos + len)
      decreases Reach(ip, ipEnd) - len
    {
      EqualWords(src, ip, mPos, len);
      ReachNext(ip, ipEnd, len);
      len := len + 8;
      v := WordDifference(src, ip + len, mPos + len);
      if ip + len >= ipEnd {
        return;
      }
    }
    UnequalWords(src, ip, mPos, len, v);
    ReachNext(ip, ipEnd, len);
    len := len + Ctz(v) / 8;
  }

  /** A match the matcher found extends the token list by exactly the bytes it covers. */
  lemma TokenSound(ts: seq<Token>, src: seq<byte>, p: nat, ip: nat, off: nat, len: nat)
    requires Covers(ts, src, p) && p <= ip && ip + len <= |src|
    requires 4 <= len && 1 <= off <= ip && off <= M4_MAX_OFFSET
    requires src[ip..ip + len] == src[ip - off..ip - off + len]
    requires ts == [] ==> 4 <= ip - p
    ensures Covers(ts + [Token(src[p..ip], off, len)], src, ip + len)
  {
    assert Expand(ts) + src[p..ip] == src[..ip];
    CopyMatchReproduces(src, ip, off, len);
    Append(ts, Token(src[p..ip], off, len), 0);
  }

  /** The bytes to write for a token. */
  lemma TokenBytes(ts: seq<Token>, t: Token, n: nat)
    requires Valid(ts) && n == |t.lits| && (ts == [] ==> 4 <= n)
    requires 4 <= t.len && 1 <= t.off <= |Expand(ts)| + |t.lits| && t.off <= M4_MAX_OFFSET
    ensures var e := Encode(ts, 0);
            && Valid(ts + [t]) && Patchable(e, n)
            && Encode(ts + [t], 0) == Patch(e, n) + Run(t.lits) + Code(t.off, t.len, 0)
  {
    Append(ts, t, 0);
    EncodePatch(ts, n);
  }

  /** There is room for the next token, including what wide stores spill. */
  lemma Room(ts: seq<Token>, src: seq<byte>, p: nat, ip: nat, len: nat)
    requires Covers(ts, src, p) && p <= ip && ip + len <= |src| && 4 <= len
    ensures |Encode(ts, 0)| + TokenRoom(ip - p, len) <= |src| + |src| / 16 + 67
  {
    EncodeSize(ts, 0);
  }

  /** What writing one token may take, wide stores included. */
  function TokenRoom(t: nat, len: nat): nat {
    t + t / 255 + len / 255 + 19
  }

  /** Emit one literal run and one match. */
  method WriteToken(src: seq<byte>, p: nat, ip: nat, off: nat, len: nat, out: array<byte>, op0: nat)
    returns (op: nat)
    requires p <= ip && ip + 16 <= |src| && 4 <= len && 1 <= off <= M4_MAX_OFFSET
    requires op0 + TokenRoom(ip - p, len) <= out.Length
    requires Patchable(out[..op0], ip - p)
    modifies out
    ensures op <= out.Length
    ensures out[..op] == Patch(old(out[..op0]), ip - p) + Run(src[p..ip]) + Code(off, len, 0)
  {
    op := WriteLiterals(src, p, ip, out, op0);
    op := WriteMatch(off, len, out, op);
  }

  lemma SliceBytes(ts: seq<Token>, e: seq<byte>, src: seq<byte>, p: nat, ip: nat, off: nat, len: nat)
    requires Covers(ts, src, p) && e == Encode(ts, 0) && p <= ip <= |src| && (ts == [] ==> 4 <= ip - p)
    requires 4 <= len && 1 <= off <= ip && off <= M4_MAX_OFFSET
    ensures Patchable(e, ip - p)
    ensures var ts' := ts + [Token(src[p..ip], off, len)];
            Valid(ts') && Patch(e, ip - p) + Run(src[p..ip]) + Code(off, len, 0) == Encode(ts', 0)
  {
    hide Run, Code, Encode, Expand, Patch, Patchable;
    TokenBytes(ts, Token(src[p..ip], off, len), ip - p);
  }

  /** Everything about one token: it is sound, there is room for it, and what to write for it. */
  lemma NextToken(ts: seq<Token>, e: seq<byte>, src: seq<byte>, p: nat, ip: nat, off: nat, len: nat)
    requires Covers(ts, src, p) && e == Encode(ts, 0) && p <= ip && ip + len <= |src|
    requires 4 <= len && 1 <= off <= ip && off <= M4_MAX_OFFSET
    requires src[ip..ip + len] == src[ip - off..ip - off + len]
    requires ts == [] ==> 4 <= ip - p
    ensures |e| + TokenRoom(ip - p, len) <= |src| + |src| / 16 + 67 && Patchable(e, ip - p)
    ensures var ts' := ts + [Token(src[p..ip], off, len)];
            && Covers(ts', src, ip + len)
            && Patch(e, ip - p) + Run(src[p..ip]) + Code(off, len, 0) == Encode(ts', 0)
  {
    hide Run, Code, Encode, Expand, Valid, Patch, Patchable, TokenRoom;
    TokenSound(ts, src, p, ip, off, len);
    SliceBytes(ts, e, src, p, ip, off, len);
    Room(ts, src, p, ip, len);
  }

  /** The bytes of the token and its meaning, together. */
  method AddToken(src: seq<byte>, p: nat, ip: nat, mPos: nat, len: nat, out: array<byte>, op0: nat,
                  ghost ts: seq<Token>)
    returns (op: nat, ghost ts': seq<Token>)
    requires Covers(ts, src, p) && Holds(out, op0, ts)
    requires p <= ip && ip + len <= |src| && ip + 16 <= |src|
    requires 4 <= len && mPos < ip <= mPos + M4_MAX_OFFSET && (ts == [] ==> 4 <= ip - p)
    requires src[ip..ip + len] == src[mPos..mPos + len]
    requires |src| + |src| / 16 + 67 <= out.Length
    modifies out
    ensures ts' == ts + [Token(src[p..ip], ip - mPos, len)]
    ensures Covers(ts', src, ip + len) && Holds(out, op, ts')
  {
    hide Run, Code, Encode, Expand, Valid, Patch, Patchable;
    var off := ip - mPos;
    NextToken(ts, out[..op0], src, p, ip, off, len);
    ts' := ts + [Token(src[p..ip], off, len)];
    op := WriteToken(src, p, ip, off, len, out, op0);
  }

  /** Every entry is a position before `n`. */
  ghost predicate Before(dict: array<nat>, n: int)
    reads dict
  {
    dict.Length == DICT_SIZE && forall i :: 0 <= i < DICT_SIZE ==> dict[i] < n
  }

  /** Look the next four bytes up in the dictionary, and enter them. Positions are kept modulo
      65536, relative to the block. */
  method Lookup(src: seq<byte>, base: nat, ip: nat, dict: array<nat>) returns (mPos: nat, found: bool)
    requires base < ip && ip + 4 <= |src| && ip - base < 65536
    requires Before(dict, ip - base)
    modifies dict
    ensures base <= mPos < ip && mPos == base + old(dict[Dindex(Get(src[ip..ip + 4]))])
    ensures found <==> src[ip..ip + 4] == src[mPos..mPos + 4]
    ensures dict[..] == old(dict[..])[Dindex(Get(src[ip..ip + 4])) := (ip - base) % 65536]
    ensures Before(dict, ip - base + 1)
  {
    var dv := Get(src[ip..ip + 4]);
    var dindex := Dindex(dv);
    mPos := base + dict[dindex];
    dict[dindex] := (ip - base) % 65536;
    found := dv == Get(src[mPos..mPos + 4]);
    GetInjective(src[ip..ip + 4], src[mPos..mPos + 4]);
  }

  /** Probe the dictionary at `ip`, enter `ip` there, and exactly if the four bytes agree write a token
      for the longest match the search allows. A length of zero says there was no match. */
  method TryMatch(src: seq<byte>, base: nat, p: nat, ip: nat, ipEnd: nat, dict: array<nat>, out: array<byte>,
                  op0: nat, ghost ts0: seq<Token>)
    returns (len: nat, op: nat, ghost ts: seq<Token>)
    requires p <= ip < ipEnd && ipEnd + 20 <= |src| && base < ip <= base + M4_MAX_OFFSET
    requires Before(dict, ip - base)
    requires Covers(ts0, src, p) && Holds(out, op0, ts0) && (ts0 == [] ==> 4 <= ip - p)
    requires |src| + |src| / 16 + 67 <= out.Length
    modifies out, dict
    ensures Before(dict, ip - base + 1)
    ensures dict[..] == old(dict[..])[Dindex(Get(src[ip..ip + 4])) := (ip - base) % 65536]
    ensures len > 0 ==> 4 <= len && ip + len <= ipEnd + 11
    ensures
      var mPos := base + old(dict[Dindex(Get(src[ip..ip + 4]))]);
      && mPos < ip && Settled(src, ipEnd, Visit(ip, mPos, len))
      && (len > 0 <==> src[ip..ip + 4] == src[mPos..mPos + 4])
      && (len > 0 ==> ts == ts0 + [Token(src[p..ip], ip - mPos, len)])
    ensures len == 0 ==> ts == ts0 && op == op0 && Holds(out, op, ts)
    ensures len > 0 ==> Covers(ts, src, ip + len) && Holds(out, op, ts)
  {
    hide Encode, Expand, Valid, Holds, Covers, Before;
    var mPos, found := Lookup(src, base, ip, dict);
    if found {
      len := MatchLength(src, ip, mPos, ipEnd);
      op, ts := AddToken(src, p, ip, mPos, len, out, op0, ts0);
    } else {
      len, op, ts := 0, op0, ts0;
    }
  }

  /** The dictionary has the last position looked at for every hash, or the start of the block. */
  ghost predicate Recorded(dict: array<nat>, src: seq<byte>, base: nat, vs: seq<Visit>)
    reads dict
  {
    dict.Length == DICT_SIZE && forall h :: 0 <= h < DICT_SIZE ==> base + dict[h] == Entry(src, base, vs, h)
  }

  /** One position more has been looked at and entered. */
  lemma RecordedMore(dict: array<nat>, was: seq<nat>, src: seq<byte>, base: nat, vs: seq<Visit>, v: Visit)
    requires dict.Length == |was| == DICT_SIZE && base < v.at < base + 65536 && v.at + 4 <= |src|
    requires forall h :: 0 <= h < DICT_SIZE ==> base + was[h] == Entry(src, base, vs, h)
    requires dict[..] == was[Dindex(Get(src[v.at..v.at + 4])) := (v.at - base) % 65536]
    ensures Recorded(dict, src, base, vs + [v])
  {
    hide Dindex, Entry;
    forall h | 0 <= h < DICT_SIZE
      ensures base + dict[h] == Entry(src, base, vs + [v], h)
    {
      EntryMore(src, base, vs, v, h);
      assert dict[h] == dict[..][h];
    }
  }

  /** Look at one position, and at what that adds to the block's tokens. */
  method Look(src: seq<byte>, base: nat, p: nat, ip: nat, ipEnd: nat, dict: array<nat>, out: array<byte>, op0: nat,
              ghost ti0: nat, ghost vs0: seq<Visit>, ghost ts0: seq<Token>, ghost ts1: seq<Token>)
    returns (len: nat, op: nat, ghost ts: seq<Token>, ghost vs: seq<Visit>)
    requires p <= ip < ipEnd && ipEnd + 20 <= |src| && base < ip <= base + M4_MAX_OFFSET && ti0 <= base
    requires Before(dict, ip - base) && Recorded(dict, src, base, vs0)
    requires Covers(ts1, src, p) && Holds(out, op0, ts1) && (ts1 == [] ==> 4 <= ip - p)
    requires |src| + |src| / 16 + 67 <= out.Length
    requires Scan(src, base, ti0, ipEnd, vs0) && ip == Next(base, ti0, vs0)
    requires p == After(base - ti0, vs0) && ts1 == ts0 + Tokens(src, base - ti0, vs0)
    modifies out, dict
    ensures Before(dict, ip - base + 1) && Recorded(dict, src, base, vs)
    ensures len > 0 ==> 4 <= len && ip + len <= ipEnd + 11
    ensures Covers(ts, src, if len > 0 then ip + len else p) && Holds(out, op, ts)
    ensures len > 0 ==> ts != []
    ensures len == 0 ==> ts == ts1
    ensures Scan(src, base, ti0, ipEnd, vs)
    ensures After(base, vs) == if len > 0 then ip + len else After(base, vs0)
    ensures Next(base, ti0, vs) == if len > 0 then ip + len else ip + 1 + (ip - After(base, vs0)) / 32
    ensures (if len > 0 then ip + len else p) == After(base - ti0, vs) && ts == ts0 + Tokens(src, base - ti0, vs)
  {
    hide Encode, Holds, Covers, Before, Entry, Next, Settled, Tokens, Scan, After;
    ghost var was := dict[..];
    len, op, ts := TryMatch(src, base, p, ip, ipEnd, dict, out, op0, ts1);
    ghost var v := Visit(ip, base + was[Dindex(Get(src[ip..ip + 4]))], len);
    Looked(dict, was, src, base, ti0, ipEnd, vs0, v, p, ts0, ts1, ts);
    vs := vs0 + [v];
  }

  lemma BeforeMore(dict: array<nat>, n: int, m: int)
    requires Before(dict, n) && n <= m
    ensures Before(dict, m)
  {
  }

  /** One block, exactly as `LzoParse` describes it. `ti0` literals before the block are still unwritten when it
      starts, and `left` bytes, at least nine, are when it ends. */
  method DoCompress(src: seq<byte>, base: nat, inLen: nat, out: array<byte>, op0: nat, ti0: nat,
                    dict: array<nat>, ghost ts0: seq<Token>)
    returns (op: nat, left: nat, ghost ts: seq<Token>, ghost p: nat, ghost vs: seq<Visit>)
    requires 20 < inLen <= BLOCK && base + inLen <= |src| && ti0 <= base
    requires |src| + |src| / 16 + 67 <= out.Length
    requires Before(dict, 1)
    requires Covers(ts0, src, base - ti0) && Holds(out, op0, ts0)
    modifies out, dict
    ensures 9 <= left && p + left == base + inLen
    ensures Covers(ts, src, p) && Holds(out, op, ts)
    ensures Scan(src, base, ti0, base + inLen - 20, vs) && Next(base, ti0, vs) >= base + inLen - 20
    ensures p == After(base - ti0, vs) && ts == ts0 + Tokens(src, base - ti0, vs)
  {
    hide Encode, Holds, Covers, Next, Tokens, Scan, After, Before, Recorded;
    var ti := ti0;
    var ipEnd := base + inLen - 20;
    var ip, ii := base, base;
    op, ts, vs := op0, ts0, [];
    p := base - ti;
    NothingSeen(dict, src, base, ti0, ipEnd);
    assert ts0 + Tokens(src, p, vs) == ts0;
    ip := ip + (if ti < 4 then 4 - ti else 0);
    BeforeMore(dict, 1, ip - base + 1);
    var literal := true;
    while true
      invariant base <= ii <= ip && 0 <= ti && ii <= ipEnd + 11 && (literal || base < ip)
      invariant Before(dict, ip - base + (if literal then 1 else 0)) && Recorded(dict, src, base, vs)
      invariant p == ii - ti && Covers(ts, src, p) && Holds(out, op, ts)
      invariant ts == [] ==> 4 <= ip - p
      invariant Scan(src, base, ti0, ipEnd, vs) && ii == After(base, vs)
      invariant ip + (if literal then 1 + (ip - ii) / 32 else 0) == Next(base, ti0, vs)
      invariant p == After(base - ti0, vs) && ts == ts0 + Tokens(src, base - ti0, vs)
      decreases ipEnd + 11 - ip, if literal then 0 else 1
    {
      if literal {
        BeforeMore(dict, ip - base + 1, ip - base + 1 + (ip - ii) / 32);
        ip := ip + 1 + (ip - ii) / 32;
      }
      if ip >= ipEnd {
        break;
      }
      var mLen;
      mLen, op, ts, vs := Look(src, base, ii - ti, ip, ipEnd, dict, out, op, ti0, vs, ts0, ts);
      if mLen == 0 {
        literal := true;
        continue;
      }
      BeforeMore(dict, ip - base + 1, ip - base + mLen);
      ti := 0;
      ip := ip + mLen;
      p := ip;
      ii := ip;
      literal := false;
    }
    left := base + inLen - (ii - ti);
  }

  lemma NothingSeen(dict: array<nat>, src: seq<byte>, base: nat, ti0: nat, ipEnd: nat)
    requires Before(dict, 1)
    ensures Recorded(dict, src, base, []) && Scan(src, base, ti0, ipEnd, [])
    ensures After(base, []) == base && Next(base, ti0, []) == base + (if ti0 < 4 then 4 - ti0 else 0) + 1
    ensures ti0 <= base ==> After(base - ti0, []) == base - ti0 && Tokens(src, base - ti0, []) == []
  {
  }

  /** After one look at the dictionary. */
  lemma Looked(dict: array<nat>, was: seq<nat>, src: seq<byte>, base: nat, ti0: nat, ipEnd: nat, vs: seq<Visit>,
               v: Visit, p: nat, ts0: seq<Token>, ts: seq<Token>, ts': seq<Token>)
    requires |was| == DICT_SIZE && base < v.at < base + 65536 && v.at + 4 <= |src| && ti0 <= base
    requires dict.Length == DICT_SIZE
    requires forall h :: 0 <= h < DICT_SIZE ==> base + was[h] == Entry(src, base, vs, h)
    requires dict[..] == was[Dindex(Get(src[v.at..v.at + 4])) := (v.at - base) % 65536]
    requires Scan(src, base, ti0, ipEnd, vs) && v.at == Next(base, ti0, vs) && Settled(src, ipEnd, v)
    requires v.from == base + was[Dindex(Get(src[v.at..v.at + 4]))] < v.at
    requires p == After(base - ti0, vs) <= v.at && ts == ts0 + Tokens(src, base - ti0, vs)
    requires ts' == if v.len > 0 then ts + [Token(src[p..v.at], v.at - v.from, v.len)] else ts
    ensures Recorded(dict, src, base, vs + [v]) && Scan(src, base, ti0, ipEnd, vs + [v])
    ensures After(base, vs + [v]) == if v.len > 0 then v.at + v.len else After(base, vs)
    ensures After(base - ti0, vs + [v]) == if v.len > 0 then v.at + v.len else p
    ensures Next(base, ti0, vs + [v]) == if v.len > 0 then v.at + v.len else v.at + 1 + (v.at - After(base, vs)) / 32
    ensures ts' == ts0 + Tokens(src, base - ti0, vs + [v])
  {
    hide Entry, Next, Settled, Tokens, Scan, After, Dindex;
    RecordedMore(dict, was, src, base, vs, v);
    assert HashAt(src, v.at) == Dindex(Get(src[v.at..v.at + 4]));
    OneMore(src, base, ti0, ipEnd, vs, v, base - ti0);
    OneMore(src, base, ti0, ipEnd, vs, v, base);
    if v.len > 0 {
      Assoc(ts0, Tokens(src, base - ti0, vs), [Token(src[p..v.at], v.at - v.from, v.len)]);
    } else {
      assert ts + [] == ts;
    }
  }

  /** What the stream becomes before the tail's literals are copied. */
  ghost function TailHeader(e: seq<byte>, n: nat): seq<byte>
    requires e == [] || Patchable(e, n)
  {
    if n == 0 then e
    else if e == [] && n <= 238 then [17 + n]
    else if n <= 3 then Patch(e, n)
    else e + RunHeader(n)
  }

  method WriteTailHeader(t: nat, out: array<byte>, op0: nat) returns (op: nat)
    requires op0 + t / 255 + 2 <= out.Length
    requires op0 == 0 || Patchable(out[..op0], t)
    modifies out
    ensures op <= op0 + t / 255 + 2
    ensures out[..op] == TailHeader(old(out[..op0]), t)
  {
    op := op0;
    ghost var e := out[..op];
    if t == 0 {
    } else if op == 0 && t <= 238 {
      op := Put(out, op, 17 + t);
    } else if t <= 3 {
      out[op - 2] := out[op - 2] + t;
      assert out[..op] == Patch(e, t);
    } else {
      op := WriteRunHeader(t, out, op);
    }
  }

  lemma TailIsStream(ts: seq<Token>, e: seq<byte>, src: seq<byte>, ii: nat)
    requires Covers(ts, src, ii) && e == Encode(ts, 0)
    ensures e == [] || Patchable(e, |src| - ii)
    ensures |e| + (|src| - ii) + (|src| - ii) / 255 + 2 <= |src| + |src| / 16 + 64
    ensures Represents(TailHeader(e, |src| - ii) + src[ii..|src|] + END_MARKER, ts, src[ii..], src)
  {
    hide Run, RunHeader, Patch, Patchable, Stream, TailHeader;
    var n := |src| - ii;
    assert src[ii..|src|] == src[ii..] && |src[ii..]| == n;
    EncodeSize(ts, 0);
    if ts != [] {
      EncodePatch(ts, n);
    }
    assert src[..ii] + src[ii..] == src;
    TailCases(ts, e, src[ii..]);
  }

  lemma TailCases(ts: seq<Token>, e: seq<byte>, tail: seq<byte>)
    requires Valid(ts) && e == Encode(ts, 0) && (e == [] || Patchable(e, |tail|))
    requires ts != [] ==> Patch(e, |tail|) == Encode(ts, State(|tail|))
    ensures TailHeader(e, |tail|) + tail + END_MARKER == Stream(ts, tail)
  {
    hide RunHeader, Patch, Patchable, Valid;
    var n := |tail|;
    if ts == [] {
      assert e == [];
      if n > 238 {
        assert e + RunHeader(n) == RunHeader(n) && [] + Run(tail) == Run(tail);
      } else if n == 0 {
        assert e + tail == [] + Run(tail);
      }
    } else {
      NonEmpty(ts);
      if n == 0 {
        assert e + tail == e + Run(tail);
      } else if n > 3 {
        Assoc(e, RunHeader(n), tail);
      }
    }
  }

  lemma NonEmpty(ts: seq<Token>)
    requires Valid(ts) && ts != []
    ensures Encode(ts, 0) != []
  {
  }

  /** The literals after the last match, and the end marker. */
  method Finish(src: seq<byte>, ii: nat, out: array<byte>, op0: nat, ghost ts: seq<Token>) returns (op: nat)
    requires Covers(ts, src, ii) && Holds(out, op0, ts)
    requires |src| + |src| / 16 + 67 <= out.Length
    modifies out
    ensures op <= out.Length && Represents(out[..op], ts, src[ii..], src)
  {
    hide Represents, TailHeader, Encode, Expand, Valid, Patchable, Stream;
    ghost var e := out[..op0];
    TailIsStream(ts, e, src, ii);
    op := WriteTailHeader(|src| - ii, out, op0);
    op := WriteBytes(out, op, src, ii, |src|);
    op := WriteEndMarker(out, op);
  }

  method WriteEndMarker(out: array<byte>, op0: nat) returns (op: nat)
    requires op0 + 3 <= out.Length
    modifies out
    ensures op == op0 + 3 && out[..op] == old(out[..op0]) + END_MARKER
  {
    op := Put(out, op0, M4_MARKER + 1);
    op := Put(out, op, 0);
    op := Put(out, op, 0);
  }

  /** lzo1x_1_compress: blocks of at most 49152 bytes, then the remaining literals and the end
      marker. The tokens are those of the one complete parse of the text. */
  method Compress(src: seq<byte>, out: array<byte>, wrkmem: array<nat>)
    returns (outLen: nat, ghost ts: seq<Token>, ghost tail: seq<byte>, ghost bs: seq<seq<Visit>>)
    requires |src| + |src| / 16 + 67 <= out.Length && wrkmem.Length == DICT_SIZE
    modifies out, wrkmem
    ensures outLen <= |src| + |src| / 16 + 5
    ensures Represents(out[..outLen], ts, tail, src)
    ensures Complete(src, bs) && ts == AllTokens(src, bs)
    ensures Covered(bs) <= |src| && tail == src[Covered(bs)..]
  {
    hide Parsed, Covered, AllTokens, Scan, Next, After, Tokens, Covers, Holds, Represents;
    var ip: nat, op: nat, l: nat, t: nat := 0, 0, |src|, 0;
    ghost var p: nat := 0;
    ts, bs := [], [];
    NoBlocks(src, out);
    while l > 20
      invariant ip + l == |src| && p + t == ip
      invariant ip == BLOCK * |bs| || (l == 0 && ip <= BLOCK * |bs|)
      invariant Covers(ts, src, p) && Holds(out, op, ts)
      invariant Parsed(src, bs) && p == Covered(bs) && ts == AllTokens(src, bs)
    {
      var ll := if l <= BLOCK then l else BLOCK;
      if (t + ll) / 32 == 0 {
        break;
      }
      forall i | 0 <= i < DICT_SIZE {
        wrkmem[i] := 0;
      }
      ghost var vs;
      op, t, ts, p, vs := DoCompress(src, ip, ll, out, op, t, wrkmem, ts);
      BlockMore(src, bs, vs);
      bs := bs + [vs];
      ip := ip + ll;
      l := l - ll;
    }
    t := t + l;
    assert |src| - t == p;
    outLen := Finish(src, |src| - t, out, op, ts);
    tail := src[p..];
    EndsValid(ts, tail, src, out[..outLen]);
    StreamSize(ts, tail);
  }

  lemma NoBlocks(src: seq<byte>, out: array<byte>)
    ensures Covers([], src, 0) && Holds(out, 0, [])
    ensures Parsed(src, []) && Covered([]) == 0 && AllTokens(src, []) == []
  {
  }

  lemma EndsValid(ts: seq<Token>, tail: seq<byte>, src: seq<byte>, bytes: seq<byte>)
    requires Represents(bytes, ts, tail, src)
    ensures Valid(ts) && bytes == Stream(ts, tail) && Expand(ts) + tail == src
  {
  }
}
