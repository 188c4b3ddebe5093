/** The LZO1X stream format as minilzo.c writes it: what a list of tokens expands to, and the bytes
    that stand for it. */
module LzoFormat {
  import opened Bytes
  import opened Lz77

  const M2_MAX_LEN: nat := 8
  const M2_MAX_OFFSET: nat := 0x0800
  const M3_MAX_LEN: nat := 33
  const M3_MAX_OFFSET: nat := 0x4000
  const M4_MAX_LEN: nat := 9
  const M4_MAX_OFFSET: nat := 0xbfff
  const M3_MARKER: nat := 32
  const M4_MARKER: nat := 16

  /** Some literals followed by a copy of `len` bytes from `off` bytes back. */
  datatype Token = Token(lits: seq<byte>, off: nat, len: nat)

  /** The text a token list stands for, provided no copy reaches before the start of the text.
      The first token has to carry four literals, because shorter runs are counted in two spare
      bits of the match before them. */
  ghost predicate Valid(ts: seq<Token>)
    decreases |ts|, 0
  {
    ts == [] ||
    var t := ts[|ts| - 1];
    && Valid(ts[..|ts| - 1])
    && 4 <= t.len
    && 1 <= t.off <= |Expand(ts[..|ts| - 1])| + |t.lits|
    && t.off <= M4_MAX_OFFSET
    && (|ts| == 1 ==> 4 <= |t.lits|)
  }

  ghost function Expand(ts: seq<Token>): (r: seq<byte>)
    requires Valid(ts)
    decreases |ts|, 1
  {
    if ts == [] then []
    else
      var t := ts[|ts| - 1];
      CopyMatch(Expand(ts[..|ts| - 1]) + t.lits, t.off, t.len)
  }

  /** The tokens stand for the first `p` bytes of `src`. */
  ghost predicate Covers(ts: seq<Token>, src: seq<byte>, p: int) {
    0 <= p <= |src| && Valid(ts) && Expand(ts) == src[..p]
  }

  /** A count above its short form: as many zero bytes as there are excess 255s, then the rest. */
  function Ext(n: nat): (r: seq<byte>)
    requires 1 <= n
  {
    if n > 255 then [0] + Ext(n - 255) else [n]
  }

  /** The two spare bits that announce a run of one to three literals. */
  function State(n: nat): (s: nat)
    ensures s <= 3
  {
    if n <= 3 then n else 0
  }

  /** A literal run; runs of up to three bytes have no header of their own. */
  function Run(lits: seq<byte>): seq<byte> {
    if |lits| <= 3 then lits else RunHeader(|lits|) + lits
  }

  function RunHeader(n: nat): seq<byte>
    requires 4 <= n
  {
    if n <= 18 then [n - 3] else [0] + Ext(n - 18)
  }

  function Length(marker: nat, max: nat, len: nat): seq<byte>
    requires 3 <= len && max <= M3_MAX_LEN && marker <= M3_MARKER
  {
    if len <= max then [marker + (len - 2)] else [marker] + Ext(len - max)
  }

  /** A match whose spare bits hold `s`. */
  function Code(off: nat, len: nat, s: nat): seq<byte>
    requires 1 <= off <= M4_MAX_OFFSET && 4 <= len && s <= 3
  {
    if len <= M2_MAX_LEN && off <= M2_MAX_OFFSET then
      [(len - 1) * 32 + (off - 1) % 8 * 4 + s, (off - 1) / 8]
    else if off <= M3_MAX_OFFSET then
      Length(M3_MARKER, M3_MAX_LEN, len) + [(off - 1) % 64 * 4 + s, (off - 1) / 64]
    else
      var o := off - 0x4000;
      Length(M4_MARKER + o / 0x4000 * 8, M4_MAX_LEN, len) + [o % 64 * 4 + s, o / 64 % 256]
  }

  const END_MARKER: seq<byte> := [17, 0, 0]

  /** The bytes of a token list whose last match has `s` in its spare bits. */
  ghost function Encode(ts: seq<Token>, s: nat): (r: seq<byte>)
    requires Valid(ts) && s <= 3
    ensures ts != [] ==> |r| >= 2
  {
    if ts == [] then []
    else
      var t := ts[|ts| - 1];
      Encode(ts[..|ts| - 1], State(|t.lits|)) + Run(t.lits) + Code(t.off, t.len, s)
  }

  /** The first `op` bytes of the buffer are those tokens, the spare bits of the last one clear. */
  ghost predicate Holds(out: array<byte>, op: nat, ts: seq<Token>)
    reads out
  {
    op <= out.Length && Valid(ts) && out[..op] == Encode(ts, 0)
  }

  /** The whole stream of a token list and the literals after it. */
  ghost function Stream(ts: seq<Token>, tail: seq<byte>): seq<byte>
    requires Valid(ts)
  {
    if ts == [] && 1 <= |tail| <= 238 then [17 + |tail|] + tail + END_MARKER
    else Encode(ts, State(|tail|)) + Run(tail) + END_MARKER
  }

  /** Appending a token appends its copy to the text, and its run and its code to the bytes. */
  lemma Append(ts: seq<Token>, t: Token, s: nat)
    requires Valid(ts) && s <= 3
    requires 4 <= t.len && 1 <= t.off <= |Expand(ts)| + |t.lits| && t.off <= M4_MAX_OFFSET
    requires ts == [] ==> 4 <= |t.lits|
    ensures Valid(ts + [t])
    ensures Expand(ts + [t]) == CopyMatch(Expand(ts) + t.lits, t.off, t.len)
    ensures Encode(ts + [t], s) == Encode(ts, State(|t.lits|)) + Run(t.lits) + Code(t.off, t.len, s)
  {
    assert (ts + [t])[..|ts + [t]| - 1] == ts;
  }

  /** The stream stands for `src`. */
  ghost predicate Represents(bytes: seq<byte>, ts: seq<Token>, tail: seq<byte>, src: seq<byte>) {
    Valid(ts) && bytes == Stream(ts, tail) && Expand(ts) + tail == src
  }

  /** Record a short run in the spare bits of the last match, the second byte from the end. */
  function Patch(e: seq<byte>, n: nat): (r: seq<byte>)
    requires Patchable(e, n)
  {
    if 1 <= n <= 3 then e[|e| - 2 := e[|e| - 2] + n] else e
  }

  /** The spare bits are there, and clear. */
  predicate Patchable(e: seq<byte>, n: nat) {
    1 <= n <= 3 ==> |e| >= 2 && e[|e| - 2] % 4 == 0 && e[|e| - 2] <= 252
  }

  /** Patching changes the announced run and nothing else. */
  lemma EncodePatch(ts: seq<Token>, n: nat)
    requires Valid(ts) && (ts == [] ==> 4 <= n)
    ensures Patchable(Encode(ts, 0), n) && Patch(Encode(ts, 0), n) == Encode(ts, State(n))
  {
    if ts != [] {
      var t := ts[|ts| - 1];
      var front := Encode(ts[..|ts| - 1], State(|t.lits|)) + Run(t.lits);
      CodePatch(t.off, t.len, n);
      PatchAppend(front, Code(t.off, t.len, 0), n);
    }
  }

  lemma PatchAppend(front: seq<byte>, c: seq<byte>, n: nat)
    requires |c| >= 2 && Patchable(c, n)
    ensures Patchable(front + c, n) && Patch(front + c, n) == front + Patch(c, n)
  {
  }

  lemma CodePatch(off: nat, len: nat, n: nat)
    requires 1 <= off <= M4_MAX_OFFSET && 4 <= len
    ensures |Code(off, len, 0)| >= 2
    ensures Patchable(Code(off, len, 0), n) && Patch(Code(off, len, 0), n) == Code(off, len, State(n))
  {
  }

  /** The three forms of a match code: how long each is, and how its first byte tells it from the others. */
  lemma CodeForm(off: nat, len: nat, s: nat)
    requires 1 <= off <= M4_MAX_OFFSET && 4 <= len && s <= 3
    ensures |Code(off, len, s)| == 2 <==> len <= 8 && off <= 2048
    ensures |Code(off, len, s)| == 3 <==>
      !(len <= 8 && off <= 2048) && if off <= 16384 then len <= 33 else len <= 9
    ensures Code(off, len, s)[0] >= 64 <==> len <= 8 && off <= 2048
    ensures 32 <= Code(off, len, s)[0] < 64 <==> off <= 16384 && !(len <= 8 && off <= 2048)
    ensures 16 <= Code(off, len, s)[0] < 32 <==> off > 16384
  {
    if M3_MAX_LEN < len {
      ExtSize(len - M3_MAX_LEN);
    }
    if M4_MAX_LEN < len {
      ExtSize(len - M4_MAX_LEN);
    }
  }

  lemma {:induction false} ValidPrefix(ts: seq<Token>, k: nat)
    requires Valid(ts) && k <= |ts|
    ensures Valid(ts[..k]) && Expand(ts[..k]) <= Expand(ts)
  {
    if k < |ts| {
      var rest, t := ts[..|ts| - 1], ts[|ts| - 1];
      ValidPrefix(rest, k);
      assert rest[..k] == ts[..k];
      CopyMatchPrefix(Expand(rest) + t.lits, t.off, 0, t.len);
    } else {
      assert ts[..k] == ts;
    }
  }

  /** Every match is at least four bytes, so at most two bytes of headers, plus one per 255
      literals, are paid for by what it saves: each token costs at most a sixteenth of what it
      covers. */
  lemma {:induction false} EncodeSize(ts: seq<Token>, s: nat)
    requires Valid(ts) && s <= 3
    ensures 16 * |Encode(ts, s)| <= 17 * |Expand(ts)|
  {
    if ts != [] {
      var t := ts[|ts| - 1];
      EncodeSize(ts[..|ts| - 1], State(|t.lits|));
      RunSize(t.lits);
      CodeSize(t.off, t.len, s);
    }
  }

  lemma {:induction false} ExtSize(n: nat)
    requires 1 <= n
    ensures 255 * (|Ext(n)| - 1) < n <= 255 * |Ext(n)|
  {
    if n > 255 {
      ExtSize(n - 255);
    }
  }

  lemma RunSize(lits: seq<byte>)
    ensures |Run(lits)| <= |lits| + (if |lits| <= 3 then 0 else if |lits| <= 18 then 1 else 2 + (|lits| - 19) / 255)
  {
    if |lits| > 18 {
      ExtSize(|lits| - 18);
    }
  }

  lemma CodeSize(off: nat, len: nat, s: nat)
    requires 1 <= off <= M4_MAX_OFFSET && 4 <= len && s <= 3
    ensures |Code(off, len, s)| < len
  {
    if M3_MAX_LEN < len {
      ExtSize(len - M3_MAX_LEN);
    }
    if M4_MAX_LEN < len {
      ExtSize(len - M4_MAX_LEN);
    }
  }

  /** The caller's output buffer of n + n/16 + 67 bytes is never exceeded. */
  lemma StreamSize(ts: seq<Token>, tail: seq<byte>)
    requires Valid(ts)
    ensures var n := |Expand(ts)| + |tail|; |Stream(ts, tail)| <= n + n / 16 + 5
  {
    EncodeSize(ts, State(|tail|));
    RunSize(tail);
  }

  /** The stream of a text without matches: the end marker alone for no bytes, a header of one byte for up to 238,
      and then a header that grows by a byte every 255. */
  lemma StoredSize(text: seq<byte>)
    ensures var n := |text|;
      |Stream([], text)| == if n == 0 then 3 else if n <= 238 then n + 4 else n + 4 + (n - 18 + 254) / 255
  {
    if |text| > 238 {
      ExtSize(|text| - 18);
    }
  }
}
