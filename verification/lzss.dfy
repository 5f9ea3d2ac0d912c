/** c/bootloader/decompress.c: the byte-at-a-time LZSS decoder over a 1 KiB ring,
    and the unbounded-history expansion of a token list that it refines. */
module Lzss {
  import opened Bytes

  const N := 1024  // ring size, 1 << INDEX_BITS
  const F := 66    // longest match, (1 << LENGTH_BITS) + THRESHOLD
  const START := N - F  // where decompress_init leaves write_pos

  // ------------------------------------------------------------------ tokens

  datatype Token = Literal(b: byte) | Copy(dist: nat, len: nat)

  predicate WellFormed(t: Token) {
    t.Copy? ==> 1 <= t.dist <= N && 3 <= t.len <= F
  }

  predicate AllWellFormed(ts: seq<Token>) {
    forall k :: 0 <= k < |ts| ==> WellFormed(ts[k])
  }

  function Growth(t: Token): (n: nat) {
    match t case Literal(_) => 1 case Copy(_, len) => len
  }

  /** Copying one byte at a time, so that a match may overlap its own output. */
  function CopyBytes(h: seq<byte>, dist: nat, len: nat): (r: seq<byte>)
    requires 1 <= dist <= |h|
    ensures |r| == |h| + len && h <= r
    decreases len
  {
    if len == 0 then h else CopyBytes(h + [h[|h| - dist]], dist, len - 1)
  }

  /** What a back reference means: every new byte repeats the one `dist` before it. */
  lemma {:induction false} CopyRepeats(h: seq<byte>, dist: nat, len: nat, k: nat)
    requires 1 <= dist <= |h| <= k < |h| + len
    ensures CopyBytes(h, dist, len)[k] == CopyBytes(h, dist, len)[k - dist]
    decreases len
  {
    var h1 := h + [h[|h| - dist]];
    var r := CopyBytes(h1, dist, len - 1);
    if k > |h| {
      CopyRepeats(h1, dist, len - 1, k);
    } else {
      assert r[k] == h1[k] && r[k - dist] == h1[k - dist];
    }
  }

  /** Meaning of one token over the whole history: nothing is ever forgotten. */
  function Expand(h: seq<byte>, t: Token): (r: seq<byte>)
    requires |h| >= N && WellFormed(t)
    ensures |r| == |h| + Growth(t) && h <= r
  {
    match t
    case Literal(b) => h + [b]
    case Copy(dist, len) => CopyBytes(h, dist, len)
  }

  function ExpandAll(h: seq<byte>, ts: seq<Token>): (r: seq<byte>)
    requires |h| >= N && AllWellFormed(ts)
    ensures h <= r
    decreases |ts|
  {
    if ts == [] then h else ExpandAll(Expand(h, ts[0]), ts[1..])
  }

  // ---------------------------------------------------------------- encoding

  /** Ring cell that holds the byte at index `t` of the history. */
  function Cell(t: nat): (c: nat)
    ensures c < N
  {
    (START + t) % N
  }

  function TokenBytes(t: Token, hlen: nat): (r: seq<byte>)
    requires hlen >= N && WellFormed(t)
    ensures |r| == if t.Literal? then 1 else 2
  {
    match t
    case Literal(b) => [b]
    case Copy(dist, len) =>
      var i := Cell(hlen - dist);
      [i % 256, i / 256 * 64 + (len - 3)]
  }

  function Kinds(ts: seq<Token>): (r: seq<bool>)
    ensures |r| == |ts|
    ensures forall k :: 0 <= k < |ts| ==> r[k] == ts[k].Literal?
  {
    seq(|ts|, k requires 0 <= k < |ts| => ts[k].Literal?)
  }

  function FlagByte(ts: seq<Token>): (b: byte)
  {
    var g := if |ts| < 8 then ts else ts[..8];
    assert Pow2(8) == 256;
    PowMonotone(|g|, 8);
    BitsValue(Kinds(g))
  }

  lemma {:induction false} PowMonotone(m: nat, n: nat)
    requires m <= n
    ensures Pow2(m) <= Pow2(n)
    decreases n
  {
    if m < n { PowMonotone(m, n - 1); }
  }

  /** What the host sends for `ts`: one flag byte before every eighth token.
      `left` says how many tokens the flag byte already sent still covers. */
  function Encode(ts: seq<Token>, hlen: nat, left: nat): (r: seq<byte>)
    requires hlen >= N && AllWellFormed(ts) && left <= 7
    decreases |ts|, 1
  {
    if ts == [] then []
    else
      var body := TokenBytes(ts[0], hlen) + EncodeTail(ts, hlen, left);
      if left == 0 then [FlagByte(ts)] + body else body
  }

  function EncodeTail(ts: seq<Token>, hlen: nat, left: nat): (r: seq<byte>)
    requires hlen >= N && ts != [] && AllWellFormed(ts) && left <= 7
    decreases |ts|, 0
  {
    Encode(ts[1..], hlen + Growth(ts[0]), After(left))
  }

  /** Tokens the current flag byte still covers after one more token. */
  function After(left: nat): (r: nat) {
    if left == 0 then 7 else left - 1
  }

  // -------------------------------------------- the decoder on unbounded history

  /** `pending` holds the flag bits already received and not yet used;
      `pos` counts the bytes taken from the serial line. */
  datatype Dec = Dec(h: seq<byte>, read: nat, pos: nat, pending: seq<bool>)

  predicate Proper(d: Dec) {
    |d.h| >= N && d.read <= |d.h| && |d.pending| <= 7
  }

  function Match(b0: byte, b1: byte, hlen: nat): (t: Token)
    requires hlen >= N
    ensures WellFormed(t) && t.Copy?
  {
    var i := b0 + b1 / 64 * 256;
    var w := Cell(hlen);
    Copy(if i < w then w - i else w - i + N, b1 % 64 + 3)
  }

  function Refill(uart: nat -> byte, d: Dec): (r: Dec)
    requires Proper(d)
    ensures Proper(r) && r.read == d.read && d.h <= r.h && |d.h| < |r.h| <= |d.h| + F
  {
    var (bits, p) := FlagBits(uart, d);
    var t := TokenAt(uart, p, bits[0], |d.h|);
    Dec(Expand(d.h, t), d.read, p + (if bits[0] then 1 else 2), bits[1..])
  }

  function TokenAt(uart: nat -> byte, p: nat, literal: bool, hlen: nat): (t: Token)
    requires hlen >= N
    ensures WellFormed(t)
  {
    if literal then Literal(uart(p)) else Match(uart(p), uart(p + 1), hlen)
  }

  function Ready(uart: nat -> byte, d: Dec): (r: Dec)
    requires Proper(d)
    ensures Proper(r) && r.read == d.read < |r.h|
  {
    if d.read == |d.h| then Refill(uart, d) else d
  }

  /** The first `n` bytes that `n` calls return, and the state after them. */
  function Take(uart: nat -> byte, d: Dec, n: nat): (r: (seq<byte>, Dec))
    requires Proper(d)
    ensures |r.0| == n && Proper(r.1)
    decreases n
  {
    if n == 0 then ([], d)
    else
      var e := Ready(uart, d);
      var (bs, f) := Take(uart, e.(read := e.read + 1), n - 1);
      ([e.h[e.read]] + bs, f)
  }

  lemma {:induction false} TakeAdd(uart: nat -> byte, d: Dec, m: nat, n: nat)
    requires Proper(d)
    ensures var (a, e) := Take(uart, d, m); var (b, f) := Take(uart, e, n);
            Take(uart, d, m + n) == (a + b, f)
    decreases m
  {
    var (a, e) := Take(uart, d, m);
    var (b, f) := Take(uart, e, n);
    if m == 0 {
      assert a + b == b;
    } else {
      var g := Ready(uart, d);
      var g1 := g.(read := g.read + 1);
      TakeAdd(uart, g1, m - 1, n);
      assert a + b == [g.h[g.read]] + (Take(uart, g1, m - 1).0 + b);
    }
  }

  lemma {:induction false} TakeBuffered(uart: nat -> byte, d: Dec, n: nat)
    requires Proper(d) && d.read + n <= |d.h|
    ensures Take(uart, d, n) == (d.h[d.read..d.read + n], d.(read := d.read + n))
    decreases n
  {
    if n == 0 {
      assert d.h[d.read..d.read] == [];
    } else {
      TakeBuffered(uart, d.(read := d.read + 1), n - 1);
      assert d.h[d.read..d.read + n] == [d.h[d.read]] + d.h[d.read + 1..d.read + n];
    }
  }

  predicate Sends(uart: nat -> byte, pos: nat, bytes: seq<byte>) {
    forall k :: 0 <= k < |bytes| ==> uart(pos + k) == bytes[k]
  }

  lemma CellBack(hlen: nat, dist: nat)
    requires 1 <= dist <= N <= hlen
    ensures Cell(hlen - dist) == if dist <= Cell(hlen) then Cell(hlen) - dist else Cell(hlen) - dist + N
  {
  }

  lemma MatchInvertsTokenBytes(t: Token, hlen: nat)
    requires hlen >= N && WellFormed(t) && t.Copy?
    ensures var bs := TokenBytes(t, hlen); Match(bs[0], bs[1], hlen) == t
  {
    var i := Cell(hlen - t.dist);
    CellBack(hlen, t.dist);
    var bs := TokenBytes(t, hlen);
    assert bs[1] / 64 == i / 256 && bs[1] % 64 == t.len - 3;
  }

  lemma SendsSplit(uart: nat -> byte, pos: nat, a: seq<byte>, b: seq<byte>)
    requires Sends(uart, pos, a + b)
    ensures Sends(uart, pos, a) && Sends(uart, pos + |a|, b)
  {
    forall k | 0 <= k < |a| ensures uart(pos + k) == a[k] { assert (a + b)[k] == a[k]; }
    forall k | 0 <= k < |b| ensures uart(pos + |a| + k) == b[k] {
      assert uart(pos + (|a| + k)) == (a + b)[|a| + k] == b[k];
    }
  }

  predicate Covers(pending: seq<bool>, ts: seq<Token>) {
    forall k :: 0 <= k < |pending| && k < |ts| ==> pending[k] == ts[k].Literal?
  }

  /** The flag bits in force for the next token, and where its own bytes start. */
  function FlagBits(uart: nat -> byte, d: Dec): (r: (seq<bool>, nat))
    requires Proper(d)
    ensures 1 <= |r.0| <= 8
  {
    if d.pending == [] then (LowBits(uart(d.pos), 8), d.pos + 1) else (d.pending, d.pos)
  }

  lemma FlagByteCovers(ts: seq<Token>)
    requires ts != []
    ensures Covers(LowBits(FlagByte(ts), 8), ts)
  {
    var bits := LowBits(FlagByte(ts), 8);
    var g := if |ts| < 8 then ts else ts[..8];
    LowBitsInvertsBitsValue(Kinds(g), 8);
    forall k | 0 <= k < |bits| && k < |ts| ensures bits[k] == ts[k].Literal? {
      assert bits[k] == bits[..|g|][k] == Kinds(g)[k];
    }
  }

  /** The serial line delivers the encoding of `ts` next, and the flag bits in hand
      belong to its first tokens. */
  predicate Aligned(uart: nat -> byte, d: Dec, ts: seq<Token>) {
    && Proper(d) && AllWellFormed(ts)
    && Sends(uart, d.pos, Encode(ts, |d.h|, |d.pending|))
    && Covers(d.pending, ts)
  }

  /** Position of the line after the encoding of `ts`. */
  function EncodingEnd(d: Dec, ts: seq<Token>): (n: nat)
    requires Proper(d) && AllWellFormed(ts)
  {
    d.pos + |Encode(ts, |d.h|, |d.pending|)|
  }

  lemma FlagBitsCover(uart: nat -> byte, d: Dec, ts: seq<Token>)
    requires Aligned(uart, d, ts) && ts != []
    ensures var (bits, p) := FlagBits(uart, d); var body := TokenBytes(ts[0], |d.h|) + EncodeTail(ts, |d.h|, |d.pending|);
            && Covers(bits, ts) && |bits| - 1 == After(|d.pending|)
            && Sends(uart, p, body) && p + |body| == EncodingEnd(d, ts)
  {
    hide LowBits, FlagByte, TokenBytes;
    if d.pending == [] {
      var body := TokenBytes(ts[0], |d.h|) + EncodeTail(ts, |d.h|, 0);
      assert Encode(ts, |d.h|, 0) == [FlagByte(ts)] + body;
      SendsSplit(uart, d.pos, [FlagByte(ts)], body);
      assert uart(d.pos + 0) == [FlagByte(ts)][0];
      FlagByteCovers(ts);
    }
  }

  lemma TokenAtDecodes(uart: nat -> byte, p: nat, t: Token, hlen: nat)
    requires hlen >= N && WellFormed(t) && Sends(uart, p, TokenBytes(t, hlen))
    ensures TokenAt(uart, p, t.Literal?, hlen) == t
  {
    var tb := TokenBytes(t, hlen);
    assert uart(p + 0) == tb[0];
    if t.Copy? {
      assert uart(p + 1) == tb[1];
      MatchInvertsTokenBytes(t, hlen);
    }
  }

  lemma CoversTail(bits: seq<bool>, ts: seq<Token>)
    requires bits != [] && ts != [] && Covers(bits, ts)
    ensures bits[0] == ts[0].Literal? && Covers(bits[1..], ts[1..])
  {
    forall k | 0 <= k < |bits[1..]| && k < |ts[1..]| ensures bits[1..][k] == ts[1..][k].Literal? {
      assert bits[k + 1] == ts[k + 1].Literal?;
    }
  }

  /** One token off the line: the flag byte, if one is due, and the token's own bytes. */
  lemma RefillDecodes(uart: nat -> byte, d: Dec, ts: seq<Token>)
    requires Aligned(uart, d, ts) && ts != []
    ensures var r := Refill(uart, d);
            && r.h == Expand(d.h, ts[0])
            && Aligned(uart, r, ts[1..])
            && EncodingEnd(r, ts[1..]) == EncodingEnd(d, ts)
  {
    hide Expand, TokenAt, FlagBits, Encode, TokenBytes, Covers, Sends, Cell, Match, LowBits;
    FlagBitsCover(uart, d, ts);
    var (bits, p) := FlagBits(uart, d);
    var tb, tail := TokenBytes(ts[0], |d.h|), EncodeTail(ts, |d.h|, |d.pending|);
    SendsSplit(uart, p, tb, tail);
    CoversTail(bits, ts);
    TokenAtDecodes(uart, p, ts[0], |d.h|);
    var r := Refill(uart, d);
    assert r == Dec(Expand(d.h, ts[0]), d.read, p + |tb|, bits[1..]);
    assert Encode(ts[1..], |r.h|, |r.pending|) == tail;
  }

  lemma DecodesNothing(uart: nat -> byte, d: Dec)
    requires Proper(d)
    ensures Take(uart, d, 0) == ([], d) && EncodingEnd(d, []) == d.pos && ExpandAll(d.h, []) == d.h
  {
  }

  /** Decoding undoes encoding: reading as many bytes as the tokens expand to gives
      exactly that expansion and consumes exactly the encoded bytes. */
  lemma {:induction false} DecodesTokens(uart: nat -> byte, d: Dec, ts: seq<Token>)
    requires Aligned(uart, d, ts) && d.read == |d.h|
    ensures var full := ExpandAll(d.h, ts); var (out, e) := Take(uart, d, |full| - |d.h|);
            && out == full[|d.h|..]
            && e.h == full && e.read == |full|
            && e.pos == EncodingEnd(d, ts)
    decreases |ts|
  {
    hide Take, Refill, Expand, Encode;
    if ts == [] {
      DecodesNothing(uart, d);
    } else {
      RefillDecodes(uart, d, ts);
      var r := Refill(uart, d);
      TakeFirst(uart, d, |r.h| - |d.h|);
      var e := r.(read := |r.h|);
      DecodesTokens(uart, e, ts[1..]);
      TakeThen(uart, d, r, e, ExpandAll(d.h, ts));
    }
  }

  lemma TakeThen(uart: nat -> byte, d: Dec, r: Dec, e: Dec, full: seq<byte>)
    requires Proper(d) && Proper(e) && |d.h| <= |r.h| <= |full| && r.h <= full
    requires Take(uart, d, |r.h| - |d.h|) == (r.h[|d.h|..|r.h|], e)
    requires Take(uart, e, |full| - |r.h|).0 == full[|r.h|..]
    ensures Take(uart, d, |full| - |d.h|) == (full[|d.h|..], Take(uart, e, |full| - |r.h|).1)
  {
    hide Take;
    TakeAdd(uart, d, |r.h| - |d.h|, |full| - |r.h|);
    assert full[|d.h|..] == r.h[|d.h|..|r.h|] + full[|r.h|..];
  }

  /** Before the first byte: F unset cells, oldest first, then START spaces. */
  function Initial(garbage: seq<byte>): (d: Dec)
    requires |garbage| == F
    ensures Proper(d) && |d.h| == d.read == N
  {
    Dec(garbage + seq(START, _ => ' ' as int), N, 0, [])
  }

  /** The whole decoder, from power-up: whatever the unset ring cells hold, decoding the
      encoding of any token list returns its expansion and stops right behind it. */
  lemma DecompressInvertsCompress(uart: nat -> byte, garbage: seq<byte>, ts: seq<Token>)
    requires |garbage| == F && AllWellFormed(ts) && Sends(uart, 0, Encode(ts, N, 0))
    ensures var d := Initial(garbage); var full := ExpandAll(d.h, ts);
            var (out, e) := Take(uart, d, |full| - N);
            out == full[N..] && e.read == |e.h| && e.pos == |Encode(ts, N, 0)|
  {
    hide Take, Encode, ExpandAll;
    DecodesTokens(uart, Initial(garbage), ts);
  }

  lemma TakeFirst(uart: nat -> byte, d: Dec, n: nat)
    requires Proper(d) && d.read == |d.h| && 0 < n <= |Refill(uart, d).h| - |d.h|
    ensures var r := Refill(uart, d);
            Take(uart, d, n) == (r.h[|d.h|..|d.h| + n], r.(read := |d.h| + n))
  {
    hide Refill;
    var r := Refill(uart, d);
    TakeBuffered(uart, r.(read := r.read + 1), n - 1);
    assert r.h[|d.h|..|d.h| + n] == [r.h[|d.h|]] + r.h[|d.h| + 1..|d.h| + n];
  }

  // -------------------------------------------------------- the format on the line

  /** A match copies from ring index i on, the ring being filled from cell 958 with what was decoded: the byte it
      starts with is the latest one at a place q of the history with (958 + q) % 1024 == i. */
  lemma MatchStartsAt(h: seq<byte>, b0: byte, b1: byte, q: nat)
    requires |h| >= 1024 && |h| - 1024 <= q < |h| && (958 + q) % 1024 == b1 / 64 * 256 + b0
    ensures Match(b0, b1, |h|) == Copy(|h| - q, b1 % 64 + 3)
    ensures Expand(h, Match(b0, b1, |h|))[|h|] == h[q]
  {
    hide Match, CopyBytes;
    MatchDistance(|h|, b0, b1, q);
    CopyNone(h, |h| - q);
    CopyOneMore(h, |h| - q, 0);
    CopyGrows(h, |h| - q, 1, b1 % 64 + 3);
  }

  lemma MatchDistance(n: nat, b0: byte, b1: byte, q: nat)
    requires 1024 <= n && n - 1024 <= q < n && (958 + q) % 1024 == b1 / 64 * 256 + b0
    ensures Match(b0, b1, n) == Copy(n - q, b1 % 64 + 3)
  {
    CellBack(n, n - q);
  }

  lemma {:induction false} CopyGrows(h: seq<byte>, dist: nat, m: nat, n: nat)
    requires 1 <= dist <= |h| && m <= n
    ensures CopyBytes(h, dist, m) <= CopyBytes(h, dist, n)
    decreases n - m
  {
    if m < n {
      CopyOneMore(h, dist, m);
      CopyGrows(h, dist, m + 1, n);
    }
  }

  /** Before anything is decoded, index 958 and above give the cells that were never written, and those below spaces. */
  lemma FirstMatch(garbage: seq<byte>, b0: byte, b1: byte)
    requires |garbage| == 66
    ensures var i := b1 / 64 * 256 + b0; var h := Initial(garbage).h;
            Expand(h, Match(b0, b1, |h|))[1024] == if i >= 958 then garbage[i - 958] else 32
  {
    hide Expand, Match;
    var i := b1 / 64 * 256 + b0;
    MatchStartsAt(Initial(garbage).h, b0, b1, if i >= 958 then i - 958 else i + 66);
  }

  /** After literals, index (958 + k) % 1024 gives the k-th of the last 1024. */
  lemma MatchFindsLiteral(garbage: seq<byte>, lits: seq<byte>, b0: byte, b1: byte, k: nat)
    requires |garbage| == 66 && k < |lits| <= k + 1024 && (958 + k) % 1024 == b1 / 64 * 256 + b0
    ensures var h := Initial(garbage).h + lits; Expand(h, Match(b0, b1, |h|))[|h|] == lits[k]
  {
    hide Expand, Match;
    var h := Initial(garbage).h + lits;
    assert (958 + (1024 + k)) % 1024 == (958 + k) % 1024;
    MatchStartsAt(h, b0, b1, 1024 + k);
  }

  /** Bit k of a flag byte, lowest first, tells whether the k-th token behind it is a literal. */
  lemma FlagBitIs(uart: nat -> byte, d: Dec, k: nat)
    requires Proper(d) && d.pending == [] && k < 8
    ensures |FlagBits(uart, d).0| == 8 && FlagBits(uart, d).1 == d.pos + 1
    ensures FlagBits(uart, d).0[k] <==> uart(d.pos) / Pow2(k) % 2 == 1
  {
    LowBitAt(uart(d.pos), 8, k);
  }

  lemma LiteralRefill(uart: nat -> byte, d: Dec)
    requires Proper(d) && d.pending == [] && uart(d.pos) == 0x01
    ensures var e := Refill(uart, d);
            e.h == d.h + [uart(d.pos + 1)] && e.read == d.read && e.pos == d.pos + 2 && e.pending != [] && !e.pending[0]
  {
    hide LowBits, Match;
    FlagBitIs(uart, d, 0);
    FlagBitIs(uart, d, 1);
    Pow2Twice(0);
  }

  lemma RepeatRefill(uart: nat -> byte, e: Dec)
    requires Proper(e) && e.pending != [] && !e.pending[0]
    requires (958 + (|e.h| - 1)) % 1024 == uart(e.pos + 1) / 64 * 256 + uart(e.pos) && uart(e.pos + 1) % 64 == 0
    ensures var f := Refill(uart, e); var b := e.h[|e.h| - 1]; f.h == e.h + [b, b, b] && f.read == e.read && f.pos == e.pos + 2
  {
    hide LowBits, Match, CopyBytes;
    MatchDistance(|e.h|, uart(e.pos), uart(e.pos + 1), |e.h| - 1);
    RepeatLast(e.h, 3);
  }

  /** The bytes a literal and a match give, whatever was decoded before. */
  lemma LiteralThenRepeat(uart: nat -> byte, d: Dec)
    requires Proper(d) && d.pending == [] && d.read == |d.h| && uart(d.pos) == 0x01
    requires (958 + |d.h|) % 1024 == uart(d.pos + 3) / 64 * 256 + uart(d.pos + 2) && uart(d.pos + 3) % 64 == 0
    ensures var b := uart(d.pos + 1); Take(uart, d, 4).0 == [b, b, b, b] && Take(uart, d, 4).1.pos == d.pos + 4
  {
    hide Refill, Take;
    var b := uart(d.pos + 1);
    LiteralRefill(uart, d);
    var e := Refill(uart, d);
    var g := e.(read := |e.h|);
    RepeatRefill(uart, g);
    var f := Refill(uart, g);
    TakeFirst(uart, d, 1);
    TakeFirst(uart, g, 3);
    TakeAdd(uart, d, 1, 3);
    assert f.h[|e.h|..|e.h| + 3] == [b, b, b];
    assert e.h[|d.h|..|d.h| + 1] == [b];
  }

  /** A match at distance one repeats the last byte. */
  lemma {:induction false} RepeatLast(h: seq<byte>, n: nat)
    requires h != []
    ensures CopyBytes(h, 1, n) == h + seq(n, _ => h[|h| - 1])
    decreases n
  {
    if n > 0 {
      var b := h[|h| - 1];
      RepeatLast(h + [b], n - 1);
      assert (h + [b])[|h|] == b;
    }
  }

  /** From power-up the bytes 01 41 BE C0 on the line are the letter A four times. */
  lemma FourLetters(uart: nat -> byte, garbage: seq<byte>)
    requires |garbage| == 66 && uart(0) == 0x01 && uart(1) == 0x41 && uart(2) == 0xBE && uart(3) == 0xC0
    ensures Take(uart, Initial(garbage), 4).0 == [0x41, 0x41, 0x41, 0x41] && Take(uart, Initial(garbage), 4).1.pos == 4
  {
    hide Take;
    LiteralThenRepeat(uart, Initial(garbage));
  }

  function Copies(ts: seq<Token>): (n: nat)
    decreases |ts|
  {
    if ts == [] then 0 else (if ts[0].Copy? then 1 else 0) + Copies(ts[1..])
  }

  lemma {:induction false} OneFlagBytePerEightTokens(ts: seq<Token>, hlen: nat, left: nat)
    requires hlen >= N && AllWellFormed(ts) && left <= 7
    ensures |Encode(ts, hlen, left)|
         == (if |ts| <= left then 0 else (|ts| - left + 7) / 8) + |ts| + Copies(ts)
    decreases |ts|
  {
    if ts != [] {
      OneFlagBytePerEightTokens(ts[1..], hlen + Growth(ts[0]), After(left));
    }
  }

  // ------------------------------------------------------- the ring-buffer code

  /** What the `flags` register says: shifted once more it holds the pending bits
      below eight marker ones; it is 0 before the first flag byte. */
  predicate FlagsMatch(flags: nat, pending: seq<bool>) {
    && |pending| <= 7
    && (flags / 2 == Marked(pending) || (pending == [] && flags == 0))
  }

  function Marked(bits: seq<bool>): nat {
    BitsValue(bits) + 255 * Pow2(|bits|)
  }

  lemma MarkerIsSet(pending: seq<bool>)
    requires |pending| <= 8
    ensures Marked(pending) / 256 % 2 == 0 <==> pending == []
  {
    if pending != [] {
      assert Pow2(|pending|) == 2 * Pow2(|pending| - 1);
      SmallPowers(|pending|);
      MarkerQuotient(BitsValue(pending), Pow2(|pending| - 1));
    }
  }

  lemma MarkerQuotient(v: nat, half: nat)
    requires v < 2 * half <= 256
    ensures (v + 255 * (2 * half)) / 256 % 2 == 1
  {
    assert v + 510 * half == 256 * (2 * (half - 1) + 1) + (256 - 2 * half + v);
  }

  lemma MarkedUnfolds(bits: seq<bool>)
    requires bits != []
    ensures Marked(bits) == (if bits[0] then 1 else 0) + 2 * Marked(bits[1..])
  {
    assert |bits[1..]| == |bits| - 1;
  }

  lemma MarkerShifts(bits: seq<bool>)
    requires 1 <= |bits| <= 8
    ensures Marked(bits) % 2 == (if bits[0] then 1 else 0)
    ensures FlagsMatch(Marked(bits), bits[1..])
  {
    hide Marked;
    MarkedUnfolds(bits);
  }

  lemma MarkedFlagByte(c: byte)
    ensures Marked(LowBits(c, 8)) == c + 0xFF00
  {
    assert Pow2(8) == 256;
    BitsValueInvertsLowBits(c, 8);
  }

  lemma SmallPowers(m: nat)
    requires 1 <= m <= 8
    ensures Pow2(m) <= 256
  {
    assert Pow2(8) == 256;
    PowMonotone(m, 8);
  }

  lemma CellsDistinct(s: nat, t: nat)
    requires s < t < s + N
    ensures Cell(s) != Cell(t)
  {
  }

  lemma FirstCell(t: nat)
    requires t <= N
    ensures Cell(t) == if t < F then START + t else t - F
  {
  }

  lemma CellNext(t: nat)
    ensures Cell(t + 1) == (Cell(t) + 1) % N && Cell(t + N) == Cell(t)
  {
  }

  lemma NoFlags()
    ensures FlagsMatch(0, [])
  {
  }

  lemma CellAhead(t: nat, m: nat)
    ensures Cell(t + m) == (Cell(t) + m) % N
  {
  }

  lemma CopyNone(h: seq<byte>, dist: nat)
    requires 1 <= dist <= |h|
    ensures CopyBytes(h, dist, 0) == h
  {
  }

  lemma {:induction false} CopyOneMore(h: seq<byte>, dist: nat, len: nat)
    requires 1 <= dist <= |h|
    ensures var r := CopyBytes(h, dist, len); CopyBytes(h, dist, len + 1) == r + [r[|r| - dist]]
    decreases len
  {
    if len > 0 { CopyOneMore(h + [h[|h| - dist]], dist, len - 1); }
  }

  class Decoder {
    const uart: nat -> byte
    const textBuf: array<byte>
    var pos: nat
    var writePos: nat
    var readPos: nat
    var flags: nat

    ghost var h: seq<byte>
    ghost var read: nat
    ghost var pending: seq<bool>

    ghost function Abs(): Dec reads this { Dec(h, read, pos, pending) }

    /** The ring holds the last N bytes of the history. */
    ghost predicate Ring() reads this, textBuf {
      && textBuf.Length == N && |h| >= N && writePos == Cell(|h|)
      && forall t :: |h| - N <= t < |h| ==> textBuf[Cell(t)] == h[t]
    }

    /** At most F bytes of the ring are unread, so `readPos == writePos` means empty
        and never full. */
    ghost predicate Valid() reads this, textBuf {
      && Ring() && Proper(Abs()) && |h| <= read + F && readPos == Cell(read)
      && FlagsMatch(flags, pending)
    }

    /** decompress_init: START cells hold a space, the other F whatever was there. */
    constructor (uart: nat -> byte, garbage: seq<byte>)
      requires |garbage| == F
      ensures Valid() && fresh(textBuf) && this.uart == uart
      ensures Abs() == Initial(garbage)
      ensures writePos == readPos == 958 && textBuf[..] == seq(958, _ => ' ' as int) + garbage
    {
      hide Cell, FlagsMatch;
      this.uart := uart;
      var buf := new byte[N](i => 0);
      textBuf := buf;
      pos, flags := 0, 0;
      h, read, pending := garbage + seq(START, _ => ' ' as int), N, [];
      new;
      forall i | START <= i < N { buf[i] := garbage[i - START]; }
      writePos := 0;
      while writePos < N - F
        invariant 0 <= writePos <= START
        invariant forall i :: START <= i < N ==> buf[i] == garbage[i - START]
        invariant forall i :: 0 <= i < writePos ==> buf[i] == ' ' as int
        invariant textBuf == buf && this.uart == uart && pos == 0 && flags == 0
        invariant Abs() == Initial(garbage)
      {
        buf[writePos] := ' ' as int;
        writePos := writePos + 1;
      }
      readPos := writePos;
      forall t | 0 <= t < N ensures textBuf[Cell(t)] == h[t] {
        FirstCell(t);
      }
      FirstCell(N);
      NoFlags();
    }

    method Append(c: byte)
      requires Ring()
      modifies this`writePos, this`h, textBuf
      ensures Ring() && h == old(h) + [c]
    {
      CellNext(|h|);
      textBuf[writePos] := c;
      writePos := (writePos + 1) % N;
      ghost var was := h;
      h := h + [c];
      forall t | |h| - N <= t < |h| ensures textBuf[Cell(t)] == h[t] {
        if t < |was| { CellsDistinct(t, |was|); }
      }
    }

    method CopyLoop(i: nat, j: nat, ghost dist: nat)
      requires Ring() && 1 <= dist <= N && Cell(|h| - dist) == i
      modifies this`writePos, this`h, textBuf
      ensures Ring() && h == CopyBytes(old(h), dist, j + 1)
    {
      hide Cell, CopyBytes;
      CopyNone(h, dist);
      var k := i;
      while k <= i + j
        invariant i <= k <= i + j + 1
        invariant Ring() && h == CopyBytes(old(h), dist, k - i)
      {
        CellAhead(|old(h)| - dist, k - i);
        assert textBuf[Cell(|h| - dist)] == h[|h| - dist] by { if dist == N { CellNext(|h| - dist); } }
        var c := textBuf[k % N];
        CopyOneMore(old(h), dist, k - i);
        Append(c);
        k := k + 1;
      }
    }

    /** decompress_get_byte: the ring computes what the unbounded history says. */
    method GetByte() returns (c: byte)
      requires Valid()
      modifies this, textBuf
      ensures Valid()
      ensures var e := Ready(uart, old(Abs())); c == e.h[e.read] && Abs() == e.(read := e.read + 1)
    {
      hide Refill, Cell, FlagsMatch;
      if readPos == writePos {
        if read < |h| { CellsDistinct(read, |h|); }
        NextToken();
      }
      c := textBuf[readPos];
      CellNext(read);
      readPos := (readPos + 1) % N;
      read := read + 1;
    }

    method ShiftFlags()
      requires Proper(Abs()) && FlagsMatch(flags, pending)
      modifies this`flags, this`pos, this`pending
      ensures var (bits, p) := FlagBits(uart, old(Abs()));
              && flags % 2 == (if bits[0] then 1 else 0)
              && pending == bits[1..] && FlagsMatch(flags, pending) && pos == p
    {
      hide Marked, LowBits;
      ghost var bits := FlagBits(uart, Abs()).0;
      MarkerIsSet(pending);
      flags := flags / 2;
      if flags / 256 % 2 == 0 {
        MarkedFlagByte(uart(pos));
        flags := uart(pos) + 0xFF00;
        pos := pos + 1;
      }
      MarkerShifts(bits);
      pending := bits[1..];
    }

    method NextToken()
      requires Valid() && read == |h|
      modifies this, textBuf
      ensures Valid() && read == old(read) && readPos == old(readPos) && Abs() == Refill(uart, old(Abs()))
    {
      hide FlagsMatch, Cell, CopyBytes, LowBits;
      ShiftFlags();
      if flags % 2 == 1 {
        Append(uart(pos));
        pos := pos + 1;
      } else {
        var i, j := uart(pos) as int, uart(pos + 1) as int;
        ghost var t := TokenAt(uart, pos, false, |h|);
        pos := pos + 2;
        i := i + j / 64 * 256;
        j := j % 64 + 2;
        CellBack(|h|, t.dist);
        CopyLoop(i, j, t.dist);
      }
    }
  }
}
