/**
 * An effect applied frame by frame to a stream, and what one run of audio_process does with blocks: it calls
 * the effect, which handles w frames, once every s frames.  The two agree exactly when the calls tile the block.
 */
module AudioStream {
  import opened AudioEffects
  import opened Splices

  // ------------------------------------------------------------ the effect on a stream

  /** The effect's state after a stream, one frame at a time. */
  function StateAfter<S>(step: (S, Frame) -> (S, Frame), st: S, xs: seq<Frame>): S {
    if xs == [] then st else step(StateAfter(step, st, xs[..|xs| - 1]), xs[|xs| - 1]).0
  }

  function Outputs<S>(step: (S, Frame) -> (S, Frame), st: S, xs: seq<Frame>): (ys: seq<Frame>)
    ensures |ys| == |xs|
  {
    if xs == [] then [] else
      Outputs(step, st, xs[..|xs| - 1]) + [step(StateAfter(step, st, xs[..|xs| - 1]), xs[|xs| - 1]).1]
  }

  lemma {:induction false} StreamSplits<S>(step: (S, Frame) -> (S, Frame), st: S, a: seq<Frame>, b: seq<Frame>)
    ensures StateAfter(step, st, a + b) == StateAfter(step, StateAfter(step, st, a), b)
    ensures Outputs(step, st, a + b) == Outputs(step, st, a) + Outputs(step, StateAfter(step, st, a), b)
    decreases |b|
  {
    if b == [] {
      assert a + b == a;
    } else {
      var b' := b[..|b| - 1];
      StreamSplits(step, st, a, b');
      assert (a + b)[..|a + b| - 1] == a + b';
    }
  }

  function Flat(blocks: seq<seq<Frame>>): seq<Frame> {
    if blocks == [] then [] else Flat(blocks[..|blocks| - 1]) + blocks[|blocks| - 1]
  }

  lemma {:induction false} FlatSplits(a: seq<seq<Frame>>, b: seq<seq<Frame>>)
    ensures Flat(a + b) == Flat(a) + Flat(b)
    decreases |b|
  {
    if b == [] {
      assert a + b == a;
    } else {
      var b', last := b[..|b| - 1], b[|b| - 1];
      FlatSplits(a, b');
      assert (a + b)[..|a + b| - 1] == a + b';
      assert Flat(a + b) == Flat(a + b') + last;
      assert Flat(a) + Flat(b') + last == Flat(a) + (Flat(b') + last);
    }
  }

  lemma FlatOne(b: seq<Frame>)
    ensures Flat([b]) == b
  {
    assert [b][..0] == [];
  }

  predicate Sized(blocks: seq<seq<Frame>>, n: nat) {
    forall i :: 0 <= i < |blocks| ==> |blocks[i]| == n
  }

  lemma {:induction false} FlatLength(blocks: seq<seq<Frame>>, n: nat)
    requires Sized(blocks, n)
    ensures |Flat(blocks)| == |blocks| * n
  {
    if blocks != [] {
      FlatLength(blocks[..|blocks| - 1], n);
      assert |blocks| * n == (|blocks| - 1) * n + n;
    }
  }

  /** A stream divides into blocks of one size in only one way. */
  lemma {:induction false} BlocksAreUnique(a: seq<seq<Frame>>, b: seq<seq<Frame>>, n: nat)
    requires n > 0 && Sized(a, n) && Sized(b, n) && Flat(a) == Flat(b)
    ensures a == b
  {
    FlatLength(a, n);
    FlatLength(b, n);
    SameCount(|a|, |b|, n);
    if a != [] {
      var a', b' := a[..|a| - 1], b[..|b| - 1];
      FlatLength(a', n);
      FlatLength(b', n);
      assert Flat(a)[..|Flat(a')|] == Flat(a') && Flat(b)[..|Flat(b')|] == Flat(b');
      assert Flat(a)[|Flat(a')|..] == a[|a| - 1] && Flat(b)[|Flat(b')|..] == b[|b| - 1];
      BlocksAreUnique(a', b', n);
      assert a == a' + [a[|a| - 1]] && b == b' + [b[|b| - 1]];
    }
  }

  lemma SameCount(a: nat, b: nat, n: nat)
    requires n > 0 && a * n == b * n
    ensures a == b
  {
    if a < b {
      Scale(a, b, n);
    } else if b < a {
      Scale(b, a, n);
    }
  }

  lemma EmptyStream<S>(step: (S, Frame) -> (S, Frame), st: S)
    ensures StateAfter(step, st, []) == st && Outputs(step, st, []) == [] && Flat([]) == []
  {
  }

  // ------------------------------------------------------------------------- firings

  /** n calls of an effect for w frames, s frames apart, stay within len frames. */
  predicate Fits(len: int, s: nat, w: nat, n: nat) {
    len >= 0 && (n == 0 || (n - 1) * s + w <= len)
  }

  lemma FitsFewer(len: int, s: nat, w: nat, n: nat, k: nat)
    requires Fits(len, s, w, n) && k < n
    ensures Fits(len, s, w, k) && k * s + w <= len
  {
    if k < n - 1 {
      Scale(k, n - 1, s);
    }
    if k > 0 {
      Scale(k - 1, k, s);
    }
  }

  /** The effect's state after n calls. */
  function Fired<S>(step: (S, Frame) -> (S, Frame), st: S, x: seq<Frame>, s: nat, w: nat, n: nat): S
    requires Fits(|x|, s, w, n)
  {
    if n == 0 then st
    else
      FitsFewer(|x|, s, w, n, n - 1);
      var from := (n - 1) * s;
      StateAfter(step, Fired(step, st, x, s, w, n - 1), x[from..from + w])
  }

  /** The write buffer b after n calls whose output starts at place at. */
  function Woven<S>(step: (S, Frame) -> (S, Frame), st: S, x: seq<Frame>, b: seq<Frame>, at: nat, s: nat, w: nat, n: nat): (r: seq<Frame>)
    requires Fits(|x|, s, w, n) && Fits(|b| - at, s, w, n)
    ensures |r| == |b|
    decreases n
  {
    if n == 0 then b
    else
      FitsFewer(|x|, s, w, n, n - 1);
      FitsFewer(|b| - at, s, w, n, n - 1);
      var from := (n - 1) * s;
      Splice(Woven(step, st, x, b, at, s, w, n - 1), at + from,
             Outputs(step, Fired(step, st, x, s, w, n - 1), x[from..from + w]))
  }

  /** Calls side by side, or a single call, that cover m frames. */
  predicate Tiles(m: nat, s: nat, w: nat, n: nat) {
    (n == 1 && w == m) || (s == w && n * s == m)
  }

  lemma {:induction false} SideBySide<S>(step: (S, Frame) -> (S, Frame), st: S, x: seq<Frame>, b: seq<Frame>, at: nat, s: nat, n: nat)
    requires n * s <= |x| && at + n * s <= |b| && Fits(|x|, s, s, n) && Fits(|b| - at, s, s, n)
    ensures Fired(step, st, x, s, s, n) == StateAfter(step, st, x[..n * s])
    ensures Woven(step, st, x, b, at, s, s, n) == Splice(b, at, Outputs(step, st, x[..n * s]))
    decreases n
  {
    hide StateAfter, Outputs, Splice;
    if n == 0 {
      EmptyStream(step, st);
      SpliceNone(b, at);
    } else {
      var k := n - 1;
      Within(k, n, s);
      FitsFewer(|x|, s, s, n, k);
      FitsFewer(|b| - at, s, s, n, k);
      SideBySide(step, st, x, b, at, s, k);
      var u, v := x[..k * s], x[k * s..k * s + s];
      assert u + v == x[..n * s];
      StreamSplits(step, st, u, v);
      SpliceNext(b, at, Outputs(step, st, u), Outputs(step, StateAfter(step, st, u), v));
    }
  }

  lemma TilingStreams<S>(step: (S, Frame) -> (S, Frame), st: S, x: seq<Frame>, b: seq<Frame>, at: nat, s: nat, w: nat, n: nat)
    requires Tiles(|x|, s, w, n) && Fits(|x|, s, w, n) && Fits(|b| - at, s, w, n) && at + |x| <= |b|
    ensures Fired(step, st, x, s, w, n) == StateAfter(step, st, x)
    ensures Woven(step, st, x, b, at, s, w, n) == Splice(b, at, Outputs(step, st, x))
  {
    hide StateAfter, Outputs, Splice;
    if n == 1 && w == |x| {
      assert x[0 * s..0 * s + w] == x;
      assert Fired(step, st, x, s, w, 0) == st;
    } else {
      SideBySide(step, st, x, b, at, s, n);
      assert x[..n * s] == x;
    }
  }

  /** No call up to the n-th writes place p of the block. */
  ghost predicate Missed(p: int, s: nat, w: nat, n: nat) {
    forall i: nat :: i < n ==> p < Start(i, s) || Start(i, s) + w <= p
  }

  function Start(i: nat, s: nat): nat {
    i * s
  }

  /** What no call writes stays as the write buffer held it. */
  lemma {:induction false} MissedStays<S>(step: (S, Frame) -> (S, Frame), st: S, x: seq<Frame>, b: seq<Frame>, at: nat, s: nat, w: nat, n: nat, q: nat)
    requires Fits(|x|, s, w, n) && Fits(|b| - at, s, w, n) && q < |b| && Missed(q - at, s, w, n)
    ensures Woven(step, st, x, b, at, s, w, n)[q] == b[q]
    decreases n
  {
    hide StateAfter, Outputs;
    if n > 0 {
      FitsFewer(|x|, s, w, n, n - 1);
      FitsFewer(|b| - at, s, w, n, n - 1);
      MissedStays(step, st, x, b, at, s, w, n - 1, q);
      assert q - at < Start(n - 1, s) || Start(n - 1, s) + w <= q - at;
    }
  }

  // ---------------------------------------------------------------------------- runs

  /** Block sizes, firing size and the number of frames one call of the effect handles. */
  datatype Rates = Rates(xb: nat, yb: nat, s: nat, w: nat)

  function Least(c: Rates): nat {
    if c.xb < c.yb then c.xb else c.yb
  }

  /** Receives and sends per run, firings per block: the rate set-up. */
  function Receives(c: Rates): nat
    requires c.xb > 0
  {
    if c.xb < c.yb then c.yb / c.xb else 1
  }

  function Sends(c: Rates): nat
    requires c.yb > 0
  {
    if c.xb > c.yb then c.xb / c.yb else 1
  }

  function Firings(c: Rates): nat
    requires c.s > 0
  {
    Least(c) / c.s
  }

  /** Nothing divides by zero and no call reaches beyond a block. */
  predicate Sound(c: Rates) {
    c.xb > 0 && c.yb > 0 && c.s > 0 && c.w > 0 && Fits(Least(c), c.s, c.w, Firings(c))
  }

  /** One size divides the other and the calls of the effect cover the smaller block frame for frame. */
  predicate Exact(c: Rates)
    requires Sound(c)
  {
    (c.xb % c.yb == 0 || c.yb % c.xb == 0) && Tiles(Least(c), c.s, c.w, Firings(c))
  }

  lemma PartFits(c: Rates, j: nat)
    requires Sound(c)
    ensures c.xb >= c.yb && j < Sends(c) ==> Least(c) == c.yb && j * c.yb + c.yb <= c.xb
    ensures c.xb < c.yb && j < Receives(c) ==> Least(c) == c.xb && j * c.xb + c.xb <= c.yb
    ensures Receives(c) > 0 && Sends(c) > 0
  {
    hide Fits;
    if c.xb > c.yb {
      QuotientFits(c.xb, c.yb, j);
    } else if c.xb < c.yb {
      QuotientFits(c.yb, c.xb, j);
    }
  }

  lemma QuotientFits(a: nat, b: nat, j: nat)
    requires a >= b > 0
    ensures a / b > 0 && (j < a / b ==> j * b + b <= a)
  {
    assert a == a / b * b + a % b;
    if j < a / b {
      Scale(j, a / b, b);
    }
  }

  /** Input at least as large as output: the effect's state after j sends, and what was sent. */
  function UpState<S>(c: Rates, step: (S, Frame) -> (S, Frame), st: S, block: seq<Frame>, j: nat): S
    requires Sound(c) && c.xb >= c.yb && |block| == c.xb && j <= Sends(c)
  {
    if j == 0 then st
    else
      PartFits(c, j - 1);
      var from := (j - 1) * c.yb;
      Fired(step, UpState(c, step, st, block, j - 1), block[from..from + c.yb], c.s, c.w, Firings(c))
  }

  function UpSent<S>(c: Rates, step: (S, Frame) -> (S, Frame), st: S, block: seq<Frame>, stale: seq<seq<Frame>>, j: nat): (r: seq<seq<Frame>>)
    requires Sound(c) && c.xb >= c.yb && |block| == c.xb && j <= Sends(c) && j <= |stale| && Sized(stale, c.yb)
    ensures |r| == j && Sized(r, c.yb)
  {
    if j == 0 then []
    else
      PartFits(c, j - 1);
      var from := (j - 1) * c.yb;
      UpSent(c, step, st, block, stale, j - 1)
      + [Woven(step, UpState(c, step, st, block, j - 1), block[from..from + c.yb], stale[j - 1], 0, c.s, c.w, Firings(c))]
  }

  /** Output larger: the effect's state after j receives, and the write buffer that was b. */
  function DownState<S>(c: Rates, step: (S, Frame) -> (S, Frame), st: S, blocks: seq<seq<Frame>>, j: nat): S
    requires Sound(c) && c.xb < c.yb && Sized(blocks, c.xb) && j <= |blocks|
  {
    if j == 0 then st
    else Fired(step, DownState(c, step, st, blocks, j - 1), blocks[j - 1], c.s, c.w, Firings(c))
  }

  function DownBuffer<S>(c: Rates, step: (S, Frame) -> (S, Frame), st: S, blocks: seq<seq<Frame>>, b: seq<Frame>, j: nat): (r: seq<Frame>)
    requires Sound(c) && c.xb < c.yb && Sized(blocks, c.xb) && j <= |blocks| && j <= Receives(c) && |b| == c.yb
    ensures |r| == c.yb
    decreases j
  {
    if j == 0 then b
    else
      PartFits(c, j - 1);
      RoomFor(c, (j - 1) * c.xb);
      Woven(step, DownState(c, step, st, blocks, j - 1), blocks[j - 1], DownBuffer(c, step, st, blocks, b, j - 1),
            (j - 1) * c.xb, c.s, c.w, Firings(c))
  }

  lemma RoomFor(c: Rates, at: nat)
    requires Sound(c) && at + Least(c) <= c.yb
    ensures Fits(c.yb - at, c.s, c.w, Firings(c))
  {
  }

  /** One run: the blocks it takes, the write buffers it finds, the state it leaves and the blocks it sends. */
  predicate RunOf(c: Rates, blocks: seq<seq<Frame>>, stale: seq<seq<Frame>>) {
    Sound(c) && |blocks| == Receives(c) && Sized(blocks, c.xb) && |stale| == Sends(c) && Sized(stale, c.yb)
  }

  function RunState<S>(c: Rates, step: (S, Frame) -> (S, Frame), st: S, blocks: seq<seq<Frame>>): S
    requires Sound(c) && |blocks| == Receives(c) && Sized(blocks, c.xb)
  {
    if c.xb >= c.yb then UpState(c, step, st, blocks[0], Sends(c)) else DownState(c, step, st, blocks, Receives(c))
  }

  function RunSent<S>(c: Rates, step: (S, Frame) -> (S, Frame), st: S, blocks: seq<seq<Frame>>, stale: seq<seq<Frame>>): (r: seq<seq<Frame>>)
    requires RunOf(c, blocks, stale)
    ensures |r| == Sends(c) && Sized(r, c.yb)
  {
    if c.xb >= c.yb then UpSent(c, step, st, blocks[0], stale, Sends(c))
    else [DownBuffer(c, step, st, blocks, stale[0], Receives(c))]
  }

  /** What is sent and the state left behind are the effect's on the stream of frames received. */
  ghost predicate Streams<S(!new)>(c: Rates, step: (S, Frame) -> (S, Frame), st: S, blocks: seq<seq<Frame>>, stale: seq<seq<Frame>>)
    requires RunOf(c, blocks, stale)
  {
    && Flat(RunSent(c, step, st, blocks, stale)) == Outputs(step, st, Flat(blocks))
    && RunState(c, step, st, blocks) == StateAfter(step, st, Flat(blocks))
  }

  lemma {:induction false} UpStreams<S>(c: Rates, step: (S, Frame) -> (S, Frame), st: S, block: seq<Frame>, stale: seq<seq<Frame>>, j: nat)
    requires Sound(c) && Tiles(Least(c), c.s, c.w, Firings(c)) && c.xb >= c.yb && |block| == c.xb && j <= Sends(c) && j <= |stale| && Sized(stale, c.yb)
    ensures j * c.yb <= c.xb
    ensures UpState(c, step, st, block, j) == StateAfter(step, st, block[..j * c.yb])
    ensures Flat(UpSent(c, step, st, block, stale, j)) == Outputs(step, st, block[..j * c.yb])
    decreases j
  {
    hide StateAfter, Outputs, Flat, Fired, Woven, Tiles, Fits, Splice, Firings, Sends;
    if j == 0 {
      EmptyStream(step, st);
    } else {
      var k := j - 1;
      PartFits(c, k);
      UpStreams(c, step, st, block, stale, k);
      var from := k * c.yb;
      var u, v := block[..from], block[from..from + c.yb];
      var st' := StateAfter(step, st, u);
      RoomFor(c, 0);
      TilingStreams(step, st', v, stale[k], 0, c.s, c.w, Firings(c));
      SpliceWhole(stale[k], Outputs(step, st', v));
      StreamSplits(step, st, u, v);
      assert j * c.yb == from + c.yb && u + v == block[..j * c.yb];
      var sent := UpSent(c, step, st, block, stale, k);
      FlatSplits(sent, [Outputs(step, st', v)]);
      FlatOne(Outputs(step, st', v));
    }
  }

  lemma {:induction false} DownStreams<S>(c: Rates, step: (S, Frame) -> (S, Frame), st: S, blocks: seq<seq<Frame>>, b: seq<Frame>, j: nat)
    requires Sound(c) && Tiles(Least(c), c.s, c.w, Firings(c)) && c.xb < c.yb && Sized(blocks, c.xb) && j <= |blocks| && j <= Receives(c) && |b| == c.yb
    ensures |Flat(blocks[..j])| == j * c.xb <= c.yb
    ensures DownState(c, step, st, blocks, j) == StateAfter(step, st, Flat(blocks[..j]))
    ensures DownBuffer(c, step, st, blocks, b, j) == Splice(b, 0, Outputs(step, st, Flat(blocks[..j])))
    decreases j
  {
    hide StateAfter, Outputs, Flat, Fired, Woven, Tiles, Fits, Splice, Firings, Receives;
    if j == 0 {
      EmptyStream(step, st);
      SpliceNone(b, 0);
    } else {
      var k := j - 1;
      PartFits(c, k);
      DownStreams(c, step, st, blocks, b, k);
      var u, v := Flat(blocks[..k]), blocks[k];
      var st' := StateAfter(step, st, u);
      RoomFor(c, k * c.xb);
      TilingStreams(step, st', v, DownBuffer(c, step, st, blocks, b, k), k * c.xb, c.s, c.w, Firings(c));
      StreamSplits(step, st, u, v);
      FlatSplits(blocks[..k], [v]);
      FlatOne(v);
      assert blocks[..j] == blocks[..k] + [v];
      SpliceNext(b, 0, Outputs(step, st, u), Outputs(step, st', v));
    }
  }

  lemma ExactStreams<S(!new)>(c: Rates, step: (S, Frame) -> (S, Frame), st: S, blocks: seq<seq<Frame>>, stale: seq<seq<Frame>>)
    requires RunOf(c, blocks, stale) && Exact(c)
    ensures Streams(c, step, st, blocks, stale)
  {
    hide StateAfter, Outputs, Flat, Tiles, Fits, UpState, UpSent, DownState, DownBuffer;
    PartFits(c, 0);
    WholeParts(c);
    if c.xb >= c.yb {
      UpStreams(c, step, st, blocks[0], stale, Sends(c));
      assert blocks[0][..c.xb] == blocks[0] && blocks == [blocks[0]];
      FlatOne(blocks[0]);
    } else {
      DownStreams(c, step, st, blocks, stale[0], Receives(c));
      assert blocks[..Receives(c)] == blocks;
      SpliceWhole(stale[0], Outputs(step, st, Flat(blocks)));
      FlatOne(Outputs(step, st, Flat(blocks)));
    }
  }

  /** The parts make up the larger block exactly when its size is a multiple of the smaller. */
  lemma WholeParts(c: Rates)
    requires Sound(c)
    ensures Sends(c) * c.yb == Receives(c) * c.xb <==> c.xb % c.yb == 0 || c.yb % c.xb == 0
  {
    hide Fits;
    if c.xb > c.yb {
      Parts(c.xb, c.yb);
    } else if c.xb < c.yb {
      Parts(c.yb, c.xb);
    } else {
      ExactQuotient(c.xb, c.yb);
      SameRemainder(c.xb, c.xb / c.yb, c.xb % c.yb, 1, 0);
    }
  }

  lemma Parts(a: nat, b: nat)
    requires a > b > 0
    ensures a / b * b == a <==> a % b == 0
    ensures b % a != 0
  {
    assert a == a / b * b + a % b;
    ExactQuotient(b, a);
  }

  // ------------------------------------------------------------- when it does not stream

  lemma {:induction false} DownFirst<S>(c: Rates, step: (S, Frame) -> (S, Frame), st: S, blocks: seq<seq<Frame>>, b: seq<Frame>, j: nat, p: nat)
    requires Sound(c) && c.xb < c.yb && Sized(blocks, c.xb) && 1 <= j <= |blocks| && j <= Receives(c) && |b| == c.yb && p < c.xb
    ensures Fits(c.xb, c.s, c.w, Firings(c)) && Fits(c.yb, c.s, c.w, Firings(c))
    ensures DownBuffer(c, step, st, blocks, b, j)[p] == Woven(step, st, blocks[0], b, 0, c.s, c.w, Firings(c))[p]
    decreases j
  {
    hide Woven, Fired, Fits, Firings, Receives;
    RoomFor(c, 0);
    if j > 1 {
      var k := j - 1;
      PartFits(c, k);
      DownFirst(c, step, st, blocks, b, k, p);
      RoomFor(c, k * c.xb);
      Scale(0, k, c.xb);
      MissedStays(step, DownState(c, step, st, blocks, k), blocks[k], DownBuffer(c, step, st, blocks, b, k),
                  k * c.xb, c.s, c.w, Firings(c), p);
    } else {
      assert DownBuffer(c, step, st, blocks, b, 0) == b && DownState(c, step, st, blocks, 0) == st;
      assert 0 * c.xb == 0;
    }
  }

  lemma {:induction false} UpFirst<S>(c: Rates, step: (S, Frame) -> (S, Frame), st: S, block: seq<Frame>, stale: seq<seq<Frame>>, j: nat)
    requires Sound(c) && c.xb >= c.yb && |block| == c.xb && 1 <= j <= Sends(c) && j <= |stale| && Sized(stale, c.yb)
    ensures Fits(c.yb, c.s, c.w, Firings(c))
    ensures UpSent(c, step, st, block, stale, j)[0] == Woven(step, st, block[..c.yb], stale[0], 0, c.s, c.w, Firings(c))
    decreases j
  {
    hide Woven, Fired, Fits, Firings, Sends;
    RoomFor(c, 0);
    if j > 1 {
      UpFirst(c, step, st, block, stale, j - 1);
    } else {
      assert block[0 * c.yb..0 * c.yb + c.yb] == block[..c.yb];
      assert UpSent(c, step, st, block, stale, 0) == [] && UpState(c, step, st, block, 0) == st;
    }
  }

  /** The smaller block's worth of frames at the front of the first block sent. */
  lemma FirstSent<S>(c: Rates, step: (S, Frame) -> (S, Frame), st: S, blocks: seq<seq<Frame>>, stale: seq<seq<Frame>>, p: nat)
    requires RunOf(c, blocks, stale) && p < Least(c)
    ensures |blocks| > 0 && |stale| > 0 && |RunSent(c, step, st, blocks, stale)| > 0 && Fits(|stale[0]|, c.s, c.w, Firings(c))
    ensures RunSent(c, step, st, blocks, stale)[0][p]
         == Woven(step, st, blocks[0][..Least(c)], stale[0], 0, c.s, c.w, Firings(c))[p]
  {
    hide Woven, Fired, Fits, Firings, UpSent, DownBuffer, UpState, DownState;
    PartFits(c, 0);
    RoomFor(c, 0);
    if c.xb >= c.yb {
      UpFirst(c, step, st, blocks[0], stale, Sends(c));
    } else {
      DownFirst(c, step, st, blocks, stale[0], Receives(c), p);
      assert blocks[0][..Least(c)] == blocks[0];
    }
  }

  /** A frame of the first sent block that no call writes is whatever the write buffer held. */
  lemma MissedIsStale<S>(c: Rates, step: (S, Frame) -> (S, Frame), st: S, blocks: seq<seq<Frame>>, stale: seq<seq<Frame>>, p: nat)
    requires RunOf(c, blocks, stale) && p < Least(c) && Missed(p, c.s, c.w, Firings(c))
    ensures |RunSent(c, step, st, blocks, stale)| > 0 && RunSent(c, step, st, blocks, stale)[0][p] == stale[0][p]
  {
    hide Woven, Fired, Fits, Firings, RunSent, Missed;
    FirstSent(c, step, st, blocks, stale, p);
    MissedStays(step, st, blocks[0][..Least(c)], stale[0], 0, c.s, c.w, Firings(c), p);
  }

  lemma {:induction false} FlatFirst(blocks: seq<seq<Frame>>, p: nat)
    requires blocks != [] && p < |blocks[0]|
    ensures p < |Flat(blocks)| && Flat(blocks)[p] == blocks[0][p]
  {
    FlatSplits([blocks[0]], blocks[1..]);
    FlatOne(blocks[0]);
    assert [blocks[0]] + blocks[1..] == blocks;
  }

  /** Calls that neither tile nor overlap leave a frame out. */
  lemma SomeMissed(m: nat, s: nat, w: nat, n: nat) returns (p: nat)
    requires m > 0 && s > 0 && w > 0 && n * s <= m && Fits(m, s, w, n) && !Tiles(m, s, w, n) && (n < 2 || w <= s)
    ensures p < m && Missed(p, s, w, n)
  {
    if n == 0 {
      p := 0;
    } else if n == 1 || w < s {
      p := w;
      if n > 1 {
        Scale(1, n, s);
      }
      forall i: nat | i < n ensures p < Start(i, s) || Start(i, s) + w <= p {
        if i > 0 {
          Scale(0, i, s);
        }
      }
    } else {
      p := n * s;
      forall i: nat | i < n ensures p < Start(i, s) || Start(i, s) + w <= p {
        Within(i, n, s);
      }
    }
  }

  /** An effect that counts its frames and marks the one numbered k. */
  function Counting(k: nat): (nat, Frame) -> (nat, Frame) {
    (n: nat, x: Frame) => (n + 1, if n == k then Frame(1, 1) else SILENCE)
  }

  lemma {:induction false} CountingCounts(k: nat, n: nat, xs: seq<Frame>)
    ensures StateAfter(Counting(k), n, xs) == n + |xs|
    ensures forall i :: 0 <= i < |xs| ==> Outputs(Counting(k), n, xs)[i] == if n + i == k then Frame(1, 1) else SILENCE
    decreases |xs|
  {
    if xs != [] {
      CountingCounts(k, n, xs[..|xs| - 1]);
    }
  }

  /** Where calls overlap, frame s of the block is what the second call made of it. */
  lemma {:induction false} OverlapValue(x: seq<Frame>, b: seq<Frame>, s: nat, w: nat, n: nat)
    requires 0 < s < w && 2 <= n && Fits(|x|, s, w, n) && Fits(|b|, s, w, n) && s < |b|
    ensures Woven(Counting(s), 0, x, b, 0, s, w, n)[s] == SILENCE
    decreases n
  {
    FitsFewer(|x|, s, w, n, n - 1);
    FitsFewer(|b|, s, w, n, n - 1);
    if n > 2 {
      OverlapValue(x, b, s, w, n - 1);
      Scale(1, n - 1, s);
    } else {
      var e := Counting(s);
      FitsFewer(|x|, s, w, 1, 0);
      CountingCounts(s, 0, x[0 * s..0 * s + w]);
      assert Fired(e, 0, x, s, w, 1) == StateAfter(e, Fired(e, 0, x, s, w, 0), x[0 * s..0 * s + w]);
      CountingCounts(s, w, x[1 * s..1 * s + w]);
    }
  }

  function Quiet(count: nat, n: nat, f: Frame): (r: seq<seq<Frame>>)
    ensures |r| == count && Sized(r, n) && forall i, k :: 0 <= i < count && 0 <= k < n ==> r[i][k] == f
  {
    seq(count, _ => seq(n, _ => f))
  }

  lemma StreamHasFrames(c: Rates, blocks: seq<seq<Frame>>)
    requires Sound(c) && |blocks| == Receives(c) && Sized(blocks, c.xb)
    ensures |Flat(blocks)| == Receives(c) * c.xb >= Least(c)
  {
    hide Fits;
    PartFits(c, 0);
    FlatLength(blocks, c.xb);
    Within(0, Receives(c), c.xb);
  }

  /** Sizes that do not divide lose or invent frames, whatever the effect. */
  lemma UnevenFails<S>(c: Rates, step: (S, Frame) -> (S, Frame), st: S, blocks: seq<seq<Frame>>, stale: seq<seq<Frame>>)
    requires RunOf(c, blocks, stale) && c.xb % c.yb != 0 && c.yb % c.xb != 0
    ensures |Flat(RunSent(c, step, st, blocks, stale))| != |Outputs(step, st, Flat(blocks))|
  {
    hide Fits, RunSent, Flat, Outputs, Sends, Receives;
    WholeParts(c);
    FlatLength(blocks, c.xb);
    FlatLength(RunSent(c, step, st, blocks, stale), c.yb);
  }

  /** Calls that leave a frame out send it as the write buffer held it, whatever the effect. */
  lemma GapFails<S>(c: Rates, step: (S, Frame) -> (S, Frame), st: S, blocks: seq<seq<Frame>>, p: nat) returns (stale: seq<seq<Frame>>)
    requires Sound(c) && |blocks| == Receives(c) && Sized(blocks, c.xb) && p < Least(c) && Missed(p, c.s, c.w, Firings(c))
    ensures RunOf(c, blocks, stale) && Flat(RunSent(c, step, st, blocks, stale)) != Outputs(step, st, Flat(blocks))
  {
    hide Fits, RunSent, Flat, Outputs, Missed, Receives, Firings;
    StreamHasFrames(c, blocks);
    var f := if Outputs(step, st, Flat(blocks))[p] == SILENCE then Frame(1, 1) else SILENCE;
    stale := Quiet(Sends(c), c.yb, f);
    PartFits(c, 0);
    MissedIsStale(c, step, st, blocks, stale, p);
    FlatFirst(RunSent(c, step, st, blocks, stale), p);
  }

  /** Overlapping calls show the effect some frames twice. */
  lemma OverlapFails(c: Rates, blocks: seq<seq<Frame>>, stale: seq<seq<Frame>>)
    requires RunOf(c, blocks, stale) && c.s < c.w && Firings(c) >= 2
    ensures Flat(RunSent(c, Counting(c.s), 0, blocks, stale)) != Outputs(Counting(c.s), 0, Flat(blocks))
  {
    hide RunSent, Flat, Outputs, Receives, Sends, Firings, Woven, StateAfter;
    StreamHasFrames(c, blocks);
    var e, n := Counting(c.s), Firings(c);
    FitsFewer(Least(c), c.s, c.w, n, 1);
    FirstSent(c, e, 0, blocks, stale, c.s);
    OverlapValue(blocks[0][..Least(c)], stale[0], c.s, c.w, n);
    FlatFirst(RunSent(c, e, 0, blocks, stale), c.s);
    CountingCounts(c.s, 0, Flat(blocks));
  }

  /** The stream theorem, for all effects, inputs and write buffers, holds exactly for exact rates. */
  lemma StreamsIffExact(c: Rates)
    requires Sound(c)
    ensures Exact(c) <==>
            forall step: (nat, Frame) -> (nat, Frame), st: nat, blocks, stale ::
              RunOf(c, blocks, stale) ==> Streams(c, step, st, blocks, stale)
  {
    hide RunSent, RunState, Flat, Outputs, StateAfter, Fits, Firings, Receives, Sends, Missed;
    if Exact(c) {
      forall step: (nat, Frame) -> (nat, Frame), st: nat, blocks, stale | RunOf(c, blocks, stale)
        ensures Streams(c, step, st, blocks, stale)
      {
        ExactStreams(c, step, st, blocks, stale);
      }
    } else {
      var blocks, stale := SomeFailure(c);
    }
  }

  lemma SomeFailure(c: Rates) returns (blocks: seq<seq<Frame>>, stale: seq<seq<Frame>>)
    requires Sound(c) && !Exact(c)
    ensures RunOf(c, blocks, stale) && !Streams(c, Counting(c.s), 0, blocks, stale)
  {
    hide RunSent, RunState, Flat, Outputs, StateAfter, Fits, Missed;
    blocks, stale := Quiet(Receives(c), c.xb, SILENCE), Quiet(Sends(c), c.yb, SILENCE);
    if c.xb % c.yb != 0 && c.yb % c.xb != 0 {
      UnevenFails(c, Counting(c.s), 0, blocks, stale);
    } else if c.s < c.w && Firings(c) >= 2 {
      OverlapFails(c, blocks, stale);
    } else {
      var m := Least(c);
      assert m / c.s * c.s <= m;
      var p := SomeMissed(m, c.s, c.w, Firings(c));
      stale := GapFails(c, Counting(c.s), 0, blocks, p);
    }
  }

  /** Where all sizes divide each other, as they should, the condition is that the firing size is the effect's own. */
  lemma ExactMeansOwnWidth(c: Rates)
    requires Sound(c) && (c.xb % c.yb == 0 || c.yb % c.xb == 0) && Least(c) % c.s == 0
    ensures Exact(c) <==> c.s == c.w
  {
    var m, n := Least(c), Firings(c);
    assert m == n * c.s;
    if n == 1 {
      assert 1 * c.s == c.s;
    }
  }
}
