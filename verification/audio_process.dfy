/**
 * audio_process: one node of the audio graph takes blocks of xb frames from its input channel, calls a stateful
 * effect for w frames once every s frames and hands over blocks of yb frames.  Channels are FIFOs of blocks.
 */
module AudioProcess {
  import opened AudioEffects
  import opened AudioStream
  import opened Splices

  datatype Rate = Equal | InputLarger | OutputLarger

  class Node<S(!new)> {
    const step: (S, Frame) -> (S, Frame)
    const c: Rates
    const pt: Rate
    const nr: nat
    const ns: nat
    const nf: nat
    var state: S
    var x: array<Frame>
    var y: array<Frame>
    var inbox: seq<seq<Frame>>
    var outbox: seq<seq<Frame>>
    ghost var unacked: nat
    ghost const initial: S
    ghost var taken: seq<Frame>

    /** The counts are those of the sizes. */
    ghost predicate Tuned() {
      && Sound(c) && nr == Receives(c) && ns == Sends(c) && nf == Firings(c)
      && pt == (if c.xb == c.yb then Equal else if c.xb > c.yb then InputLarger else OutputLarger)
    }

    /** Between calls every block received has been acknowledged and, at exact rates, all output so far is the effect's output on all input so far. */
    ghost predicate Valid()
      reads this
    {
      && Tuned() && unacked == 0 && y.Length == c.yb && Sized(inbox, c.xb) && Sized(outbox, c.yb)
      && (Exact(c) ==> state == StateAfter(step, initial, taken) && Flat(outbox) == Outputs(step, initial, taken))
    }

    /** The rate set-up of alloc_audio_vars, for an effect that handles width frames per call. */
    constructor (effect: (S, Frame) -> (S, Frame), st: S, inSize: nat, outSize: nat, amount: nat, width: nat)
      requires Sound(Rates(inSize, outSize, amount, width))
      ensures Valid() && inbox == [] && outbox == [] && taken == [] && initial == st && state == st
      ensures step == effect && c == Rates(inSize, outSize, amount, width) && fresh(x) && fresh(y) && x != y
    {
      step := effect;
      c := Rates(inSize, outSize, amount, width);
      if inSize == outSize {
        pt := Equal;
        nr := 1;
        ns := 1;
        nf := inSize / amount;
      } else if inSize > outSize {
        pt := InputLarger;
        nr := 1;
        ns := inSize / outSize;
        nf := outSize / amount;
      } else {
        pt := OutputLarger;
        nr := outSize / inSize;
        ns := 1;
        nf := inSize / amount;
      }
      state := st;
      initial := st;
      taken := [];
      inbox := [];
      outbox := [];
      unacked := 0;
      x := new Frame[inSize];
      y := new Frame[outSize];
    }

    /** mp_recv: the head block becomes readable under the new pointer. */
    method Recv()
      requires inbox != [] && |inbox[0]| == c.xb
      modifies this`x, this`inbox, this`unacked
      ensures x.Length == c.xb && x[..] == old(inbox[0]) && inbox == old(inbox[1..]) && fresh(x) && unacked == old(unacked) + 1
    {
      var block := inbox[0];
      x := new Frame[c.xb](i requires 0 <= i < c.xb => block[i]);
      inbox := inbox[1..];
      unacked := unacked + 1;
    }

    /** mp_ack: from here on the sender may overwrite the block. */
    method Ack()
      requires unacked > 0
      modifies this`x, this`unacked
      ensures x.Length == c.xb && fresh(x) && unacked == old(unacked) - 1
    {
      x := new Frame[c.xb];
      unacked := unacked - 1;
    }

    /** mp_send: the block leaves and the next write buffer holds anything. */
    method Send()
      requires y.Length == c.yb
      modifies this`y, this`outbox
      ensures outbox == old(outbox) + [old(y[..])] && y.Length == c.yb && fresh(y)
    {
      outbox := outbox + [y[..]];
      y := new Frame[c.yb];
    }

    /** One call of the effect: w frames from x at xo to y at yo; eight for the long dry copy, otherwise one. */
    method Fire(xo: nat, yo: nat)
      requires xo + c.w <= x.Length && yo + c.w <= y.Length && x != y
      modifies this`state, y
      ensures state == StateAfter(step, old(state), x[xo..xo + c.w])
      ensures y[..] == Splice(old(y[..]), yo, Outputs(step, old(state), x[xo..xo + c.w]))
    {
      ghost var st, was := state, y[..];
      for k := 0 to c.w
        invariant x[..] == old(x[..])
        invariant state == StateAfter(step, st, x[xo..xo + k])
        invariant y[..] == Splice(was, yo, Outputs(step, st, x[xo..xo + k]))
      {
        ghost var seen := x[xo..xo + k];
        var r := step(state, x[xo + k]);
        assert x[xo..xo + k + 1][..k] == seen;
        state := r.0;
        y[yo + k] := r.1;
        SpliceOne(was, yo, Outputs(step, st, seen), r.1);
      }
    }

    /** The nf calls of one inner loop, s frames apart, within the m frames of a part. */
    method FireAll(xo: nat, yo: nat, ghost m: nat)
      requires xo + m <= x.Length && yo <= y.Length && x != y
      requires Fits(m, c.s, c.w, nf) && Fits(y.Length - yo, c.s, c.w, nf)
      modifies this`state, y
      ensures state == Fired(step, old(state), x[xo..xo + m], c.s, c.w, nf)
      ensures y[..] == Woven(step, old(state), x[xo..xo + m], old(y[..]), yo, c.s, c.w, nf)
    {
      hide StateAfter, Outputs, Splice, Fits, Fired, Woven;
      ghost var st, was, part := state, y[..], x[xo..xo + m];
      NoneFired(step, st, part, was, yo, c.s, c.w);
      for i := 0 to nf
        invariant x[..] == old(x[..]) && Fits(m, c.s, c.w, i) && Fits(y.Length - yo, c.s, c.w, i)
        invariant state == Fired(step, st, part, c.s, c.w, i)
        invariant y[..] == Woven(step, st, part, was, yo, c.s, c.w, i)
      {
        FitsFewer(m, c.s, c.w, nf, i);
        FitsFewer(y.Length - yo, c.s, c.w, nf, i);
        OneMoreFired(step, st, part, was, yo, c.s, c.w, i);
        var ind := i * c.s;
        assert x[xo + ind..xo + ind + c.w] == part[ind..ind + c.w];
        Fire(xo + ind, yo + ind);
      }
    }

    /** Case XeY. */
    method ProcessEqual()
      requires Tuned() && pt == Equal && unacked == 0 && y.Length == c.yb && Sized(inbox, c.xb) && inbox != []
      modifies this`x, this`y, this`inbox, this`outbox, this`state, this`unacked, y
      ensures y.Length == c.yb && fresh(y) && inbox == old(inbox[1..]) && unacked == 0
      ensures state == UpState(c, step, old(state), old(inbox[0]), 1)
      ensures outbox == old(outbox) + UpSent(c, step, old(state), old(inbox[0]), [old(y[..])], 1)
    {
      hide Fired, Woven, Fits;
      ghost var block, st, stale := inbox[0], state, y[..];
      Recv();
      FireAll(0, 0, c.xb);
      PartFits(c, 0);
      assert x[0..c.xb] == block == block[0 * c.yb..0 * c.yb + c.yb];
      assert UpState(c, step, st, block, 0) == st;
      assert UpSent(c, step, st, block, [stale], 0) == [];
      Ack();
      Send();
    }

    /** Case XgY: ns blocks out of one, acknowledged after the last frame is read. */
    method ProcessInputLarger() returns (ghost stale: seq<seq<Frame>>)
      requires Tuned() && pt == InputLarger && unacked == 0 && y.Length == c.yb && Sized(inbox, c.xb) && inbox != []
      modifies this`x, this`y, this`inbox, this`outbox, this`state, this`unacked, y
      ensures y.Length == c.yb && fresh(y) && inbox == old(inbox[1..]) && unacked == 0
      ensures |stale| == ns > 0 && Sized(stale, c.yb) && stale[0] == old(y[..])
      ensures state == UpState(c, step, old(state), old(inbox[0]), ns)
      ensures outbox == old(outbox) + UpSent(c, step, old(state), old(inbox[0]), stale, ns)
    {
      hide Fired, Woven, Fits, Sends, Firings, UpState, UpSent;
      ghost var block, st, out := inbox[0], state, outbox;
      stale := [];
      Recv();
      PartFits(c, 0);
      NoneSent(c, step, st, block);
      for j := 0 to ns
        invariant y.Length == c.yb && fresh({x}) && inbox == old(inbox[1..])
        invariant if j == 0 then y == old(y) && y[..] == old(y[..]) else fresh(y)
        invariant j < ns ==> x != y && x[..] == block
        invariant unacked == if j < ns then 1 else 0
        invariant |stale| == j && Sized(stale, c.yb) && (j > 0 ==> stale[0] == old(y[..]))
        invariant state == UpState(c, step, st, block, j)
        invariant outbox == out + UpSent(c, step, st, block, stale, j)
      {
        var offs := j * c.yb;
        ghost var more := stale + [y[..]];
        OneMoreSent(c, step, st, block, stale, y[..], j);
        FireAll(offs, 0, c.yb);
        assert x[offs..offs + c.yb] == block[offs..offs + c.yb];
        if j == ns - 1 {
          Ack();
        }
        Send();
        stale := more;
      }
    }

    /** Case XlY: nr blocks side by side in one, each acknowledged once it is processed. */
    method ProcessOutputLarger()
      requires Tuned() && pt == OutputLarger && unacked == 0 && y.Length == c.yb && Sized(inbox, c.xb) && |inbox| >= nr
      modifies this`x, this`y, this`inbox, this`outbox, this`state, this`unacked, y
      ensures y.Length == c.yb && fresh(y) && inbox == old(inbox[nr..]) && unacked == 0
      ensures state == DownState(c, step, old(state), old(inbox), nr)
      ensures outbox == old(outbox) + [DownBuffer(c, step, old(state), old(inbox), old(y[..]), nr)]
    {
      hide Fired, Woven, Fits, Receives, Firings;
      ghost var blocks, st, was := inbox, state, y[..];
      for j := 0 to nr
        invariant y == old(y) && outbox == old(outbox) && inbox == blocks[j..] && unacked == 0
        invariant state == DownState(c, step, st, blocks, j)
        invariant y[..] == DownBuffer(c, step, st, blocks, was, j)
      {
        PartFits(c, j);
        RoomFor(c, j * c.xb);
        var offs := j * c.xb;
        Recv();
        FireAll(0, offs, c.xb);
        assert x[0..c.xb] == blocks[j];
        Ack();
      }
      Send();
    }

    /** audio_process between two NoC channels: one run, for all sizes; stale is what the write buffers held. */
    method Process() returns (ghost stale: seq<seq<Frame>>)
      requires Valid() && |inbox| >= nr
      modifies this`x, this`y, this`inbox, this`outbox, this`state, this`taken, this`unacked, y
      ensures Valid() && fresh(y) && inbox == old(inbox[nr..]) && taken == old(taken) + Flat(old(inbox[..nr]))
      ensures RunOf(c, old(inbox[..nr]), stale) && stale[0] == old(y[..])
      ensures state == RunState(c, step, old(state), old(inbox[..nr]))
      ensures outbox == old(outbox) + RunSent(c, step, old(state), old(inbox[..nr]), stale)
    {
      hide StateAfter, Outputs, Flat, UpState, UpSent, DownState, DownBuffer, Exact, Fits;
      ghost var st, out, before, blocks := state, outbox, taken, inbox[..nr];
      stale := [y[..]];
      match pt {
        case Equal =>
          ProcessEqual();
        case InputLarger =>
          stale := ProcessInputLarger();
        case OutputLarger =>
          DownPrefix(c, step, st, inbox, blocks, stale[0], nr);
          ProcessOutputLarger();
      }
      taken := before + Flat(blocks);
      if Exact(c) {
        ExactStreams(c, step, st, blocks, stale);
        StreamSplits(step, initial, before, Flat(blocks));
        FlatSplits(out, RunSent(c, step, st, blocks, stale));
      }
    }

    /** The node's loop, until fewer blocks wait than one run takes. */
    method ProcessAll() returns (used: nat)
      requires Valid()
      modifies this`x, this`y, this`inbox, this`outbox, this`state, this`taken, this`unacked, y
      ensures Valid() && used <= |old(inbox)| && inbox == old(inbox)[used..] && |inbox| < nr
      ensures taken == old(taken) + Flat(old(inbox)[..used])
    {
      hide Flat, StateAfter, Outputs, Tuned, Sized, RunSent, RunState, RunOf;
      ghost var blocks, before := inbox, taken;
      used := 0;
      EmptyStream(step, state);
      assert nr > 0 by {
        Positive();
      }
      while |inbox| >= nr
        invariant Valid() && (y == old(y) || fresh(y)) && used <= |blocks| && inbox == blocks[used..]
        invariant taken == before + Flat(blocks[..used])
        decreases |inbox|
      {
        ghost var run := blocks[used..][..nr];
        ghost var stale := Process();
        FlatSplits(blocks[..used], run);
        assert blocks[..used + nr] == blocks[..used] + run;
        used := used + nr;
      }
    }

    lemma Positive()
      requires Tuned()
      ensures nr > 0
    {
      PartFits(c, 0);
    }

    /** Blocks left over after whole runs do not fill an output block. */
    lemma Leftover(k: nat)
      requires Tuned() && k < nr
      ensures k == 0 || k * c.xb < c.yb
    {
      if pt == OutputLarger {
        PartFits(c, k);
      }
    }
  }

  lemma NoneFired<S>(step: (S, Frame) -> (S, Frame), st: S, x: seq<Frame>, b: seq<Frame>, at: nat, s: nat, w: nat)
    requires at <= |b|
    ensures Fits(|x|, s, w, 0) && Fits(|b| - at, s, w, 0)
    ensures Fired(step, st, x, s, w, 0) == st && Woven(step, st, x, b, at, s, w, 0) == b
  {
  }

  lemma OneMoreFired<S>(step: (S, Frame) -> (S, Frame), st: S, x: seq<Frame>, b: seq<Frame>, at: nat, s: nat, w: nat, i: nat)
    requires at <= |b| && Fits(|x|, s, w, i) && Fits(|b| - at, s, w, i) && i * s + w <= |x| && at + i * s + w <= |b|
    ensures Fits(|x|, s, w, i + 1) && Fits(|b| - at, s, w, i + 1)
    ensures var v := x[i * s..i * s + w]; var st' := Fired(step, st, x, s, w, i);
            && Fired(step, st, x, s, w, i + 1) == StateAfter(step, st', v)
            && Woven(step, st, x, b, at, s, w, i + 1)
            == Splice(Woven(step, st, x, b, at, s, w, i), at + i * s, Outputs(step, st', v))
  {
    hide StateAfter, Outputs, Splice;
  }

  lemma NoneSent<S>(c: Rates, step: (S, Frame) -> (S, Frame), st: S, block: seq<Frame>)
    requires Sound(c) && c.xb >= c.yb && |block| == c.xb
    ensures UpState(c, step, st, block, 0) == st && UpSent(c, step, st, block, [], 0) == []
  {
  }

  lemma OneMoreSent<S>(c: Rates, step: (S, Frame) -> (S, Frame), st: S, block: seq<Frame>, stale: seq<seq<Frame>>, b: seq<Frame>, j: nat)
    requires Sound(c) && c.xb >= c.yb && |block| == c.xb && j < Sends(c) && j == |stale| && Sized(stale, c.yb) && |b| == c.yb
    ensures j * c.yb + c.yb <= c.xb && Fits(c.yb, c.s, c.w, Firings(c))
    ensures var v := block[j * c.yb..j * c.yb + c.yb]; var st' := UpState(c, step, st, block, j);
            && UpState(c, step, st, block, j + 1) == Fired(step, st', v, c.s, c.w, Firings(c))
            && UpSent(c, step, st, block, stale + [b], j + 1)
            == UpSent(c, step, st, block, stale, j) + [Woven(step, st', v, b, 0, c.s, c.w, Firings(c))]
  {
    hide Woven, Fired, Fits, Sends, Firings;
    PartFits(c, j);
    RoomFor(c, 0);
    UpSentPrefix(c, step, st, block, stale, stale + [b], j);
  }

  lemma {:induction false} UpSentPrefix<S>(c: Rates, step: (S, Frame) -> (S, Frame), st: S, block: seq<Frame>, stale: seq<seq<Frame>>, more: seq<seq<Frame>>, j: nat)
    requires Sound(c) && c.xb >= c.yb && |block| == c.xb && j <= Sends(c) && j <= |stale| && Sized(stale, c.yb)
    requires j <= |more| && Sized(more, c.yb) && more[..j] == stale[..j]
    ensures UpSent(c, step, st, block, stale, j) == UpSent(c, step, st, block, more, j)
    decreases j
  {
    hide Woven, Fired, Fits, Sends, Firings;
    if j > 0 {
      assert more[..j - 1] == more[..j][..j - 1] == stale[..j][..j - 1] == stale[..j - 1];
      UpSentPrefix(c, step, st, block, stale, more, j - 1);
      assert more[j - 1] == more[..j][j - 1] == stale[..j][j - 1] == stale[j - 1];
    }
  }

  lemma {:induction false} DownPrefix<S>(c: Rates, step: (S, Frame) -> (S, Frame), st: S, blocks: seq<seq<Frame>>, fewer: seq<seq<Frame>>, b: seq<Frame>, j: nat)
    requires Sound(c) && c.xb < c.yb && Sized(blocks, c.xb) && fewer <= blocks && j <= |fewer| && j <= Receives(c) && |b| == c.yb
    ensures Sized(fewer, c.xb)
    ensures DownState(c, step, st, blocks, j) == DownState(c, step, st, fewer, j)
    ensures DownBuffer(c, step, st, blocks, b, j) == DownBuffer(c, step, st, fewer, b, j)
    decreases j
  {
    hide Woven, Fired, Fits, Receives, Firings;
    if j > 0 {
      PartFits(c, j - 1);
      DownPrefix(c, step, st, blocks, fewer, b, j - 1);
    }
  }

  /**
   * A node fed with blocks hands over, at exact rates, the effect's frame-by-frame output on all the input of whole
   * runs.  The block sizes show only in where the stream is cut and in how many blocks wait for the next run.
   */
  method Play<S(!new)>(effect: (S, Frame) -> (S, Frame), st: S, c: Rates, blocks: seq<seq<Frame>>)
    returns (sent: seq<seq<Frame>>, used: nat)
    requires Sound(c) && Sized(blocks, c.xb)
    ensures used <= |blocks| && (used == |blocks| || (|blocks| - used) * c.xb < c.yb)
    ensures Sized(sent, c.yb) && (Exact(c) ==> Flat(sent) == Outputs(effect, st, Flat(blocks[..used])))
  {
    hide StateAfter, Outputs, Flat, Node.Tuned, Exact, Fits;
    var node := new Node(effect, st, c.xb, c.yb, c.s, c.w);
    node.inbox := blocks;
    used := node.ProcessAll();
    node.Leftover(|blocks| - used);
    assert [] + Flat(blocks[..used]) == Flat(blocks[..used]);
    sent := node.outbox;
  }

  // ---------------------------------------------------------------- effects and chains

  /** Delay.Process as a step on the past outputs. */
  function EchoStep(g: seq<short>, length: nat): (seq<Frame>, Frame) -> (seq<Frame>, Frame)
    requires |g| == 2 && length >= 2
  {
    (past, x) => var y := Mix2(g, Lag(past, length - 1), x); (past + [y], y)
  }

  predicate Echoes(g: seq<short>, length: nat, xs: seq<Frame>, ys: seq<Frame>)
    requires |g| == 2 && length >= 2
  {
    |ys| == |xs| && forall n :: 0 <= n < |xs| ==> ys[n] == Mix2(g, Tap(ys, n, length - 1), xs[n])
  }

  /** The delay's difference equation has one solution: what the node hands over, whatever its block sizes. */
  lemma {:induction false} EchoDetermined(g: seq<short>, length: nat, xs: seq<Frame>, ys: seq<Frame>)
    requires |g| == 2 && length >= 2 && Echoes(g, length, xs, ys)
    ensures StateAfter(EchoStep(g, length), [], xs) == ys == Outputs(EchoStep(g, length), [], xs)
    decreases |xs|
  {
    hide Mix2;
    if xs != [] {
      var n := |xs| - 1;
      var xs', ys' := xs[..n], ys[..n];
      forall i | 0 <= i < n ensures ys'[i] == Mix2(g, Tap(ys', i, length - 1), xs'[i]) {
        assert ys[i] == Mix2(g, Tap(ys, i, length - 1), xs[i]);
        assert Tap(ys', i, length - 1) == Tap(ys, i, length - 1);
      }
      EchoDetermined(g, length, xs', ys');
      assert Lag(ys', length - 1) == Tap(ys, n, length - 1);
      assert ys == ys' + [ys[n]];
    }
  }

  /** Two effects in a row as one. */
  function Both<S, T>(f: (S, Frame) -> (S, Frame), h: (T, Frame) -> (T, Frame)): ((S, T), Frame) -> ((S, T), Frame) {
    (st: (S, T), x: Frame) => var a := f(st.0, x); var b := h(st.1, a.1); ((a.0, b.0), b.1)
  }

  /** A chain of nodes is a node of the combined effect. */
  lemma {:induction false} ChainIsOneEffect<S, T>(f: (S, Frame) -> (S, Frame), h: (T, Frame) -> (T, Frame), s: S, t: T, xs: seq<Frame>)
    ensures Outputs(h, t, Outputs(f, s, xs)) == Outputs(Both(f, h), (s, t), xs)
    ensures StateAfter(Both(f, h), (s, t), xs) == (StateAfter(f, s, xs), StateAfter(h, t, Outputs(f, s, xs)))
    decreases |xs|
  {
    if xs != [] {
      var xs' := xs[..|xs| - 1];
      ChainIsOneEffect(f, h, s, t, xs');
      assert Outputs(f, s, xs)[..|xs| - 1] == Outputs(f, s, xs');
    }
  }

  /** A delay node fired every second frame sends its odd frames as the write buffer held them. */
  lemma DelaySkipsFrames(g: seq<short>, length: nat, past: seq<Frame>, block: seq<Frame>, stale: seq<Frame>)
    requires |g| == 2 && length >= 2 && |block| == |stale| >= 2
    ensures var c := Rates(|block|, |block|, 2, 1);
            RunOf(c, [block], [stale]) && RunSent(c, EchoStep(g, length), past, [block], [stale])[0][1] == stale[1]
  {
    hide RunSent, Woven, Fired;
    var c := Rates(|block|, |block|, 2, 1);
    MissedIsStale(c, EchoStep(g, length), past, [block], [stale], 1);
  }
}
