/** c/cmp/mandelbrot_par.c: the channel between the master and one slave. A mailbox exists
    twice, once on each side; a DMA transfer copies it one word per step, and the command
    word is the last one that matters. */
module MandelbrotChannel {
  import FixedPoint

  const COLS := 32
  const DATA_WORDS := 8
  const CMD_START := -3
  const CMD_STOP := -2
  const CMD_NULL := -1
  const XSTART := -2 * 0x1_0000
  const XEND := 0x1_0000
  const XSTEP := (XEND - XSTART + COLS - 1) / COLS
  const YSTART := -0x1_0000
  const YEND := 0x1_0000

  function YStep(rows: nat): int
    requires rows > 0
  {
    (YEND - YSTART + rows - 1) / rows
  }

  datatype Packet = Packet(yval: int, xstart: int, xend: int, xstep: int, cmd: int)
  datatype Row = Row(data: seq<int>, cmd: int)

  /** The request for row r, and the picture row that answers it. */
  function Request(rows: nat, r: int): Packet
    requires rows > 0
  {
    Packet(YSTART + r * YStep(rows), XSTART, XEND, XSTEP, r)
  }

  /** Index of the pixel's character in the colour map. */
  function Pixel(x: int, y: int): int {
    FixedPoint.EscapeTime(x, y, 0, 64) % 64
  }

  function PointX(k: int): int { XSTART + k * XSTEP }

  function PointY(rows: nat, r: int): int
    requires rows > 0
  {
    YSTART + r * YStep(rows)
  }

  function Image(rows: nat, r: int): (d: seq<int>)
    requires rows > 0
    ensures |d| == COLS
  {
    seq(COLS, k => Pixel(PointX(k), PointY(rows, r)))
  }

  // ------------------------------------------------------- the requested points

  /** Every point of the picture lies where the iteration is exact if and only if there are at most 327681 rows. */
  lemma PointsOnGridIff(rows: nat)
    requires rows > 0
    ensures rows <= 327681 <==>
            forall r: nat, k: nat :: r < rows && k < COLS ==> FixedPoint.OnGrid(PointX(k)) && FixedPoint.OnGrid(PointY(rows, r))
  {
    hide YStep;
    if rows <= 327681 {
      forall r: nat, k: nat | r < rows && k < COLS ensures FixedPoint.OnGrid(PointX(k)) && FixedPoint.OnGrid(PointY(rows, r)) {
        RowOnGrid(rows, r);
      }
    } else {
      LastRowOff(rows);
      assert FixedPoint.OnGrid(PointX(0)) && !FixedPoint.OnGrid(PointY(rows, rows - 1));
    }
  }

  lemma RowOnGrid(rows: nat, r: nat)
    requires 0 < rows <= 327681 && r < rows
    ensures FixedPoint.OnGrid(PointY(rows, r))
  {
    var d := YStep(rows);
    StepIs(rows, d);
    StepsBelow(r, rows - 1, d);
    if rows > 131072 {
      assert d == 1;
    }
  }

  lemma StepIs(rows: nat, d: int)
    requires rows > 0 && d == YStep(rows)
    ensures d >= 1 && rows * d <= 0x2_0000 + rows - 1 && (rows > 0x2_0000 ==> d == 1)
  {
    var a := 0x2_0000 + rows - 1;
    assert d == a / rows && a == rows * d + a % rows;
    if rows > 0x2_0000 {
      TwoTooMany(rows, d);
    }
  }

  lemma TwoTooMany(rows: nat, d: int)
    requires rows * d <= 0x2_0000 + rows - 1 && rows > 0x2_0000
    ensures d <= 1
  {
    if d >= 2 {
      StepsBelow(2, d, rows);
    }
  }

  lemma StepsBelow(a: nat, b: nat, d: int)
    requires a <= b && d >= 0
    ensures 0 <= a * d <= b * d && (b + 1) * d == b * d + d
  {
    assert (b - a) * d >= 0;
    assert b * d == a * d + (b - a) * d;
  }

  lemma LastRowOff(rows: nat)
    requires rows > 327681
    ensures !FixedPoint.OnGrid(PointY(rows, rows - 1))
  {
    StepIs(rows, YStep(rows));
  }

  /** The grid: 32 columns from -2 to 1, the last one the last below it, and rows from -1 on that reach 1. */
  lemma GridIs(rows: nat, r: nat, k: nat)
    requires rows > 0
    ensures PointX(k) == -131072 + 6144 * k && (PointX(k) < 65536 <==> k < 32)
    ensures PointY(rows, r) == -65536 + r * ((131072 + rows - 1) / rows)
    ensures PointY(rows, rows) >= 65536
  {
    var d := YStep(rows);
    var a := 0x2_0000 + rows - 1;
    assert a == rows * d + a % rows;
  }

  /** A pixel is the number of the first point of the orbit that has escaped, 0 if none of the first 64 has. */
  lemma PixelIs(x: int, y: int, n: nat)
    requires FixedPoint.InsideFor(x, y, n)
    ensures n < 64 && FixedPoint.Escaped(x, y, n) ==> Pixel(x, y) == n
    ensures n == 64 ==> Pixel(x, y) == 0
  {
    hide FixedPoint.Escaped;
    if n <= 64 && (n == 64 || FixedPoint.Escaped(x, y, n)) { FixedPoint.EscapeTimeIsUnique(x, y, 0, n, 64); }
  }

  /** One turn of the pixel loop in 32-bit arithmetic computes the pixel of the picture. */
  method ComputePixel(rows: nat, r: nat, k: nat) returns (v: int)
    requires 0 < rows <= 327681 && r < rows && k < COLS
    ensures v == Image(rows, r)[k]
  {
    hide YStep, FixedPoint.InsideFor, FixedPoint.Escaped;
    RowOnGrid(rows, r);
    var x, y := PointX(k), PointY(rows, r);
    assert FixedPoint.OnGrid(x);
    var iter := FixedPoint.DoIter(x as FixedPoint.int32, y as FixedPoint.int32, 64);
    FixedPoint.EscapeTimeIsUnique(x, y, 0, iter as int, 64);
    v := iter as int % 64;
  }

  function Field(p: Packet, f: nat): int {
    if f == 0 then p.yval else if f == 1 then p.xstart else if f == 2 then p.xend else if f == 3 then p.xstep else p.cmd
  }

  function SetField(p: Packet, f: nat, v: int): Packet {
    if f == 0 then p.(yval := v) else if f == 1 then p.(xstart := v) else if f == 2 then p.(xend := v)
    else if f == 3 then p.(xstep := v) else p.(cmd := v)
  }

  predicate SameUpTo(p: Packet, q: Packet, f: nat) {
    forall g: nat :: g < f && g < 5 ==> Field(p, g) == Field(q, g)
  }

  lemma AllFieldsSame(p: Packet, q: Packet)
    requires SameUpTo(p, q, 5)
    ensures p == q
  {
    assert Field(p, 0) == Field(q, 0) && Field(p, 1) == Field(q, 1) && Field(p, 2) == Field(q, 2);
    assert Field(p, 3) == Field(q, 3) && Field(p, 4) == Field(q, 4);
  }

  lemma OneMoreField(p: Packet, q: Packet, f: nat)
    requires SameUpTo(p, q, f) && f <= 4
    ensures SameUpTo(SetField(p, f, Field(q, f)), q, f + 1)
  {
    forall g: nat | g < f + 1 && g < 5 ensures Field(SetField(p, f, Field(q, f)), g) == Field(q, g) {
    }
  }

  /** One word of a row transfer: four characters. */
  function CopyWord(dst: seq<int>, src: seq<int>, w: nat): (r: seq<int>)
    requires |dst| == |src| == COLS && w < DATA_WORDS
    ensures |r| == COLS
  {
    dst[..4 * w] + src[4 * w..4 * w + 4] + dst[4 * w + 4..]
  }

  lemma CopyWordExtends(dst: seq<int>, src: seq<int>, w: nat)
    requires |dst| == |src| == COLS && w < DATA_WORDS && dst[..4 * w] == src[..4 * w]
    ensures CopyWord(dst, src, w)[..4 * (w + 1)] == src[..4 * (w + 1)]
  {
    var r := CopyWord(dst, src, w);
    forall k | 0 <= k < 4 * (w + 1) ensures r[k] == src[k] {
      if k < 4 * w { assert dst[..4 * w][k] == src[..4 * w][k]; }
    }
  }

  datatype SlavePc =
    | AwaitStart | SetAck | AckDma(w: nat) | AwaitPacket | AwaitNotStop | CheckStop | CopyField(f: nat)
    | ClearCmd | Compute | SetRowCmd | RowDma(w: nat) | Stopped

  /** How far the exchange has come; it never influences a step. */
  datatype Phase =
    | Fresh | Cleared | Starting(w: nat) | Started | Acked | Ready | Sending(w: nat, r: int)
    | Outstanding(r: int) | Answered(r: int) | Emitted(r: int) | Halting(w: nat) | Halted

  /** `toSlave` and `fromSlave` are the master's mailbox, `packet` and `row` the slave's;
      `local`, `idx`, `x` are the slave's variables and `next` the master's row[i].
      `done` counts the rows of this slave that have been written out. */
  datatype Chan = Chan(
    phase: Phase, toSlave: Packet, fromSlave: Row, packet: Packet, row: Row,
    pc: SlavePc, local: Packet, idx: nat, x: int, next: int, done: nat)

  // -------------------------------------------------------------- slave steps

  function RowTransfer(c: Chan, w: nat): Chan
    requires |c.fromSlave.data| == |c.row.data| == COLS
  {
    if w < DATA_WORDS then c.(fromSlave := c.fromSlave.(data := CopyWord(c.fromSlave.data, c.row.data, w)))
    else if w == DATA_WORDS then
      c.(fromSlave := c.fromSlave.(cmd := c.row.cmd), phase := if c.phase.Outstanding? then Answered(c.phase.r) else c.phase)
    else c
  }

  function SlaveStep(c: Chan): Chan
    requires |c.fromSlave.data| == |c.row.data| == COLS
  {
    match c.pc
    case AwaitStart => if c.packet.cmd != CMD_START then c else c.(pc := SetAck)
    case SetAck => c.(row := c.row.(cmd := CMD_START), pc := AckDma(0))
    case AckDma(w) => RowTransfer(c, w).(pc := if w <= DATA_WORDS then AckDma(w + 1) else AwaitPacket)
    case AwaitPacket => c.(pc := if c.packet.cmd <= CMD_NULL then AwaitNotStop else CheckStop)
    case AwaitNotStop => c.(pc := if c.packet.cmd != CMD_STOP then AwaitPacket else CheckStop)
    case CheckStop => c.(pc := if c.packet.cmd == CMD_STOP then Stopped else CopyField(0))
    case CopyField(f) =>
      c.(local := SetField(c.local, f, Field(c.packet, f)), pc := if f < 4 then CopyField(f + 1) else ClearCmd)
    case ClearCmd => c.(packet := c.packet.(cmd := CMD_NULL), idx := 0, x := c.local.xstart, pc := Compute)
    case Compute =>
      if c.x < c.local.xend then
        c.(row := c.row.(data := if c.idx < COLS then c.row.data[c.idx := Pixel(c.x, c.local.yval)] else c.row.data),
           idx := c.idx + 1, x := c.x + c.local.xstep)
      else c.(pc := SetRowCmd)
    case SetRowCmd => c.(row := c.row.(cmd := c.local.cmd), pc := RowDma(0))
    case RowDma(w) => RowTransfer(c, w).(pc := if w <= DATA_WORDS then RowDma(w + 1) else AwaitPacket)
    case Stopped => c
  }

  // ------------------------------------------------------------- master steps

  function ClearResponse(c: Chan): Chan { c.(fromSlave := c.fromSlave.(cmd := CMD_STOP), phase := Cleared) }

  function ArmStart(c: Chan): Chan { c.(toSlave := c.toSlave.(cmd := CMD_START), phase := Starting(0)) }

  /** Word w of a packet transfer; the structure ends with one word of padding. */
  function PacketWord(c: Chan, w: nat): Chan {
    if w > 4 then c
    else
      var p := if c.phase.Starting? then (if w < 4 then Starting(w + 1) else Started)
               else if c.phase.Sending? then (if w < 4 then Sending(w + 1, c.phase.r) else Outstanding(c.phase.r))
               else if c.phase.Halting? then (if w < 4 then Halting(w + 1) else Halted) else c.phase;
      c.(packet := SetField(c.packet, w, Field(c.toSlave, w)), phase := p)
  }

  function SeeAck(c: Chan): Chan { c.(phase := Acked) }

  function ClearToNull(c: Chan): Chan { c.(fromSlave := c.fromSlave.(cmd := CMD_NULL), phase := Ready) }

  function Fill(c: Chan, rows: nat, r: int): Chan
    requires rows > 0
  {
    c.(toSlave := Request(rows, r), next := r, phase := Sending(0, r))
  }

  function EmitRow(c: Chan): Chan { c.(done := c.done + 1, phase := if c.phase.Answered? then Emitted(c.phase.r) else c.phase) }

  function ArmStop(c: Chan): Chan { c.(toSlave := c.toSlave.(cmd := CMD_STOP), phase := Halting(0)) }

  // ------------------------------------------------------------ the invariant

  /** The slave waits for a command and touches no mailbox word that matters. */
  predicate Idle(pc: SlavePc) {
    pc == AckDma(9) || pc == RowDma(9) || pc == AwaitPacket || pc == AwaitNotStop
  }

  predicate NoCommand(cmd: int) { cmd == CMD_START || cmd == CMD_NULL }

  predicate Quiet(c: Chan) {
    Idle(c.pc) && NoCommand(c.packet.cmd) && c.fromSlave.cmd == CMD_NULL
  }

  predicate Acknowledging(c: Chan) {
    c.packet.cmd == CMD_START
    && match c.pc
       case AwaitStart => c.fromSlave.cmd == CMD_STOP
       case SetAck => c.fromSlave.cmd == CMD_STOP
       case AckDma(w) => w <= 9 && c.row.cmd == CMD_START && c.fromSlave.cmd == (if w <= 8 then CMD_STOP else CMD_START)
       case AwaitPacket => c.fromSlave.cmd == CMD_START
       case AwaitNotStop => c.fromSlave.cmd == CMD_START
       case _ => false
  }

  /** The slave is somewhere between receiving the request for row r and answering it. */
  predicate Working(rows: nat, c: Chan, r: int)
    requires rows > 0 && |c.fromSlave.data| == |c.row.data| == COLS
  {
    if Idle(c.pc) then c.packet == Request(rows, r)
    else
      match c.pc
      case CheckStop => c.packet == Request(rows, r)
      case CopyField(f) => f <= 4 && c.packet == Request(rows, r) && SameUpTo(c.local, Request(rows, r), f)
      case ClearCmd => c.packet == c.local == Request(rows, r)
      case Compute =>
        && c.local == Request(rows, r) && c.packet.cmd == CMD_NULL
        && c.idx <= COLS && c.x == XSTART + c.idx * XSTEP && c.row.data[..c.idx] == Image(rows, r)[..c.idx]
      case SetRowCmd => c.local == Request(rows, r) && c.packet.cmd == CMD_NULL && c.row.data == Image(rows, r)
      case RowDma(w) =>
        && w <= DATA_WORDS && c.packet.cmd == CMD_NULL && c.row == Row(Image(rows, r), r)
        && c.fromSlave.data[..4 * w] == Image(rows, r)[..4 * w]
      case _ => false
  }

  predicate PhaseInv(rows: nat, c: Chan)
    requires rows > 0 && |c.fromSlave.data| == |c.row.data| == COLS
  {
    match c.phase
    case Fresh => c.pc == AwaitStart && c.packet.cmd != CMD_START
    case Cleared => c.pc == AwaitStart && c.packet.cmd != CMD_START && c.fromSlave.cmd == CMD_STOP
    case Starting(w) => w <= 4 && c.pc == AwaitStart && c.packet.cmd != CMD_START && c.fromSlave.cmd == CMD_STOP && c.toSlave.cmd == CMD_START
    case Started => Acknowledging(c)
    case Acked => Idle(c.pc) && c.packet.cmd == CMD_START && c.fromSlave.cmd == CMD_START
    case Ready => Quiet(c)
    case Sending(w, r) => w <= 4 && r >= 0 && Quiet(c) && c.toSlave == Request(rows, r) && SameUpTo(c.packet, Request(rows, r), w)
    case Outstanding(r) => r >= 0 && c.fromSlave.cmd == CMD_NULL && Working(rows, c, r)
    case Answered(r) => r >= 0 && Idle(c.pc) && c.packet.cmd == CMD_NULL && c.fromSlave == Row(Image(rows, r), r)
    case Emitted(r) => r >= 0 && Idle(c.pc) && c.packet.cmd == CMD_NULL && c.fromSlave == Row(Image(rows, r), r)
    case Halting(w) => w <= 4 && Quiet(c) && c.toSlave.cmd == CMD_STOP
    case Halted => c.packet.cmd == CMD_STOP && (Idle(c.pc) || c.pc == CheckStop || c.pc == Stopped)
  }

  predicate ChanInv(rows: nat, c: Chan)
    requires rows > 0
  {
    |c.fromSlave.data| == |c.row.data| == COLS && PhaseInv(rows, c)
  }

  lemma ComputeKeepsWorking(rows: nat, c: Chan, r: int)
    requires rows > 0 && |c.fromSlave.data| == |c.row.data| == COLS && c.pc == Compute && Working(rows, c, r)
    ensures Working(rows, SlaveStep(c), r)
  {
    hide Pixel;
    var im := Image(rows, r);
    assert XSTART + COLS * XSTEP == XEND;
    if c.idx < COLS {
      assert c.x < c.local.xend;
      var d := c.row.data[c.idx := Pixel(c.x, c.local.yval)];
      assert d[..c.idx + 1] == im[..c.idx + 1] by {
        forall k | 0 <= k < c.idx + 1 ensures d[k] == im[k] {
          if k < c.idx { assert c.row.data[..c.idx][k] == im[..c.idx][k]; }
        }
      }
    } else {
      assert c.row.data[..COLS] == c.row.data && im[..COLS] == im;
    }
  }

  lemma TransferKeepsWorking(rows: nat, c: Chan, r: int)
    requires rows > 0 && |c.fromSlave.data| == |c.row.data| == COLS && c.pc.RowDma? && c.pc.w < DATA_WORDS && Working(rows, c, r)
    ensures Working(rows, SlaveStep(c), r)
  {
    hide Image, CopyWord;
    CopyWordExtends(c.fromSlave.data, c.row.data, c.pc.w);
  }

  lemma WorkingStep(rows: nat, c: Chan)
    requires rows > 0 && ChanInv(rows, c) && c.phase.Outstanding?
    ensures ChanInv(rows, SlaveStep(c))
  {
    hide Image, CopyWord, Pixel, Request;
    var r := c.phase.r;
    RequestCmd(rows, r);
    match c.pc
    case Compute => ComputeKeepsWorking(rows, c, r);
    case RowDma(w) =>
      if w < DATA_WORDS { TransferKeepsWorking(rows, c, r); }
      else if w == DATA_WORDS { WholeImage(rows, c, r); }
    case CopyField(f) =>
      OneMoreField(c.local, Request(rows, r), f);
      if f == 4 { AllFieldsSame(SetField(c.local, 4, Field(c.packet, 4)), Request(rows, r)); }
    case _ =>
  }

  lemma RequestCmd(rows: nat, r: int)
    requires rows > 0
    ensures Request(rows, r).cmd == r && Request(rows, r).xstart == XSTART
  {
  }

  lemma WholeImage(rows: nat, c: Chan, r: int)
    requires rows > 0 && |c.fromSlave.data| == |c.row.data| == COLS
    requires c.fromSlave.data[..4 * DATA_WORDS] == Image(rows, r)[..4 * DATA_WORDS]
    ensures c.fromSlave.data == Image(rows, r)
  {
    hide Image;
    var a, b := c.fromSlave.data, Image(rows, r);
    assert a[..32] == a && b[..32] == b;
  }

  /** No step of the slave breaks the channel. */
  lemma SlaveStepKeepsInv(rows: nat, c: Chan)
    requires rows > 0 && ChanInv(rows, c)
    ensures ChanInv(rows, SlaveStep(c))
  {
    if c.phase.Outstanding? {
      WorkingStep(rows, c);
    } else {
      QuietStep(rows, c);
    }
  }

  lemma QuietStep(rows: nat, c: Chan)
    requires rows > 0 && ChanInv(rows, c) && !c.phase.Outstanding?
    ensures ChanInv(rows, SlaveStep(c))
  {
    hide Image, CopyWord, Pixel, Request, SameUpTo, Working;
  }

  // ------------------------------------------- master steps keep the channel

  lemma MasterSetUp(rows: nat, c: Chan)
    requires rows > 0 && ChanInv(rows, c)
    ensures c.phase == Fresh ==> ChanInv(rows, ClearResponse(c))
    ensures c.phase == Cleared ==> ChanInv(rows, ArmStart(c))
    ensures c.phase == Started && c.fromSlave.cmd == CMD_START ==> ChanInv(rows, SeeAck(c))
    ensures c.phase == Acked || c.phase.Emitted? ==> ChanInv(rows, ClearToNull(c))
    ensures c.phase == Ready ==> ChanInv(rows, ArmStop(c))
    ensures c.phase.Answered? ==> ChanInv(rows, EmitRow(c))
  {
    hide Image, Request, SameUpTo, Working;
  }

  lemma FillKeepsInv(rows: nat, c: Chan, r: int)
    requires rows > 0 && ChanInv(rows, c) && c.phase == Ready && r >= 0
    ensures ChanInv(rows, Fill(c, rows, r))
  {
    hide Image, Request, Working;
  }

  lemma PacketWordKeepsInv(rows: nat, c: Chan, w: nat)
    requires rows > 0 && ChanInv(rows, c) && w <= 4
    requires c.phase == Starting(w) || (c.phase.Sending? && c.phase.w == w) || c.phase == Halting(w)
    ensures ChanInv(rows, PacketWord(c, w))
  {
    hide Image, Request;
    if c.phase.Sending? {
      var q := Request(rows, c.phase.r);
      OneMoreField(c.packet, q, w);
      if w == 4 { AllFieldsSame(SetField(c.packet, 4, Field(q, 4)), q); }
    }
  }

  /** While the master writes into a slave's packet, the slave only polls the command word,
      and that still holds no command: nothing is overwritten before it was consumed and
      nothing is read half-written. */
  lemma PacketNotInUse(rows: nat, c: Chan)
    requires rows > 0 && ChanInv(rows, c) && (c.phase.Sending? || c.phase.Halting?)
    ensures Idle(c.pc) && NoCommand(c.packet.cmd)
  {
  }

  /** While a slave writes a row into the master's mailbox, the master sees no answer there. */
  lemma RowNotInUse(rows: nat, c: Chan)
    requires rows > 0 && ChanInv(rows, c) && c.pc.RowDma? && c.pc.w <= DATA_WORDS
    ensures c.phase.Outstanding? && c.fromSlave.cmd == CMD_NULL
  {
  }
}
