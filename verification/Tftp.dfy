/** The TFTP server of the boot loader: a client reads or writes the whole program flash,
    in blocks of 512 bytes, over a network that loses, repeats and reorders packets. */
module Tftp {
  import opened Integers

  const BLOCK: nat := 512
  const SPM_PAGESIZE: nat := 256
  const FLASH_SIZE: nat := 0x1_0000

  type Memory = m: seq<byte> | |m| == FLASH_SIZE witness seq(FLASH_SIZE, _ => 0)

  datatype Packet =
    | ReadRequest
    | WriteRequest
    | Data(block: u16, payload: seq<byte>)
    | Ack(acked: u16)
    | Other

  datatype Reply =
    | SendData(number: u16, bytes: seq<byte>)
    | SendAck(received: u16)
    | SendError
    | Silence

  // ---------- what one packet does ----------

  datatype State = State(download: bool, transfered: u16, finished: bool, flash: Memory)

  /** Where the block after the first `k` goes: the sixteen-bit product wraps. */
  function BlockAt(k: u16): (at: nat)
    ensures at + BLOCK <= FLASH_SIZE
  {
    BLOCK * k % FLASH_SIZE
  }

  /** A block is filled up with 0xFF. */
  function Filled(payload: seq<byte>): (b: seq<byte>)
    ensures |b| == BLOCK
    ensures forall i :: 0 <= i < BLOCK ==> b[i] == if i < |payload| then payload[i] else 0xFF
  {
    seq(BLOCK, i requires 0 <= i => if i < |payload| then payload[i] else 0xFF)
  }

  /** `flash` with `bytes` programmed at `at`. */
  function Programmed(flash: Memory, at: nat, bytes: seq<byte>): (m: Memory)
    requires at + |bytes| <= FLASH_SIZE
    ensures forall i :: 0 <= i < at || at + |bytes| <= i < FLASH_SIZE ==> m[i] == flash[i]
    ensures forall i :: at <= i < at + |bytes| ==> m[i] == bytes[i - at]
  {
    flash[..at] + bytes + flash[at + |bytes|..]
  }

  function NextBlock(s: State): (State, Reply) {
    var next := (s.transfered + 1) % 0x1_0000;
    var base := BlockAt(s.transfered);
    if s.finished then (s, Silence)
    else if s.transfered != 0 && base == 0 then (s.(finished := true), SendData(next, []))
    else (s.(transfered := next), SendData(next, s.flash[base..base + BLOCK]))
  }

  /** The answer to a packet, and the state after it. */
  function Step(s: State, p: Packet): (State, Reply) {
    match p
    case ReadRequest => NextBlock(s.(download := true, transfered := 0, finished := false))
    case Ack(n) =>
      if !s.download || n < s.transfered || n > (s.transfered + 1) % 0x1_0000 then (s, SendError)
      else NextBlock(s.(transfered := n))
    case WriteRequest => (s.(download := false, transfered := 0, finished := false), SendAck(0))
    case Data(n, payload) =>
      if s.download || n < s.transfered then (s, SendError)
      else if n == s.transfered then (s, SendAck(n))
      else if n > (s.transfered + 1) % 0x1_0000 then (s, SendError)
      else (State(false, n, s.finished || |payload| < BLOCK, Programmed(s.flash, BlockAt(n - 1), Filled(payload))), SendAck(n))
    case Other => (s, SendError)
  }

  // ---------- an upload ----------

  /** The number of the last block of a file. It is shorter than the others, maybe empty. */
  function Blocks(file: seq<byte>): nat {
    |file| / BLOCK + 1
  }

  function Payload(file: seq<byte>, b: nat): (p: seq<byte>)
    requires 1 <= b <= Blocks(file)
    ensures |p| <= BLOCK && (|p| < BLOCK <==> b == Blocks(file))
  {
    if b == Blocks(file) then file[BLOCK * (b - 1)..] else file[BLOCK * (b - 1)..BLOCK * b]
  }

  /** A packet that a client sends while it uploads `file`. */
  predicate Sends(file: seq<byte>, p: Packet) {
    || p.WriteRequest?
    || (p.Data? && 1 <= p.block <= Blocks(file) && p.payload == Payload(file, p.block))
  }

  /** The byte at `i` of the file, followed by 0xFF for ever. */
  function Extended(file: seq<byte>, i: nat): byte {
    if i < |file| then file[i] else 0xFF
  }

  /** The first `b` blocks are in the flash, as far as they fit. */
  ghost predicate Stored(flash: Memory, file: seq<byte>, b: nat) {
    forall i: nat :: i < BLOCK * b && i < FLASH_SIZE ==> flash[i] == Extended(file, i)
  }

  /** What the server claims to hold is in the flash. */
  ghost predicate Safe(s: State, file: seq<byte>) {
    !s.download && s.transfered <= Blocks(file) && Stored(s.flash, file, s.transfered)
  }

  /** The last block of a file of exactly 64 KiB falls on the first one, and wipes it. */
  predicate Fits(file: seq<byte>) {
    |file| < FLASH_SIZE || forall i :: 0 <= i < BLOCK ==> file[i] == 0xFF
  }

  lemma BlockInPlace(flash: Memory, file: seq<byte>, b: nat, bytes: seq<byte>)
    requires 1 <= b <= 128 && |bytes| == BLOCK && Stored(flash, file, b - 1)
    requires forall i :: 0 <= i < BLOCK ==> bytes[i] == Extended(file, BLOCK * (b - 1) + i)
    ensures Stored(Programmed(flash, BLOCK * (b - 1), bytes), file, b)
  {
  }

  /** A block that is written where the file wants it, or on top of the first one. */
  lemma ProgrammedBlock(flash: Memory, file: seq<byte>, b: nat)
    requires |file| <= FLASH_SIZE && 1 <= b <= Blocks(file) && Stored(flash, file, b - 1)
    ensures Stored(Programmed(flash, BlockAt(b - 1), Filled(Payload(file, b))), file, b) <==>
      b <= 128 || forall i :: 0 <= i < BLOCK ==> file[i] == 0xFF
  {
    hide Programmed;
    var bytes := Filled(Payload(file, b));
    var flash' := Programmed(flash, BlockAt(b - 1), bytes);
    if b <= 128 {
      assert BlockAt(b - 1) == BLOCK * (b - 1);
      BlockInPlace(flash, file, b, bytes);
    } else {
      assert BlockAt(b - 1) == 0 && Payload(file, b) == [];
      assert forall i: nat :: i < BLOCK ==> flash'[i] == bytes[i - 0] == 0xFF;
      assert forall i: nat :: i < BLOCK ==> Extended(file, i) == file[i];
      assert forall i: nat :: BLOCK <= i < FLASH_SIZE ==> flash'[i] == flash[i];
    }
  }

  /** Every packet of the client keeps the flash as claimed, and what is acknowledged is
      stored. */
  lemma StepIsSafe(s: State, file: seq<byte>, p: Packet)
    requires |file| <= FLASH_SIZE && Fits(file)
    requires Sends(file, p) && (p.WriteRequest? || Safe(s, file))
    ensures Safe(Step(s, p).0, file)
    ensures Step(s, p).1.SendAck? ==> Stored(Step(s, p).0.flash, file, Step(s, p).1.received)
  {
    hide Stored, Programmed, Filled, Payload, BlockAt, Fits;
    if p.WriteRequest? {
      NothingStored(s.flash, file);
    } else if p.block == s.transfered + 1 {
      FewBlocks(file);
      ProgrammedBlock(s.flash, file, p.block);
    }
  }

  lemma NothingStored(flash: Memory, file: seq<byte>)
    ensures Stored(flash, file, 0)
  {
  }

  lemma FewBlocks(file: seq<byte>)
    requires |file| <= FLASH_SIZE && Fits(file)
    ensures Blocks(file) <= 128 || forall i :: 0 <= i < BLOCK ==> file[i] == 0xFF
  {
  }

  /** The state after a series of packets, whatever the network made of what was sent. */
  ghost function Run(s: State, packets: seq<Packet>): State {
    if packets == [] then s else Step(Run(s, packets[..|packets| - 1]), packets[|packets| - 1]).0
  }

  /** The answer to the last of them, and the state after it. */
  ghost function Answer(s: State, packets: seq<Packet>): (State, Reply)
    requires packets != []
  {
    Step(Run(s, packets[..|packets| - 1]), packets[|packets| - 1])
  }

  lemma AnswerToNext(s: State, packets: seq<Packet>, p: Packet)
    ensures Answer(s, packets + [p]) == Step(Run(s, packets), p)
    ensures Run(s, packets + [p]) == Answer(s, packets + [p]).0
    ensures packets != [] ==> Run(s, packets) == Answer(s, packets).0
  {
  }

  ghost predicate AllSent(file: seq<byte>, packets: seq<Packet>) {
    forall i :: 0 <= i < |packets| ==> Sends(file, packets[i])
  }

  lemma {:induction false} RunIsSafe(s: State, file: seq<byte>, packets: seq<Packet>)
    requires |file| <= FLASH_SIZE && Fits(file)
    requires packets != [] && packets[0] == WriteRequest && AllSent(file, packets)
    ensures Safe(Run(s, packets), file)
    ensures var (t, reply) := Answer(s, packets);
      reply.SendAck? ==> Stored(t.flash, file, reply.received)
  {
    var n := |packets| - 1;
    if n > 0 {
      RunIsSafe(s, file, packets[..n]);
    }
    StepIsSafe(Run(s, packets[..n]), file, packets[n]);
  }

  /** A transfer without loss: the request, then the first `b` blocks in order. */
  function InOrder(file: seq<byte>, b: nat): (packets: seq<Packet>)
    requires b <= Blocks(file) && b < 0x1_0000
    ensures AllSent(file, packets) && packets != [] && packets[0] == WriteRequest
  {
    if b == 0 then [WriteRequest] else InOrder(file, b - 1) + [Data(b, Payload(file, b))]
  }

  lemma {:induction false} InOrderArrives(s: State, file: seq<byte>, b: nat)
    requires b <= Blocks(file) && b < 0x1_0000
    ensures var t := Run(s, InOrder(file, b)); !t.download && t.transfered == b && (t.finished <==> b == Blocks(file))
    ensures b <= 128 && |file| <= FLASH_SIZE ==> Stored(Run(s, InOrder(file, b)).flash, file, b)
  {
    hide Run, Answer, InOrder, Stored, Programmed, Filled, Payload, BlockAt;
    if b == 0 {
      InOrderBegins(file);
      AnswerToNext(s, [], WriteRequest);
      EmptyRun(s);
      NothingStored(s.flash, file);
    } else {
      InOrderArrives(s, file, b - 1);
      InOrderStep(file, b);
      AnswerToNext(s, InOrder(file, b - 1), Data(b, Payload(file, b)));
      if b <= 128 && |file| <= FLASH_SIZE {
        ProgrammedBlock(Run(s, InOrder(file, b - 1)).flash, file, b);
      }
    }
  }

  lemma InOrderBegins(file: seq<byte>)
    ensures InOrder(file, 0) == [] + [WriteRequest]
  {
  }

  lemma LastBlockWipes(s: State, file: seq<byte>, b: nat)
    requires |file| <= FLASH_SIZE && !Fits(file) && b == Blocks(file)
    ensures !Safe(Run(s, InOrder(file, b)), file)
  {
    hide Run, Answer, InOrder;
    InOrderArrives(s, file, b);
    InOrderArrives(s, file, b - 1);
    InOrderStep(file, b);
    AnswerToNext(s, InOrder(file, b - 1), Data(b, Payload(file, b)));
    ProgrammedBlock(Run(s, InOrder(file, b - 1)).flash, file, b);
  }

  lemma InOrderStep(file: seq<byte>, b: nat)
    requires 1 <= b <= Blocks(file) && b < 0x1_0000
    ensures InOrder(file, b) == InOrder(file, b - 1) + [Data(b, Payload(file, b))]
  {
  }

  /** The upload of a file of up to 64 KiB is safe whatever the network does if and only if
      its last block does not wipe its first one. */
  lemma UploadIsSafe(s: State, file: seq<byte>)
    requires |file| <= FLASH_SIZE
    ensures (forall packets :: packets != [] && packets[0] == WriteRequest && AllSent(file, packets) ==> Safe(Run(s, packets), file))
      <==> Fits(file)
  {
    hide Run, Safe, InOrder, Fits;
    if Fits(file) {
      forall packets | packets != [] && packets[0] == WriteRequest && AllSent(file, packets)
        ensures Safe(Run(s, packets), file)
      {
        RunIsSafe(s, file, packets);
      }
    } else {
      var packets := InOrder(file, Blocks(file));
      LastBlockWipes(s, file, Blocks(file));
      assert packets[0] == WriteRequest && AllSent(file, packets) && !Safe(Run(s, packets), file);
    }
  }

  /** A client that repeats a block until it is acknowledged gets on: the first copy to
      arrive stores the block, every further copy is acknowledged again and changes nothing. */
  lemma RepeatedBlock(s: State, file: seq<byte>, p: Packet)
    requires Safe(s, file) && Sends(file, p) && p.Data? && p.block == s.transfered + 1
    ensures Step(s, p).1 == SendAck(p.block) && Step(s, p).0.transfered == p.block
    ensures Step(Step(s, p).0, p) == (Step(s, p).0, SendAck(p.block))
  {
  }

  /** The packets at `at`, all behind packet `m`, are the first `b` blocks of the file in order. */
  ghost predicate HasBlocks(file: seq<byte>, packets: seq<Packet>, m: nat, at: seq<nat>, b: nat) {
    && b <= |at| && b <= Blocks(file) && b < 0x1_0000
    && forall k :: 0 <= k < b ==> m < at[k] < |packets| && packets[at[k]] == Data(k + 1, Payload(file, k + 1)) && (k > 0 ==> at[k - 1] < at[k])
  }

  /** When the blocks get through in order at some time after the last request, they are taken,
      whatever else arrives before, between and behind them, and however often. */
  lemma {:induction false} BlocksGetThrough(s: State, file: seq<byte>, packets: seq<Packet>, m: nat, at: seq<nat>, b: nat)
    requires m < |packets| && packets[m] == WriteRequest && AllSent(file, packets)
    requires forall i :: m < i < |packets| ==> packets[i].Data?
    requires HasBlocks(file, packets, m, at, b) && Blocks(file) < 0xFFFF
    ensures var t := Run(s, packets); !t.download && b <= t.transfered <= Blocks(file)
    decreases |packets|
  {
    hide Step, Sends, Payload;
    var n := |packets| - 1;
    assert b > 0 ==> m < at[0] < |packets|;
    if n == m {
      RequestBegins(Run(s, packets[..n]));
    } else {
      var c := if b > 0 && at[b - 1] == n then b - 1 else b;
      forall k | 0 <= k < c
        ensures at[k] < n
      {
        BlocksAscend(file, packets, m, at, b, k);
      }
      BlocksGetThrough(s, file, packets[..n], m, at, c);
      BlockTaken(Run(s, packets[..n]), file, packets[n]);
    }
  }

  lemma RequestBegins(s: State)
    ensures Step(s, WriteRequest).0 == s.(download := false, transfered := 0, finished := false)
  {
  }

  /** A data packet leads to its block, or to where the server was already. */
  lemma BlockTaken(s: State, file: seq<byte>, p: Packet)
    requires !s.download && s.transfered <= Blocks(file) < 0xFFFF && p.Data? && Sends(file, p)
    ensures var t := Step(s, p).0;
      !t.download && s.transfered <= t.transfered <= Blocks(file) && (p.block == s.transfered + 1 ==> t.transfered == p.block)
  {
    hide BlockAt, Programmed, Filled, Payload;
  }

  lemma {:induction false} BlocksAscend(file: seq<byte>, packets: seq<Packet>, m: nat, at: seq<nat>, b: nat, k: nat)
    requires HasBlocks(file, packets, m, at, b) && k < b
    ensures at[k] <= at[b - 1] && (k < b - 1 ==> at[k] < at[b - 1])
    decreases b - k
  {
    hide Payload;
    if k < b - 1 {
      BlocksAscend(file, packets, m, at, b, k + 1);
      assert at[k] < at[k + 1];
    }
  }

  /** Once the last block is acknowledged, a file that fits is in the flash. */
  lemma Uploaded(s: State, file: seq<byte>)
    requires Safe(s, file) && s.transfered == Blocks(file) && |file| <= FLASH_SIZE
    ensures s.flash[..|file|] == file
  {
    assert forall i: nat :: i < |file| ==> s.flash[i] == Extended(file, i);
  }

  // ---------- a download ----------

  /** A download without loss: the request, then an acknowledgement of each block. */
  function Acks(k: nat): (packets: seq<Packet>)
    requires k < 0x1_0000
    ensures |packets| == k + 1
  {
    if k == 0 then [ReadRequest] else Acks(k - 1) + [Ack(k)]
  }

  /** The client gets the 128 blocks of the flash in order, and then an empty one. */
  lemma {:induction false} Download(s: State, k: nat)
    requires k <= 128
    ensures var (t, reply) := Answer(s, Acks(k));
      && t == State(true, if k < 128 then k + 1 else k, k == 128, s.flash)
      && reply == SendData(k + 1, if k < 128 then s.flash[BLOCK * k..BLOCK * k + BLOCK] else [])
  {
    hide Run, Answer;
    if k == 0 {
      AnswerToNext(s, [], ReadRequest);
      assert [ReadRequest] == [] + [ReadRequest];
      EmptyRun(s);
    } else {
      Download(s, k - 1);
      AnswerToNext(s, Acks(k - 1), Ack(k));
    }
  }

  lemma EmptyRun(s: State)
    ensures Run(s, []) == s
  {
  }

  /** The server counts a block as transfered when it sends it: if that packet is lost, the
      acknowledgement that the client repeats is refused. */
  lemma RepeatedAckIsRefused(s: State, p: Packet)
    requires Step(s, p).1.SendData? && (p.ReadRequest? || (p.Ack? && p.acked < 0xFFFF))
    ensures var t := Step(s, p).0;
      Step(t, Ack(if p.Ack? then p.acked else 0)) == (t, if t.finished then Silence else SendError)
  {
  }

  predicate AllAcks(packets: seq<Packet>) {
    forall i :: 0 <= i < |packets| ==> packets[i].Ack? && packets[i].acked < 0xFFFF
  }

  /** Acknowledgements only lead on. */
  lemma {:induction false} AcksLeadOn(s: State, acks: seq<Packet>)
    requires s.download && AllAcks(acks)
    ensures var t := Run(s, acks); t.download && t.transfered >= s.transfered && (s.finished ==> t.finished)
  {
    hide BlockAt;
    var n := |acks| - 1;
    if n >= 0 {
      AcksLeadOn(s, acks[..n]);
      assert acks[n].acked < 0xFFFF;
    }
  }

  /** And so the block is never sent again, whatever the client acknowledges after it: only
      blocks behind it are, and none at all if it was the last one. */
  lemma LostBlockIsNotSentAgain(s: State, p: Packet, acks: seq<Packet>)
    requires Step(s, p).1.SendData? && (p.ReadRequest? || (p.Ack? && p.acked < 0xFFFF))
    requires acks != [] && AllAcks(acks)
    ensures var (t, sent) := Step(s, p);
      var reply := Answer(t, acks).1;
      reply.SendData? ==> !t.finished && reply.number > sent.number
  {
    hide Run, BlockAt;
    var n := |acks| - 1;
    assert acks[n].acked < 0xFFFF;
    AcksLeadOn(Step(s, p).0, acks[..n]);
  }

  // ---------- the server ----------

  class Server {
    var download: bool
    var transfered: u16
    var finished: bool
    var flash: Memory

    function Current(): State
      reads this
    {
      State(download, transfered, finished, flash)
    }

    /** `flash_page`: erase and program a page, unless it already holds what it should. */
    method FlashPage(page: nat, buf: seq<byte>)
      requires page + SPM_PAGESIZE <= FLASH_SIZE && |buf| == SPM_PAGESIZE
      modifies this`flash
      ensures flash == Programmed(old(flash), page, buf)
    {
      var i := 0;
      while i < SPM_PAGESIZE && buf[i] == flash[page + i]
        invariant i <= SPM_PAGESIZE && forall k :: 0 <= k < i ==> buf[k] == flash[page + k]
      {
        i := i + 1;
      }
      if i == SPM_PAGESIZE {
        assert flash == Programmed(flash, page, buf);
        return;
      }
      // the erased page is filled through a buffer of little endian words
      var words: seq<byte> := seq(SPM_PAGESIZE, _ => 0xFF);
      i := 0;
      while i < SPM_PAGESIZE
        invariant i <= SPM_PAGESIZE && i % 2 == 0
        invariant |words| == SPM_PAGESIZE && forall k :: 0 <= k < i ==> words[k] == buf[k]
      {
        var w := buf[i] as int + buf[i + 1] as int * 0x100;
        words := words[i := w % 0x100][i + 1 := w / 0x100];
        i := i + 2;
      }
      assert words == buf;
      flash := flash[..page] + words + flash[page + SPM_PAGESIZE..];
    }

    /** Write a data block, page by page. */
    method StoreBlock(base: nat, data: seq<byte>)
      requires base + BLOCK <= FLASH_SIZE && |data| == BLOCK
      modifies this`flash
      ensures flash == Programmed(old(flash), base, data)
    {
      var i := 0;
      while i < BLOCK / SPM_PAGESIZE
        invariant i <= BLOCK / SPM_PAGESIZE
        invariant flash == Programmed(old(flash), base, data[..i * SPM_PAGESIZE])
      {
        ghost var soFar := flash;
        var page := data[i * SPM_PAGESIZE..(i + 1) * SPM_PAGESIZE];
        FlashPage(base + i * SPM_PAGESIZE, page);
        ProgrammedOn(old(flash), base, data[..i * SPM_PAGESIZE], page);
        assert data[..i * SPM_PAGESIZE] + page == data[..(i + 1) * SPM_PAGESIZE];
        i := i + 1;
      }
      assert data[..BLOCK] == data;
    }

    method SendBlock() returns (reply: Reply)
      modifies this`transfered, this`finished
      ensures (Current(), reply) == NextBlock(old(Current()))
    {
      if finished {
        return Silence;
      }
      var base := BlockAt(transfered);
      var next := (transfered + 1) % 0x1_0000;
      if transfered != 0 && base == 0 {
        finished := true;
        return SendData(next, []);
      }
      reply := SendData(next, flash[base..base + BLOCK]);
      transfered := next;
    }

    /** `tftp_handle_packet` */
    method HandlePacket(p: Packet) returns (reply: Reply)
      modifies this
      ensures (Current(), reply) == Step(old(Current()), p)
    {
      hide Programmed, Filled, NextBlock;
      match p {
        case ReadRequest =>
          download, transfered, finished := true, 0, false;
          reply := SendBlock();
        case Ack(n) =>
          if !download || n < transfered || n > (transfered + 1) % 0x1_0000 {
            return SendError;
          }
          transfered := n;
          reply := SendBlock();
        case WriteRequest =>
          download, transfered, finished := false, 0, false;
          reply := SendAck(0);
        case Data(n, payload) =>
          if download || n < transfered {
            return SendError;
          }
          if n == transfered {
            return SendAck(n);
          }
          if n > (transfered + 1) % 0x1_0000 {
            return SendError;
          }
          var data := FillUp(payload);
          StoreBlock(BlockAt(n - 1), data);
          if |payload| < BLOCK {
            finished := true;
          }
          transfered := n;
          reply := SendAck(n);
        case Other =>
          reply := SendError;
      }
    }

    method FillUp(payload: seq<byte>) returns (data: seq<byte>)
      ensures data == Filled(payload)
    {
      data := if |payload| > BLOCK then payload[..BLOCK] else payload;
      while |data| < BLOCK
        invariant |data| <= BLOCK
        invariant forall i :: 0 <= i < |data| ==> data[i] == if i < |payload| then payload[i] else 0xFF
      {
        data := data + [0xFF];
      }
      assert data == Filled(payload);
    }
  }

  lemma ProgrammedOn(flash: Memory, at: nat, first: seq<byte>, second: seq<byte>)
    requires at + |first| + |second| <= FLASH_SIZE
    ensures Programmed(Programmed(flash, at, first), at + |first|, second) == Programmed(flash, at, first + second)
  {
  }
}
