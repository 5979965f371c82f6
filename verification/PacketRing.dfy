/** The variable-length packet ring that one CPU fills and the other empties (arm7/ipc.c, the
    enqueue functions of the ARM7, arm9/wifi_arm9.c), as a state machine over single memory accesses. */
module PacketRing {
  import opened ByteNumbers

  type Packet = seq<Octet>

  const SIZE_WRAP := 0xFFFF_FFFF
  const RXBUFFER_SIZE := 1024 * 12
  const TXBUFFER_SIZE := 1024 * 24

  // ----- 32-bit arithmetic and little-endian words in the buffer

  function Word(x: nat): nat {
    x % 0x1_0000_0000
  }

  /** round_up_32, on 32-bit words. */
  function RoundUp32(x: nat): nat {
    Word(x + 3) / 4 * 4
  }

  function ReadU32(mem: seq<Octet>, i: nat): nat
    requires i + 4 <= |mem|
  {
    var (a: nat, b: nat, c: nat, d: nat) := (mem[i], mem[i + 1], mem[i + 2], mem[i + 3]);
    a + 0x100 * b + 0x1_0000 * c + 0x100_0000 * d
  }

  function WriteU32(mem: seq<Octet>, i: nat, v: nat): (m: seq<Octet>)
    requires i + 4 <= |mem| && v < 0x1_0000_0000
    ensures |m| == |mem|
  {
    mem[i := LowOctet(v)][i + 1 := LowOctet(v / 0x100)][i + 2 := LowOctet(v / 0x1_0000)][i + 3 := LowOctet(v / 0x100_0000)]
  }

  function LowOctet(v: nat): Octet {
    v % 0x100
  }

  lemma ReadBack(mem: seq<Octet>, i: nat, v: nat)
    requires i + 4 <= |mem| && v < 0x1_0000_0000
    ensures ReadU32(WriteU32(mem, i, v), i) == v
    ensures Agree(mem, WriteU32(mem, i, v), 0, i)
    ensures Agree(mem, WriteU32(mem, i, v), i + 4, |mem|)
  {
    assert v / 0x100 / 0x100 == v / 0x1_0000 && v / 0x1_0000 / 0x100 == v / 0x100_0000;
  }

  /** Two buffers hold the same octets from lo up to hi. */
  ghost predicate Agree(m: seq<Octet>, m': seq<Octet>, lo: nat, hi: nat) {
    |m| == |m'| && forall k | lo <= k < hi && k < |m| :: m[k] == m'[k]
  }

  // ----- the allocator

  datatype Grant = Refused | AtWrite | AtStart

  /** What the enqueue functions ask for: a size word, the padded packet, and the next size word. */
  function TotalSize(size: nat): nat {
    Word(4 + RoundUp32(size) + 4)
  }

  /** The decision of Wifi_RxBufferAllocBuffer and Wifi_TxBufferAllocBuffer for a buffer of n octets. */
  function Alloc(n: nat, write: nat, read: nat, total: nat): Grant {
    if read <= write then
      if Word(write + total) >= n then
        if total >= read then Refused else AtStart
      else AtWrite
    else
      if Word(write + total) >= read then Refused else AtWrite
  }

  // ----- the state machine

  /** Where the producer is in Wifi_RxArm9QueueAdd. */
  datatype Producer =
    | Ready
    | WrapStop(w: nat, packet: Packet)
    | WrapMark(w: nat, packet: Packet)
    | Copy(at: nat, packet: Packet, k: nat)
    | Stop(at: nat, packet: Packet)
    | Publish(at: nat, packet: Packet)
    | Commit(at: nat, packet: Packet)

  /** Where the consumer is in Wifi_NTR_Update. */
  datatype Consumer =
    | Asleep
    | Scan(i: nat, cnt: nat)
    | ScanStart(cnt: nat)
    | Deliver(p: nat, size: nat, taken: Packet, cnt: nat)

  /** The shared memory, both CPUs, and what has been committed and delivered so far. */
  datatype State = State(mem: seq<Octet>, write: nat, read: nat, producer: Producer, consumer: Consumer,
                         fault: bool, sent: seq<Packet>, received: seq<Packet>)

  /** A step is of the producer, which starts on the given packet when it is ready, or of the consumer. */
  datatype Action = Produce(packet: Packet) | Consume

  function Next(s: State, a: Action): State {
    match a
    case Produce(packet) => ProducerStep(s, packet)
    case Consume => ConsumerStep(s)
  }

  /** A failed assertion, or an access outside the buffer. */
  function Fault(s: State): State {
    s.(fault := true)
  }

  function Begin(s: State, packet: Packet): State {
    if s.read % 4 != 0 || s.write % 4 != 0 then Fault(s)
    else match Alloc(|s.mem|, s.write, s.read, TotalSize(|packet|))
      case Refused => s
      case AtWrite => s.(producer := Copy(s.write, packet, 0))
      case AtStart => s.(producer := WrapStop(s.write, packet))
  }

  /** The index of the stop word after a packet. */
  function StopIndex(at: nat, packet: Packet): nat {
    RoundUp32(Word(at + 4 + |packet|))
  }

  /** One access of the producer. */
  function ProducerStep(s: State, packet: Packet): State {
    match s.producer
    case Ready => Begin(s, packet)
    case WrapStop(w, p) =>
      if |s.mem| < 4 then Fault(s) else
      s.(mem := WriteU32(s.mem, 0, 0), producer := WrapMark(w, p))
    case WrapMark(w, p) =>
      if w + 4 > |s.mem| then Fault(s) else
      s.(mem := WriteU32(s.mem, w, SIZE_WRAP), producer := Copy(0, p, 0))
    case Copy(at, p, k) =>
      if k >= |p| then s.(producer := Stop(at, p))
      else if at + 4 + k >= |s.mem| then Fault(s)
      else s.(mem := s.mem[at + 4 + k := p[k]], producer := Copy(at, p, k + 1))
    case Stop(at, p) =>
      if StopIndex(at, p) + 4 > |s.mem| then Fault(s) else
      s.(mem := WriteU32(s.mem, StopIndex(at, p), 0), producer := Publish(at, p))
    case Publish(at, p) =>
      s.(write := StopIndex(at, p), producer := Commit(at, p))
    case Commit(at, p) =>
      if at + 4 > |s.mem| then Fault(s) else
      s.(mem := WriteU32(s.mem, at, Word(|p|)), producer := Ready, sent := s.sent + [p])
  }

  /** One access of the consumer. */
  function ConsumerStep(s: State): State {
    match s.consumer
    case Asleep =>
      if s.read % 4 != 0 then Fault(s) else s.(consumer := Scan(s.read, 0))
    case Scan(i, cnt) =>
      if i + 4 > |s.mem| then Fault(s) else
      var size := ReadU32(s.mem, i);
      if size == 0 then s.(consumer := Asleep)
      else if size == SIZE_WRAP then s.(consumer := ScanStart(cnt))
      else s.(consumer := Deliver(i + 4, size, [], cnt))
    case ScanStart(cnt) =>
      if 4 > |s.mem| then Fault(s) else
      var size := ReadU32(s.mem, 0);
      if size == 0 then s.(consumer := Asleep)
      else s.(consumer := Deliver(4, size, [], cnt))
    case Deliver(p, size, taken, cnt) =>
      if |taken| < size then
        if p + |taken| >= |s.mem| then Fault(s)
        else s.(consumer := Deliver(p, size, taken + [s.mem[p + |taken|]], cnt))
      else
        var i := Word(p + RoundUp32(size));
        if i + 4 > |s.mem| then Fault(s)
        else s.(read := i, received := s.received + [taken],
                consumer := if cnt > 20 then Asleep else Scan(i, cnt + 1))
  }

  /** A run: any interleaving of the steps of the two CPUs. */
  function Run(s: State, actions: seq<Action>): State {
    if actions == [] then s else Next(Run(s, actions[..|actions| - 1]), actions[|actions| - 1])
  }

  ghost predicate Initial(s: State) {
    && ValidSize(|s.mem|) && s.write == s.read == 0 && ReadU32(s.mem, 0) == 0
    && s.producer == Ready && s.consumer == Asleep && !s.fault && s.sent == s.received == []
  }

  ghost predicate ValidSize(n: nat) {
    n % 4 == 0 && 8 <= n < 0x8000_0000
  }

  // ----- what the buffer means

  /** The padded length of a packet. */
  function Up4(x: nat): nat {
    (x + 3) / 4 * 4
  }

  /** The index after a packet whose size word is at i. */
  function SlotEnd(i: nat, packet: Packet): nat {
    i + 4 + Up4(|packet|)
  }

  /** From i up to j the buffer holds exactly the packets q, each behind its size word. */
  ghost predicate Segment(mem: seq<Octet>, i: nat, j: nat, q: seq<Packet>)
    decreases |q|
  {
    if q == [] then i == j
    else
      && SlotEnd(i, q[0]) <= j <= |mem|
      && ReadU32(mem, i) == |q[0]|
      && mem[i + 4..i + 4 + |q[0]|] == q[0]
      && Segment(mem, SlotEnd(i, q[0]), j, q[1..])
  }

  datatype Wrap = NoWrap | WrapAt(w: nat)

  /** The packets still in the buffer: those from the read index on, then, after a wrap marker, those
      from the start of the buffer. They are followed by the stop word at end. */
  datatype View = View(end: nat, wrap: Wrap, near: seq<Packet>, far: seq<Packet>)

  ghost predicate Layout(mem: seq<Octet>, read: nat, v: View) {
    && ValidSize(|mem|) && read % 4 == 0 && v.end % 4 == 0 && v.end + 4 <= |mem|
    && ReadU32(mem, v.end) == 0
    && match v.wrap
       case NoWrap => read <= v.end && Segment(mem, read, v.end, v.near) && v.far == []
       case WrapAt(w) =>
         && v.end + 4 <= read <= w && w + 4 <= |mem| && w % 4 == 0
         && Segment(mem, read, w, v.near) && ReadU32(mem, w) == SIZE_WRAP && Segment(mem, 0, v.end, v.far)
  }

  /** Nothing that the layout reads has changed. */
  ghost predicate SameLayout(m: seq<Octet>, m': seq<Octet>, read: nat, v: View) {
    match v.wrap
    case NoWrap => Agree(m, m', read, v.end + 4)
    case WrapAt(w) => Agree(m, m', 0, v.end + 4) && Agree(m, m', read, w + 4)
  }

  /** The size of the packet is so far from 2^32 that no sum of the allocator wraps around. */
  ghost predicate Sendable(n: nat, packet: Packet) {
    n + 8 + Up4(|packet|) < 0x1_0000_0000
  }

  /** The granted region, with the stop word after it, lies in the free part of the buffer. */
  ghost predicate Room(s: State, v: View, at: nat, packet: Packet) {
    && at == v.end && SlotEnd(at, packet) + 4 <= |s.mem| && Sendable(|s.mem|, packet)
    && (v.wrap.WrapAt? ==> SlotEnd(at, packet) + 4 <= s.read)
  }

  ghost predicate ProducerOk(s: State, v: View) {
    match s.producer
    case Ready => s.write == v.end
    case WrapStop(w, p) => WrapRoom(s, v, w, p)
    case WrapMark(w, p) => WrapRoom(s, v, w, p) && 4 <= |s.mem| && ReadU32(s.mem, 0) == 0
    case Copy(at, p, k) => Room(s, v, at, p) && k <= |p| && s.mem[at + 4..at + 4 + k] == p[..k]
    case Stop(at, p) => Filled(s, v, at, p)
    case Publish(at, p) => Filled(s, v, at, p) && ReadU32(s.mem, SlotEnd(at, p)) == 0
    case Commit(at, p) => Filled(s, v, at, p) && ReadU32(s.mem, SlotEnd(at, p)) == 0 && s.write == SlotEnd(at, p)
  }

  ghost predicate WrapRoom(s: State, v: View, w: nat, packet: Packet) {
    v.wrap.NoWrap? && w == v.end && SlotEnd(0, packet) + 4 <= s.read && Sendable(|s.mem|, packet)
  }

  ghost predicate Filled(s: State, v: View, at: nat, packet: Packet) {
    Room(s, v, at, packet) && s.mem[at + 4..at + 4 + |packet|] == packet
  }

  ghost predicate ConsumerOk(s: State, v: View) {
    match s.consumer
    case Asleep => true
    case Scan(i, cnt) => i == s.read
    case ScanStart(cnt) => v.wrap == WrapAt(s.read)
    case Deliver(p, size, taken, cnt) =>
      && |taken| <= size && size > 0
      && if v.near != [] then p == s.read + 4 && size == |v.near[0]| && taken == v.near[0][..|taken|]
         else v.wrap == WrapAt(s.read) && v.far != [] && p == 4 && size == |v.far[0]| && taken == v.far[0][..|taken|]
  }

  ghost predicate Inv(s: State, v: View) {
    && !s.fault && Layout(s.mem, s.read, v) && ProducerOk(s, v) && ConsumerOk(s, v)
    && s.sent == s.received + v.near + v.far
  }

  // ----- frames

  lemma {:induction false} SegmentFrame(m: seq<Octet>, m': seq<Octet>, i: nat, j: nat, q: seq<Packet>)
    requires Segment(m, i, j, q) && j <= |m| && Agree(m, m', i, j)
    ensures Segment(m', i, j, q)
    decreases |q|
  {
    if q != [] {
      SegmentFrame(m, m', SlotEnd(i, q[0]), j, q[1..]);
      assert m'[i + 4..i + 4 + |q[0]|] == m[i + 4..i + 4 + |q[0]|];
    }
  }

  lemma LayoutFrame(m: seq<Octet>, m': seq<Octet>, read: nat, v: View)
    requires Layout(m, read, v) && SameLayout(m, m', read, v)
    ensures Layout(m', read, v)
  {
    hide Up4, RoundUp32, Word, TotalSize, StopIndex, WriteU32, Segment;
    match v.wrap
    case NoWrap => SegmentFrame(m, m', read, v.end, v.near);
    case WrapAt(w) =>
      SegmentFrame(m, m', read, w, v.near);
      SegmentFrame(m, m', 0, v.end, v.far);
  }

  lemma {:induction false} SegmentSnoc(mem: seq<Octet>, i: nat, j: nat, q: seq<Packet>, p: Packet)
    requires Segment(mem, i, j, q) && SlotEnd(j, p) <= |mem|
    requires ReadU32(mem, j) == |p| && mem[j + 4..j + 4 + |p|] == p
    ensures Segment(mem, i, SlotEnd(j, p), q + [p])
    decreases |q|
  {
    if q == [] {
      assert (q + [p])[1..] == [];
    } else {
      SegmentSnoc(mem, SlotEnd(i, q[0]), j, q[1..], p);
      assert (q + [p])[1..] == q[1..] + [p];
      SegmentGrows(mem, i, j, q);
    }
  }

  lemma {:induction false} SegmentGrows(mem: seq<Octet>, i: nat, j: nat, q: seq<Packet>)
    requires Segment(mem, i, j, q)
    ensures i <= j && (q != [] ==> i + 4 <= j) && (i % 4 == 0 ==> j % 4 == 0)
    decreases |q|
  {
    hide SlotEnd, ReadU32;
    if q != [] {
      SlotAligned(i, q[0]);
      SegmentGrows(mem, SlotEnd(i, q[0]), j, q[1..]);
    }
  }

  lemma SlotAligned(i: nat, p: Packet)
    ensures i + 4 <= SlotEnd(i, p) && (i % 4 == 0 ==> SlotEnd(i, p) % 4 == 0)
  {
    hide Up4;
    Up4Is(|p|);
  }

  lemma SegmentHead(mem: seq<Octet>, i: nat, j: nat, q: seq<Packet>)
    requires Segment(mem, i, j, q) && j <= |mem|
    ensures if q == [] then i == j else
      && i + 4 + |q[0]| <= SlotEnd(i, q[0]) <= j && ReadU32(mem, i) == |q[0]|
      && mem[i + 4..i + 4 + |q[0]|] == q[0] && Segment(mem, SlotEnd(i, q[0]), j, q[1..])
  {
    if q != [] {
      Up4Is(|q[0]|);
    }
  }

  lemma SegmentEmpty(mem: seq<Octet>, i: nat)
    ensures Segment(mem, i, i, [])
  {}

  // ----- the allocator grants only free space

  lemma Up4Is(x: nat)
    ensures Up4(x) % 4 == 0 && x <= Up4(x) < x + 4 && (x > 0 ==> Up4(x) >= 4)
    ensures x + 3 < 0x1_0000_0000 ==> RoundUp32(x) == Up4(x)
  {}

  lemma WordIs(x: nat)
    requires x < 0x1_0000_0000
    ensures Word(x) == x
  {}

  lemma Up4Shift(at: nat, x: nat)
    requires at % 4 == 0
    ensures Up4(at + 4 + x) == at + 4 + Up4(x)
  {
    assert (at + 4 + x + 3) / 4 == at / 4 + 1 + (x + 3) / 4;
  }

  lemma TotalIs(n: nat, packet: Packet)
    requires Sendable(n, packet)
    ensures TotalSize(|packet|) == 8 + Up4(|packet|)
  {
    hide Up4, RoundUp32, Word;
    Up4Is(|packet|);
    WordIs(4 + Up4(|packet|) + 4);
  }

  lemma StopIndexIs(n: nat, at: nat, packet: Packet)
    requires Sendable(n, packet) && at % 4 == 0 && at < n
    ensures StopIndex(at, packet) == SlotEnd(at, packet)
  {
    hide Up4, RoundUp32, Word;
    Up4Is(|packet|);
    WordIs(at + 4 + |packet|);
    Up4Is(at + 4 + |packet|);
    Up4Shift(at, |packet|);
  }

  lemma BeginOk(s: State, v: View, packet: Packet)
    requires Inv(s, v) && s.producer == Ready && Sendable(|s.mem|, packet)
    ensures Inv(ProducerStep(s, packet), v)
  {
    hide Up4, RoundUp32, Word, TotalSize, Segment, StopIndex;
    TotalIs(|s.mem|, packet);
    WordIs(s.write + TotalSize(|packet|));
    assert ProducerStep(s, packet) == Begin(s, packet);
    assert s.mem[s.write + 4..s.write + 4] == packet[..0];
  }

  // ----- every access of the producer keeps the invariant

  /** The accesses before the commit leave every committed packet and the stop word alone. */
  lemma WriteKeeps(s: State, s': State, v: View)
    requires Inv(s, v) && SameLayout(s.mem, s'.mem, s.read, v)
    requires s' == s.(mem := s'.mem, producer := s'.producer, write := s'.write) && ProducerOk(s', v)
    ensures Inv(s', v)
  {
    hide Up4, RoundUp32, Word, TotalSize, StopIndex, WriteU32, Segment;
    LayoutFrame(s.mem, s'.mem, s.read, v);
  }

  lemma WrapStopOk(s: State, v: View, any: Packet)
    requires Inv(s, v) && s.producer.WrapStop?
    ensures Inv(ProducerStep(s, any), v)
  {
    hide Up4, RoundUp32, Word, TotalSize, StopIndex, WriteU32, Segment;
    Up4Is(|s.producer.packet|);
    ReadBack(s.mem, 0, 0);
    WriteKeeps(s, ProducerStep(s, any), v);
  }

  /** Writing the wrap marker moves the stop word from w to the start of the buffer. */
  lemma WrapMarkOk(s: State, v: View, any: Packet)
    requires Inv(s, v) && s.producer.WrapMark?
    ensures Inv(ProducerStep(s, any), View(0, WrapAt(s.producer.w), v.near, []))
  {
    hide Up4, RoundUp32, Word, TotalSize, StopIndex, WriteU32, Segment;
    Up4Is(|s.producer.packet|);
    SegmentEmpty(ProducerStep(s, any).mem, 0);
    var w := s.producer.w;
    var s' := ProducerStep(s, any);
    ReadBack(s.mem, w, SIZE_WRAP);
    SegmentFrame(s.mem, s'.mem, s.read, w, v.near);
    SegmentGrows(s.mem, s.read, w, v.near);
    assert s'.mem[4..4] == s.producer.packet[..0];
    assert v.near + v.far == v.near + [];
  }

  lemma CopyOk(s: State, v: View, any: Packet)
    requires Inv(s, v) && s.producer.Copy?
    ensures Inv(ProducerStep(s, any), v)
  {
    hide Up4, RoundUp32, Word, TotalSize, StopIndex, WriteU32, ReadU32, Segment, Layout, ConsumerOk;
    var Copy(at, p, k) := s.producer;
    var s' := ProducerStep(s, any);
    Up4Is(|p|);
    if k < |p| {
      CopyByte(s, v);
    } else {
      assert p[..k] == p;
      LayoutKept(s, v);
    }
    WriteKeeps(s, s', v);
  }

  lemma LayoutKept(s: State, v: View)
    requires Inv(s, v)
    ensures SameLayout(s.mem, s.mem, s.read, v)
  {
    hide Layout, ProducerOk, ConsumerOk;
  }

  lemma CopyByte(s: State, v: View)
    requires Inv(s, v) && s.producer.Copy? && s.producer.k < |s.producer.packet|
    ensures var Copy(at, p, k) := s.producer;
      && at + 4 + k < |s.mem|
      && var m := s.mem[at + 4 + k := p[k]];
      m[at + 4..at + 4 + (k + 1)] == p[..k + 1] && SameLayout(s.mem, m, s.read, v)
  {
    hide Up4, RoundUp32, Word, TotalSize, StopIndex, WriteU32, ReadU32, Segment, ConsumerOk;
    var Copy(at, p, k) := s.producer;
    Up4Is(|p|);
    var m := s.mem[at + 4 + k := p[k]];
    assert m[at + 4..at + 4 + (k + 1)] == s.mem[at + 4..at + 4 + k] + [p[k]];
    assert p[..k + 1] == p[..k] + [p[k]];
  }

  lemma StopOk(s: State, v: View, any: Packet)
    requires Inv(s, v) && s.producer.Stop?
    ensures Inv(ProducerStep(s, any), v)
  {
    hide Up4, RoundUp32, Word, TotalSize, StopIndex, WriteU32, Segment;
    var Stop(at, p) := s.producer;
    var s' := ProducerStep(s, any);
    StopIndexIs(|s.mem|, at, p);
    Up4Is(|p|);
    ReadBack(s.mem, SlotEnd(at, p), 0);
    assert s'.mem[at + 4..at + 4 + |p|] == s.mem[at + 4..at + 4 + |p|];
    WriteKeeps(s, s', v);
  }

  lemma PublishOk(s: State, v: View, any: Packet)
    requires Inv(s, v) && s.producer.Publish?
    ensures Inv(ProducerStep(s, any), v)
  {
    hide Up4, RoundUp32, Word, TotalSize, StopIndex, WriteU32, Segment;
    StopIndexIs(|s.mem|, s.producer.at, s.producer.packet);
  }

  /** The view after the commit: the packet joins the queue, the stop word is the one behind it. */
  function CommitView(v: View, at: nat, p: Packet): View {
    if v.wrap.NoWrap? then View(SlotEnd(at, p), v.wrap, v.near + [p], v.far)
    else View(SlotEnd(at, p), v.wrap, v.near, v.far + [p])
  }

  lemma CommitBytes(s: State, v: View, any: Packet)
    requires Inv(s, v) && s.producer.Commit?
    ensures var Commit(at, p) := s.producer; var m' := ProducerStep(s, any).mem;
      && ProducerStep(s, any) == s.(mem := m', producer := Ready, sent := s.sent + [p])
      && Agree(s.mem, m', 0, at) && Agree(s.mem, m', at + 4, |s.mem|)
      && ReadU32(m', at) == |p| && m'[at + 4..at + 4 + |p|] == p && ReadU32(m', SlotEnd(at, p)) == 0
      && |p| <= Up4(|p|) && Up4(|p|) % 4 == 0
  {
    hide Up4, RoundUp32, Word, TotalSize, StopIndex, WriteU32, Segment;
    var Commit(at, p) := s.producer;
    Up4Is(|p|);
    WordIs(|p|);
    ReadBack(s.mem, at, |p|);
    assert ProducerStep(s, any).mem[at + 4..at + 4 + |p|] == s.mem[at + 4..at + 4 + |p|];
  }

  lemma ReadSame(m: seq<Octet>, m': seq<Octet>, i: nat)
    requires i + 4 <= |m| && Agree(m, m', i, i + 4)
    ensures ReadU32(m', i) == ReadU32(m, i)
  {}

  /** The size word at the end of the queue makes the packet behind it part of the queue. */
  ghost predicate Committed(m: seq<Octet>, m': seq<Octet>, at: nat, p: Packet) {
    && SlotEnd(at, p) + 4 <= |m| && SlotEnd(at, p) % 4 == 0 && |p| <= Up4(|p|)
    && Agree(m, m', 0, at) && Agree(m, m', at + 4, |m|)
    && ReadU32(m', at) == |p| && m'[at + 4..at + 4 + |p|] == p && ReadU32(m', SlotEnd(at, p)) == 0
  }

  lemma NearCommitted(m: seq<Octet>, m': seq<Octet>, read: nat, v: View, p: Packet)
    requires Layout(m, read, v) && v.wrap.NoWrap? && Committed(m, m', v.end, p)
    ensures Layout(m', read, CommitView(v, v.end, p))
  {
    hide Up4, Segment, ReadU32;
    SegmentFrame(m, m', read, v.end, v.near);
    SegmentSnoc(m', read, v.end, v.near, p);
    SlotGrows(v.end, p);
  }

  lemma FarCommitted(m: seq<Octet>, m': seq<Octet>, read: nat, v: View, p: Packet)
    requires Layout(m, read, v) && v.wrap.WrapAt? && Committed(m, m', v.end, p) && SlotEnd(v.end, p) + 4 <= read
    ensures Layout(m', read, CommitView(v, v.end, p))
  {
    hide Up4, Segment, ReadU32;
    SlotGrows(v.end, p);
    ReadSame(m, m', v.wrap.w);
    SegmentFrame(m, m', read, v.wrap.w, v.near);
    SegmentFrame(m, m', 0, v.end, v.far);
    SegmentSnoc(m', 0, v.end, v.far, p);
  }

  lemma SlotGrows(i: nat, p: Packet)
    ensures i + 4 <= SlotEnd(i, p)
  {}

  lemma CommitLayout(s: State, v: View, any: Packet)
    requires Inv(s, v) && s.producer.Commit?
    ensures Layout(ProducerStep(s, any).mem, s.read, CommitView(v, s.producer.at, s.producer.packet))
  {
    hide Up4, RoundUp32, Word, TotalSize, StopIndex, WriteU32, Segment, ReadU32, ProducerStep, ConsumerOk, Agree, Layout;
    CommitBytes(s, v, any);
    CommitRoom(s, v);
    if v.wrap.NoWrap? {
      NearCommitted(s.mem, ProducerStep(s, any).mem, s.read, v, s.producer.packet);
    } else {
      FarCommitted(s.mem, ProducerStep(s, any).mem, s.read, v, s.producer.packet);
    }
  }

  lemma CommitRoom(s: State, v: View)
    requires Inv(s, v) && s.producer.Commit?
    ensures var Commit(at, p) := s.producer;
      at == v.end && SlotEnd(at, p) + 4 <= |s.mem| && SlotEnd(at, p) % 4 == 0 && (v.wrap.WrapAt? ==> SlotEnd(at, p) + 4 <= s.read)
  {
    hide RoundUp32, Word, TotalSize, StopIndex, WriteU32, Segment, ReadU32, ConsumerOk;
    SlotAligned(s.producer.at, s.producer.packet);
  }

  lemma CommitOk(s: State, v: View, any: Packet)
    requires Inv(s, v) && s.producer.Commit?
    ensures Inv(ProducerStep(s, any), CommitView(v, s.producer.at, s.producer.packet))
  {
    hide Up4, RoundUp32, Word, TotalSize, StopIndex, WriteU32, ReadU32, Layout, ProducerStep;
    CommitBytes(s, v, any);
    var p := s.producer.packet;
    CommitLayout(s, v, any);
    if v.wrap.NoWrap? {
      assert v.far == [] by { NoWrapNoFar(s, v); }
      assert s.received + v.near + [] + [p] == s.received + (v.near + [p]) + [];
    } else {
      assert s.received + v.near + v.far + [p] == s.received + v.near + (v.far + [p]);
    }
  }

  lemma NoWrapNoFar(s: State, v: View)
    requires Inv(s, v) && v.wrap.NoWrap?
    ensures v.far == []
  {}

  // ----- every access of the consumer keeps the invariant

  lemma WakeOk(s: State, v: View)
    requires Inv(s, v) && s.consumer.Asleep?
    ensures Inv(ConsumerStep(s), v)
  {
    hide Up4, RoundUp32, Word, TotalSize, StopIndex, WriteU32, Segment, ReadU32;
  }

  lemma ScanOk(s: State, v: View)
    requires Inv(s, v) && s.consumer.Scan?
    ensures Inv(ConsumerStep(s), v)
  {
    hide Up4, RoundUp32, Word, TotalSize, StopIndex, WriteU32, Segment, ReadU32;
    SegmentHead(s.mem, s.read, if v.wrap.NoWrap? then v.end else v.wrap.w, v.near);
  }

  lemma ScanStartOk(s: State, v: View)
    requires Inv(s, v) && s.consumer.ScanStart?
    ensures Inv(ConsumerStep(s), v)
  {
    hide Up4, RoundUp32, Word, TotalSize, StopIndex, WriteU32, Segment, ReadU32;
    SegmentHead(s.mem, s.read, s.read, v.near);
    SegmentHead(s.mem, 0, v.end, v.far);
  }

  /** The view after a delivery: the packet leaves the queue; a packet from the start of the buffer
      takes the read index past the wrap marker. */
  function DeliverView(v: View): View
    requires v.near != [] || v.far != []
  {
    if v.near != [] then View(v.end, v.wrap, v.near[1..], v.far) else View(v.end, NoWrap, v.far[1..], [])
  }

  ghost predicate Finishing(c: Consumer) {
    c.Deliver? && |c.taken| >= c.size
  }

  /** Where the consumer finds the head of the queue. */
  lemma HeadAt(s: State, v: View)
    requires Inv(s, v) && (v.near != [] || v.far != [])
    ensures s.read + 4 <= |s.mem| < 0x8000_0000
    ensures v.near != [] ==> v.wrap != WrapAt(s.read)
    ensures if v.near != [] then
              && s.read + 4 + |v.near[0]| <= |s.mem| && ReadU32(s.mem, s.read) == |v.near[0]|
              && s.mem[s.read + 4..s.read + 4 + |v.near[0]|] == v.near[0]
            else
              && v.wrap == WrapAt(s.read) && ReadU32(s.mem, s.read) == SIZE_WRAP
              && 4 + |v.far[0]| <= |s.mem| && ReadU32(s.mem, 0) == |v.far[0]|
              && s.mem[4..4 + |v.far[0]|] == v.far[0]
  {
    hide Up4, Segment, ReadU32, ProducerOk, ConsumerOk;
    if v.wrap.NoWrap? {
      SegmentHead(s.mem, s.read, v.end, v.near);
    } else {
      SegmentHead(s.mem, s.read, v.wrap.w, v.near);
      SegmentHead(s.mem, 0, v.end, v.far);
    }
  }

  lemma TakeOk(s: State, v: View)
    requires Inv(s, v) && s.consumer.Deliver? && !Finishing(s.consumer)
    ensures Inv(ConsumerStep(s), v)
  {
    hide Layout, ReadU32, Up4, RoundUp32, Word, TotalSize, StopIndex, WriteU32, Segment;
    var Deliver(p, size, taken, cnt) := s.consumer;
    HeadAt(s, v);
    var packet := if v.near != [] then v.near[0] else v.far[0];
    assert s.mem[p + |taken|] == s.mem[p..p + size][|taken|] == packet[|taken|];
    assert packet[..|taken| + 1] == packet[..|taken|] + [packet[|taken|]];
  }

  lemma FinishNear(s: State, v: View)
    requires Inv(s, v) && Finishing(s.consumer) && v.near != []
    ensures Inv(ConsumerStep(s), DeliverView(v))
  {
    hide Up4, RoundUp32, Word, TotalSize, StopIndex, WriteU32, Segment, ReadU32, Alloc, ProducerStep;
    var Deliver(p, size, taken, cnt) := s.consumer;
    var end := if v.wrap.NoWrap? then v.end else v.wrap.w;
    Up4Is(size);
    SegmentHead(s.mem, s.read, end, v.near);
    SegmentGrows(s.mem, SlotEnd(s.read, v.near[0]), end, v.near[1..]);
    WordIs(p + Up4(size));
    assert v.near[0][..size] == v.near[0];
    assert s.received + v.near + v.far == s.received + [taken] + v.near[1..] + v.far;
  }

  lemma FinishFar(s: State, v: View)
    requires Inv(s, v) && Finishing(s.consumer) && v.near == []
    ensures Inv(ConsumerStep(s), DeliverView(v))
  {
    hide Up4, RoundUp32, Word, TotalSize, StopIndex, WriteU32, Segment, ReadU32;
    var Deliver(p, size, taken, cnt) := s.consumer;
    Up4Is(size);
    SegmentHead(s.mem, 0, v.end, v.far);
    SegmentGrows(s.mem, SlotEnd(0, v.far[0]), v.end, v.far[1..]);
    WordIs(p + Up4(size));
    assert v.far[0][..size] == v.far[0];
    assert s.received + [] + v.far == s.received + [taken] + v.far[1..] + [];
  }

  // ----- all runs

  /** How each step changes what the buffer means. */
  ghost function NextView(s: State, v: View, a: Action): View
    requires Inv(s, v)
  {
    if a.Consume? then
      if Finishing(s.consumer) then DeliverView(v) else v
    else match s.producer
      case WrapMark(w, p) => View(0, WrapAt(w), v.near, [])
      case Commit(at, p) => CommitView(v, at, p)
      case _ => v
  }

  ghost predicate Allowed(n: nat, a: Action) {
    a.Produce? ==> Sendable(n, a.packet)
  }

  lemma SizeKept(s: State, a: Action)
    ensures |Next(s, a).mem| == |s.mem|
  {
    hide RoundUp32, Word, TotalSize, StopIndex, WriteU32, Alloc;
  }

  lemma StepOk(s: State, v: View, a: Action)
    requires Inv(s, v) && Allowed(|s.mem|, a)
    ensures Inv(Next(s, a), NextView(s, v, a)) && |Next(s, a).mem| == |s.mem|
  {
    hide Inv, ProducerStep, ConsumerStep, CommitView, DeliverView, Sendable;
    SizeKept(s, a);
    match a
    case Consume =>
      if Finishing(s.consumer) {
        if v.near != [] {
          FinishNear(s, v);
        } else {
          FinishFar(s, v);
        }
      } else {
        match s.consumer
        case Asleep => WakeOk(s, v);
        case Scan(_, _) => ScanOk(s, v);
        case ScanStart(_) => ScanStartOk(s, v);
        case Deliver(_, _, _, _) => TakeOk(s, v);
      }
    case Produce(any) =>
      match s.producer
      case Ready => BeginOk(s, v, any);
      case WrapStop(_, _) => WrapStopOk(s, v, any);
      case WrapMark(_, _) => WrapMarkOk(s, v, any);
      case Copy(_, _, _) => CopyOk(s, v, any);
      case Stop(_, _) => StopOk(s, v, any);
      case Publish(_, _) => PublishOk(s, v, any);
      case Commit(_, _) => CommitOk(s, v, any);
  }

  ghost predicate AllAllowed(n: nat, actions: seq<Action>) {
    forall a | a in actions :: Allowed(n, a)
  }

  /** A wrap marker with nothing behind it belongs to a packet that is still being stored. */
  ghost predicate Wrapping(s: State, v: View) {
    v.wrap.WrapAt? && v.far == [] ==> s.producer.Copy? || s.producer.Stop? || s.producer.Publish? || s.producer.Commit?
  }

  lemma StepWrapping(s: State, v: View, a: Action)
    requires Inv(s, v) && Wrapping(s, v)
    ensures Wrapping(Next(s, a), NextView(s, v, a))
  {
    hide RoundUp32, Word, TotalSize, StopIndex, ReadU32, WriteU32, Alloc, Inv;
    match a
    case Consume =>
      ConsumerKeepsProducer(s);
      hide ConsumerStep;
      if Finishing(s.consumer) {
        FinishingFinds(s, v);
      }
    case Produce(any) =>
      ProducerWraps(s, v, any);
  }

  lemma ConsumerKeepsProducer(s: State)
    ensures ConsumerStep(s).producer == s.producer
  {
    hide RoundUp32, Word, ReadU32;
  }

  lemma ProducerWraps(s: State, v: View, any: Packet)
    requires Inv(s, v) && Wrapping(s, v)
    ensures Wrapping(ProducerStep(s, any), NextView(s, v, Produce(any)))
  {
    hide RoundUp32, Word, TotalSize, StopIndex, ReadU32, WriteU32, Alloc, Segment, ConsumerOk, Agree;
  }

  lemma FinishingFinds(s: State, v: View)
    requires Inv(s, v) && Finishing(s.consumer)
    ensures v.near != [] || v.far != []
  {
    hide RoundUp32, Word, TotalSize, StopIndex, ReadU32, WriteU32, Alloc, Layout, ProducerOk, Agree;
  }

  lemma {:induction false} RunOk(s: State, actions: seq<Action>) returns (v: View)
    requires Initial(s) && AllAllowed(|s.mem|, actions)
    ensures Inv(Run(s, actions), v) && Wrapping(Run(s, actions), v) && |Run(s, actions).mem| == |s.mem|
  {
    if actions == [] {
      v := View(0, NoWrap, [], []);
    } else {
      var n := |actions| - 1;
      v := RunOk(s, actions[..n]);
      StepOk(Run(s, actions[..n]), v, actions[n]);
      StepWrapping(Run(s, actions[..n]), v, actions[n]);
      v := NextView(Run(s, actions[..n]), v, actions[n]);
    }
  }

  /** In every interleaving, no assertion fails and no access leaves the buffer; what has been
      received is a prefix of what has been committed, whole and unaltered; and the read index is a
      multiple of four that leaves room for a size word. */
  lemma DeliveredInOrder(s: State, actions: seq<Action>)
    requires Initial(s) && AllAllowed(|s.mem|, actions)
    ensures var t := Run(s, actions);
            !t.fault && t.received <= t.sent && t.read % 4 == 0 && t.read <= |s.mem| - 4
  {
    var v := RunOk(s, actions);
    var t := Run(s, actions);
    assert t.sent[..|t.received|] == t.received;
    match v.wrap
    case NoWrap =>
    case WrapAt(w) =>
  }

  /** A granted region, with the stop word behind it, is on the free side of the read index and
      contains no octet of the packet that the consumer is reading. */
  lemma GrantedRegionIsFree(s: State, actions: seq<Action>)
    requires Initial(s) && AllAllowed(|s.mem|, actions)
    ensures var t := Run(s, actions);
            t.producer.Copy? || t.producer.Stop? ==>
              var (lo, hi) := (t.producer.at, SlotEnd(t.producer.at, t.producer.packet) + 4);
              && (if t.read <= lo then hi <= |t.mem| else hi <= t.read)
              && (t.consumer.Deliver? ==> t.consumer.p + t.consumer.size <= lo || hi <= t.consumer.p)
  {
    hide RoundUp32, Word, TotalSize, StopIndex, ReadU32, WriteU32, Segment, Up4;
    var v := RunOk(s, actions);
    var t := Run(s, actions);
    if v.near != [] {
      SegmentHead(t.mem, t.read, if v.wrap.NoWrap? then v.end else v.wrap.w, v.near);
    } else if v.far != [] {
      SegmentHead(t.mem, 0, v.end, v.far);
    }
  }

  // ----- when packets get through

  /** The first packet that has been committed and not delivered. */
  function Head(s: State): Packet
    requires |s.received| < |s.sent|
  {
    s.sent[|s.received|]
  }

  lemma HeadIs(s: State, v: View)
    requires Inv(s, v)
    ensures |s.received| < |s.sent| <==> v.near != [] || v.far != []
    ensures |s.received| < |s.sent| ==> Head(s) == if v.near != [] then v.near[0] else v.far[0]
  {
    hide Layout, ProducerOk, ConsumerOk;
  }

  /** How many accesses the consumer needs at most until it has delivered the head. */
  function Distance(s: State): nat
    requires |s.received| < |s.sent|
  {
    match s.consumer
    case Asleep => |Head(s)| + 4
    case Scan(_, _) => |Head(s)| + 3
    case ScanStart(_) => |Head(s)| + 2
    case Deliver(_, size, taken, _) => if |taken| < size then size - |taken| + 1 else 1
  }

  lemma NoFault(s: State, v: View)
    requires Inv(s, v)
    ensures !ConsumerStep(s).fault
  {
    hide ConsumerStep, ProducerStep, NextView, Layout, ProducerOk, ConsumerOk;
    StepOk(s, v, Consume);
    assert Next(s, Consume) == ConsumerStep(s);
  }

  lemma ConsumerProgress(s: State, v: View)
    requires Inv(s, v) && |s.received| < |s.sent| && Head(s) != []
    ensures var t := ConsumerStep(s);
            if Distance(s) == 1 then t.received == s.received + [Head(s)]
            else t.received == s.received && t.sent == s.sent && Distance(t) < Distance(s)
  {
    hide RoundUp32, Word, ReadU32, Layout, ProducerOk;
    NoFault(s, v);
    HeadIs(s, v);
    HeadAt(s, v);
    assert Head(s)[..|Head(s)|] == Head(s);
  }

  /** The producer changes neither the head of the queue nor where the consumer is. */
  lemma ProducerKeepsHead(s: State, any: Packet)
    requires |s.received| < |s.sent|
    ensures var t := ProducerStep(s, any);
      t.received == s.received && s.sent <= t.sent && Head(t) == Head(s) && Distance(t) == Distance(s)
  {
    hide RoundUp32, Word, TotalSize, StopIndex, ReadU32, WriteU32, Alloc;
  }

  lemma {:induction false} RunConcat(s: State, a: seq<Action>, b: seq<Action>)
    ensures Run(s, a + b) == Run(Run(s, a), b)
  {
    if b == [] {
      assert a + b == a;
    } else {
      RunConcat(s, a, b[..|b| - 1]);
      assert (a + b)[..|a + b| - 1] == a + b[..|b| - 1];
    }
  }

  lemma RunFirst(s: State, a: Action, rest: seq<Action>)
    ensures Run(s, [a] + rest) == Run(Next(s, a), rest)
  {
    hide ConsumerStep, ProducerStep;
    RunConcat(s, [a], rest);
    assert [a][..0] == [];
    assert Run(s, [a]) == Next(Run(s, []), a);
  }

  /** How many of the accesses are the consumer's. */
  function Turns(actions: seq<Action>): nat {
    if actions == [] then 0 else (if actions[0].Consume? then 1 else 0) + Turns(actions[1..])
  }

  /** What is committed and what is received only grows. */
  lemma StepGrows(s: State, a: Action)
    ensures var t := Next(s, a); s.sent <= t.sent && s.received <= t.received
  {
    hide RoundUp32, Word, TotalSize, StopIndex, ReadU32, WriteU32, Alloc;
  }

  lemma {:induction false} RunGrows(s: State, more: seq<Action>)
    ensures var t := Run(s, more); s.sent <= t.sent && s.received <= t.received
    decreases |more|
  {
    hide ConsumerStep, ProducerStep, Next;
    if more != [] {
      RunGrows(s, more[..|more| - 1]);
      StepGrows(Run(s, more[..|more| - 1]), more[|more| - 1]);
    }
  }

  /** One access of either CPU delivers the head, or comes no further from delivering it; one of the
      consumer comes closer. */
  lemma HeadStep(s: State, v: View, a: Action)
    requires Inv(s, v) && |s.received| < |s.sent| && Head(s) != []
    ensures var t := Next(s, a);
      || (a.Consume? && t.received == s.received + [Head(s)] && s.sent <= t.sent)
      || (t.received == s.received && s.sent <= t.sent && Head(t) == Head(s)
          && Distance(t) + (if a.Consume? then 1 else 0) <= Distance(s))
  {
    hide Inv, ConsumerStep, ProducerStep, Distance;
    match a
    case Consume =>
      ConsumerProgress(s, v);
      StepGrows(s, a);
    case Produce(any) => ProducerKeepsHead(s, any);
  }

  /** Whatever the producer does meanwhile, the head is delivered before the consumer has taken more
      accesses than its distance: after the first j actions. */
  lemma {:induction false} HeadArrives(s: State, v: View, more: seq<Action>) returns (j: nat, v': View)
    requires Inv(s, v) && AllAllowed(|s.mem|, more) && |s.received| < |s.sent| && Head(s) != [] && Turns(more) >= Distance(s)
    ensures j <= |more| && Turns(more[j..]) + Distance(s) >= Turns(more)
    ensures var t := Run(s, more[..j]);
      Inv(t, v') && |t.mem| == |s.mem| && t.received == s.received + [Head(s)] && s.sent <= t.sent
    decreases |more|
  {
    hide Inv, ConsumerStep, ProducerStep, Next, NextView, Distance, Allowed, AllAllowed, Run;
    PositiveDistance(s);
    var a, rest := more[0], more[1..];
    assert more == [a] + rest;
    AllowedParts(|s.mem|, [a], rest);
    AllowedOne(|s.mem|, a);
    StepOk(s, v, a);
    HeadStep(s, v, a);
    var t := Next(s, a);
    if t.received == s.received + [Head(s)] {
      j, v' := 1, NextView(s, v, a);
      RunFirst(s, a, []);
      RunNone(t);
      assert more[..1] == [a] + [] && more[1..] == rest;
    } else {
      j, v' := HeadArrives(t, NextView(s, v, a), rest);
      RunFirst(s, a, rest[..j]);
      assert more[..j + 1] == [a] + rest[..j] && more[j + 1..] == rest[j..];
      j := j + 1;
    }
  }

  lemma RunNone(s: State)
    ensures Run(s, []) == s
  {}

  lemma AllowedOne(n: nat, a: Action)
    requires AllAllowed(n, [a])
    ensures Allowed(n, a)
  {
    assert a in [a];
  }

  lemma PositiveDistance(s: State)
    requires |s.received| < |s.sent|
    ensures Distance(s) > 0
  {}

  /** What the consumer needs at most for these packets. */
  function Needed(q: seq<Packet>): nat {
    if q == [] then 0 else |q[0]| + 4 + Needed(q[1..])
  }

  /** The packets that have been committed and not delivered. */
  function Pending(s: State): seq<Packet>
    requires |s.received| <= |s.sent|
  {
    s.sent[|s.received|..]
  }

  /** Packets at the front of the queue that are not empty all arrive. */
  lemma {:induction false} FrontArrives(s: State, v: View, more: seq<Action>, q: seq<Packet>)
    requires Inv(s, v) && AllAllowed(|s.mem|, more)
    requires s.received + q <= s.sent && [] !in q && Turns(more) >= Needed(q)
    ensures s.received + q <= Run(s, more).received
    decreases |q|
  {
    hide Inv, Next, NextView, Distance, Allowed, AllAllowed, Run, Turns;
    if q == [] {
      RunGrows(s, more);
    } else {
      assert q[0] in q && s.sent[..|s.received| + |q|] == s.received + q;
      assert Head(s) == q[0];
      DistanceBound(s, v);
      var j, v' := HeadArrives(s, v, more);
      var t := Run(s, more[..j]);
      assert more == more[..j] + more[j..];
      AllowedParts(|s.mem|, more[..j], more[j..]);
      assert q == [q[0]] + q[1..];
      assert t.received + q[1..] == s.received + q;
      FrontArrives(t, v', more[j..], q[1..]);
      RunConcat(s, more[..j], more[j..]);
    }
  }

  /** In every run, whatever the producer does, a nonempty packet at the head of the queue has been
      delivered when the consumer has had four accesses more than the packet has octets. */
  lemma HeadIsDelivered(s: State, actions: seq<Action>, more: seq<Action>)
    requires Initial(s) && AllAllowed(|s.mem|, actions + more)
    requires var t := Run(s, actions); |t.received| < |t.sent| && Head(t) != [] && Turns(more) >= |Head(t)| + 4
    ensures var t := Run(s, actions); t.received + [Head(t)] <= Run(s, actions + more).received
  {
    hide Inv, Next, Allowed;
    AllowedParts(|s.mem|, actions, more);
    var v := RunOk(s, actions);
    var t := Run(s, actions);
    ReceivedFirst(t, v);
    FrontArrives(t, v, more, [Head(t)]);
    RunConcat(s, actions, more);
  }

  lemma AllowedParts(n: nat, a: seq<Action>, b: seq<Action>)
    requires AllAllowed(n, a + b)
    ensures AllAllowed(n, a) && AllAllowed(n, b)
  {
    hide Allowed;
    assert forall x | x in a || x in b :: x in a + b;
  }

  lemma ReceivedFirst(s: State, v: View)
    requires Inv(s, v)
    ensures s.received <= s.sent && s.received + Pending(s) == s.sent
  {
    hide Layout, ProducerOk, ConsumerOk;
    assert s.sent[..|s.received|] == s.received;
  }

  lemma DistanceBound(s: State, v: View)
    requires Inv(s, v) && |s.received| < |s.sent|
    ensures Distance(s) <= |Head(s)| + 4
  {
    hide Layout, ProducerOk;
    HeadIs(s, v);
  }

  // ----- what an empty packet does

  /** An empty packet has the size word 0, which is the stop word: once it is at the head of the
      queue, no access of either CPU delivers anything. */
  lemma EmptyHeadStep(s: State, v: View, a: Action)
    requires Inv(s, v) && |s.received| < |s.sent| && Head(s) == []
    ensures var t := Next(s, a); t.received == s.received && s.sent <= t.sent
  {
    hide RoundUp32, Word, TotalSize, StopIndex, ReadU32, WriteU32, Segment, Up4, Alloc;
    HeadIs(s, v);
  }

  /** Nothing gets past an empty packet at place k of all that has been committed. */
  lemma {:induction false} StopsAtEmpty(s: State, v: View, more: seq<Action>, k: nat)
    requires Inv(s, v) && AllAllowed(|s.mem|, more) && |s.received| <= k < |s.sent| && s.sent[k] == []
    ensures |Run(s, more).received| <= k
    decreases |more|
  {
    hide Inv, ConsumerStep, ProducerStep, NextView, Allowed;
    if more != [] {
      var a, rest := more[0], more[1..];
      assert more == [a] + rest;
      assert a in more && forall x | x in rest :: x in more;
      StepOk(s, v, a);
      StepGrows(s, a);
      if |s.received| == k {
        EmptyHeadStep(s, v, a);
      } else {
        OneMore(s, a);
      }
      StopsAtEmpty(Next(s, a), NextView(s, v, a), rest, k);
      RunFirst(s, a, rest);
    }
  }

  lemma OneMore(s: State, a: Action)
    ensures |Next(s, a).received| <= |s.received| + 1
  {
    hide RoundUp32, Word, TotalSize, StopIndex, ReadU32, WriteU32, Alloc;
  }

  /** The packets before the first empty one. */
  function BeforeEmpty(q: seq<Packet>): (f: seq<Packet>)
    ensures f <= q && [] !in f && (|f| < |q| ==> q[|f|] == [])
    ensures [] in q <==> |f| < |q|
  {
    if q == [] || q[0] == [] then [] else
    var f := BeforeEmpty(q[1..]);
    assert [q[0]] + f <= q;
    [q[0]] + f
  }

  /** Of the pending packets, none from the first empty one on is ever delivered. */
  lemma NothingBehind(s: State, v: View, more: seq<Action>, w: View)
    requires Inv(s, v) && AllAllowed(|s.mem|, more) && Inv(Run(s, more), w) && |s.received| <= |s.sent|
    requires s.received + Pending(s) == s.sent && BeforeEmpty(Pending(s)) != Pending(s)
    ensures Run(s, more).received <= s.received + BeforeEmpty(Pending(s))
  {
    hide Inv, Next, Allowed, Run, Turns;
    var f, u := BeforeEmpty(Pending(s)), Run(s, more);
    var k := |s.received| + |f|;
    assert s.sent[k] == Pending(s)[|f|];
    StopsAtEmpty(s, v, more, k);
    RunGrows(s, more);
    ReceivedFirst(u, w);
    assert u.sent[..k] == s.sent[..k] == s.received + f;
    assert u.sent[..|u.received|] == u.received;
  }

  /** From any point of any run on: of the packets that are pending, those before the first empty one are
      delivered in every continuation in which the consumer has accesses enough, and the others in none. */
  lemma ArrivesBeforeEmpty(s: State, actions: seq<Action>, more: seq<Action>)
    requires Initial(s) && AllAllowed(|s.mem|, actions + more)
    ensures var (t, u) := (Run(s, actions), Run(s, actions + more));
      && |t.received| <= |t.sent| && t.received + Pending(t) == t.sent
      && var f := BeforeEmpty(Pending(t));
      && (Turns(more) >= Needed(f) ==> t.received + f <= u.received)
      && (f != Pending(t) ==> u.received <= t.received + f)
  {
    hide Inv, Next, Allowed, Run, Turns, Needed;
    AllowedParts(|s.mem|, actions, more);
    var v := RunOk(s, actions);
    var t := Run(s, actions);
    ReceivedFirst(t, v);
    RunConcat(s, actions, more);
    var f := BeforeEmpty(Pending(t));
    if Turns(more) >= Needed(f) {
      assert t.received + f <= t.received + Pending(t);
      FrontArrives(t, v, more, f);
    }
    if f != Pending(t) {
      var w := RunOk(s, actions + more);
      NothingBehind(t, v, more, w);
    }
  }

  /** Once an empty packet is at the head of the queue, nothing is ever delivered again, whatever both CPUs do. */
  lemma EmptyHeadStalls(s: State, actions: seq<Action>, more: seq<Action>)
    requires Initial(s) && AllAllowed(|s.mem|, actions + more)
    requires var t := Run(s, actions); |t.received| < |t.sent| && Head(t) == []
    ensures var t, u := Run(s, actions), Run(s, actions + more);
            u.received == t.received && |u.received| < |u.sent| && Head(u) == []
  {
    hide Inv, Next, Allowed, Run, Turns, Needed;
    ArrivesBeforeEmpty(s, actions, more);
    assert BeforeEmpty(Pending(Run(s, actions))) == [];
    RunConcat(s, actions, more);
    RunGrows(Run(s, actions), more);
  }

  /** Everything that has been committed can still arrive exactly if no pending packet is empty. */
  lemma AllArriveExactly(s: State, actions: seq<Action>)
    requires Initial(s) && AllAllowed(|s.mem|, actions)
    ensures var t := Run(s, actions);
      && |t.received| <= |t.sent|
      && ((exists more :: AllAllowed(|s.mem|, actions + more) && t.sent <= Run(s, actions + more).received)
          <==> [] !in Pending(t))
  {
    hide Inv, Next, Allowed, AllAllowed, Run;
    ArrivesBeforeEmptyNow(s, actions);
    var t := Run(s, actions);
    if more :| AllAllowed(|s.mem|, actions + more) && t.sent <= Run(s, actions + more).received {
      ArrivesBeforeEmpty(s, actions, more);
    }
    if [] !in Pending(t) {
      var more := Consumes(Needed(BeforeEmpty(Pending(t))));
      ConsumesAllowed(|s.mem|, actions, |more|);
      ArrivesBeforeEmpty(s, actions, more);
      assert t.sent <= Run(s, actions + more).received;
    }
  }

  lemma ArrivesBeforeEmptyNow(s: State, actions: seq<Action>)
    requires Initial(s) && AllAllowed(|s.mem|, actions)
    ensures |Run(s, actions).received| <= |Run(s, actions).sent|
  {
    hide Inv, Next;
    var v := RunOk(s, actions);
    ReceivedFirst(Run(s, actions), v);
  }

  /** n accesses of the consumer in a row. */
  function Consumes(n: nat): (c: seq<Action>)
    ensures |c| == n
  {
    seq(n, _ => Consume)
  }

  lemma ConsumesAllowed(n: nat, actions: seq<Action>, k: nat)
    requires AllAllowed(n, actions)
    ensures AllAllowed(n, actions + Consumes(k)) && Turns(Consumes(k)) == k
  {
    ConsumesTurns(k);
  }

  lemma {:induction false} ConsumesTurns(k: nat)
    ensures Turns(Consumes(k)) == k
  {
    if k > 0 {
      ConsumesTurns(k - 1);
      assert Consumes(k)[1..] == Consumes(k - 1);
    }
  }

  /** The allocator's sums are 32-bit sums: what it grants fits exactly if the true sum of the write
      index and the padded size does not reach 2^32. */
  lemma GrantFits(n: nat, write: nat, read: nat, size: nat)
    requires ValidSize(n) && write % 4 == 0 && read % 4 == 0 && write < n && read < n && size < 0x1_0000_0000
    requires Alloc(n, write, read, TotalSize(size)) != Refused
    ensures var at := if Alloc(n, write, read, TotalSize(size)) == AtStart then 0 else write;
            at + 8 + Up4(size) <= n <==> write + 8 + Up4(size) < 0x1_0000_0000
  {
    hide Up4, RoundUp32, Word;
    Up4Is(size);
    if write + 8 + Up4(size) < 0x1_0000_0000 {
      WordIs(4 + RoundUp32(size) + 4);
      WordIs(write + TotalSize(size));
    }
  }

  /** For example, a size just below 2^32 is granted in either ring when it is empty. */
  lemma HugeSizeIsGranted()
    ensures Alloc(RXBUFFER_SIZE, 0, 0, TotalSize(0xFFFF_FFF8)) == AtWrite
    ensures Alloc(TXBUFFER_SIZE, 0, 0, TotalSize(0xFFFF_FFF8)) == AtWrite
  {}

  // ----- when the allocator must grant

  /** A request is refused exactly if it fits neither behind the write index nor, when the free space goes
      round, at the start: in both places there must be a strictly larger space. */
  lemma RefusedExactly(n: nat, write: nat, read: nat, size: nat)
    requires ValidSize(n) && write < n && read < n && n + 8 + Up4(size) < 0x1_0000_0000
    ensures Alloc(n, write, read, TotalSize(size)) == Refused <==>
      if write < read then write + 8 + Up4(size) >= read
      else write + 8 + Up4(size) >= n && 8 + Up4(size) >= read
    ensures Alloc(n, write, read, TotalSize(size)) == AtStart <==>
      read <= write && write + 8 + Up4(size) >= n && 8 + Up4(size) < read
  {
    hide Up4, RoundUp32, Word;
    Up4Is(size);
    WordIs(4 + RoundUp32(size) + 4);
    WordIs(write + TotalSize(size));
  }

  /** The producer has accepted the packet. */
  predicate Begun(s: State, p: Packet) {
    s.producer == Copy(s.write, p, 0) || s.producer == WrapStop(s.write, p)
  }

  /** In every run: when all that was sent has arrived and the producer is ready, it accepts every packet that
      with its two size words takes less than half of the buffer. */
  lemma IdleRingAccepts(s: State, actions: seq<Action>, p: Packet)
    requires Initial(s) && AllAllowed(|s.mem|, actions)
    requires var t := Run(s, actions); t.producer == Ready && t.received == t.sent && 2 * (8 + Up4(|p|)) < |t.mem|
    ensures Begun(Next(Run(s, actions), Produce(p)), p)
  {
    hide Inv, Next, Allowed, Run;
    var v := RunOk(s, actions);
    var t := Run(s, actions);
    IdleIndices(t, v);
    IdleAccepts(t, p);
  }

  lemma IdleIndices(s: State, v: View)
    requires Inv(s, v) && Wrapping(s, v) && s.producer == Ready && s.received == s.sent
    ensures ValidSize(|s.mem|) && s.write == s.read < |s.mem| && s.read % 4 == 0
  {
    hide RoundUp32, Word, TotalSize, StopIndex, ReadU32, WriteU32, Alloc, Agree, ConsumerOk;
    NothingPending(s, v);
  }

  lemma NothingPending(s: State, v: View)
    requires Inv(s, v) && s.received == s.sent
    ensures v.near == [] && v.far == []
  {
    hide Layout, ProducerOk, ConsumerOk;
    assert |s.sent| == |s.received| + |v.near| + |v.far|;
  }

  lemma IdleAccepts(s: State, p: Packet)
    requires ValidSize(|s.mem|) && s.write == s.read < |s.mem| && s.read % 4 == 0 && s.producer == Ready && 2 * (8 + Up4(|p|)) < |s.mem|
    ensures Begun(Next(s, Produce(p)), p)
  {
    hide Up4, RoundUp32, Word, TotalSize, Alloc;
    RefusedExactly(|s.mem|, s.write, s.read, |p|);
  }

  // ----- how long the consumer stays awake

  /** How many packets the consumer has delivered since it woke. */
  function SinceWaking(s: State): nat {
    match s.consumer
    case Asleep => 0
    case Scan(_, cnt) => cnt
    case ScanStart(cnt) => cnt
    case Deliver(_, _, _, cnt) => cnt
  }

  /** One access counts what it delivers; after the twenty-second packet the consumer goes to sleep, and never
      for having delivered fewer. */
  lemma WakeCounts(s: State, v: View, a: Action)
    requires Inv(s, v) && SinceWaking(s) <= 21
    ensures var t := Next(s, a);
      && SinceWaking(t) <= 21
      && (!t.consumer.Asleep? ==> |t.received| - |s.received| == SinceWaking(t) - SinceWaking(s))
      && (|t.received| > |s.received| ==> |t.received| == |s.received| + 1 && (t.consumer.Asleep? <==> SinceWaking(s) == 21))
  {
    hide RoundUp32, Word, TotalSize, StopIndex, ReadU32, WriteU32, Alloc, Layout, ProducerOk;
    if a.Consume? {
      NoFault(s, v);
    }
  }

  /** In every run: from waking on, for as long as the consumer does not sleep, it has delivered at most
      twenty-one packets, whatever the producer does, and its counter says how many. */
  lemma WakeLimit(s: State, actions: seq<Action>, more: seq<Action>)
    requires Initial(s) && AllAllowed(|s.mem|, actions + more)
    requires var t := Run(s, actions); t.consumer.Scan? && SinceWaking(t) == 0
    requires forall k | 0 <= k <= |more| :: !Run(Run(s, actions), more[..k]).consumer.Asleep?
    ensures var (t, u) := (Run(s, actions), Run(s, actions + more));
      |u.received| == |t.received| + SinceWaking(u) && SinceWaking(u) <= 21
  {
    hide Inv, Next, Allowed, SinceWaking;
    AllowedParts(|s.mem|, actions, more);
    var v := RunOk(s, actions);
    var w := WakeRun(Run(s, actions), v, more);
    RunConcat(s, actions, more);
  }

  lemma {:induction false} WakeRun(s: State, v: View, more: seq<Action>) returns (w: View)
    requires Inv(s, v) && AllAllowed(|s.mem|, more) && s.consumer.Scan? && SinceWaking(s) == 0
    requires forall k | 0 <= k <= |more| :: !Run(s, more[..k]).consumer.Asleep?
    ensures var t := Run(s, more); Inv(t, w) && |t.mem| == |s.mem|
    ensures var t := Run(s, more); |t.received| == |s.received| + SinceWaking(t) && SinceWaking(t) <= 21
    decreases |more|
  {
    hide Inv, Next, NextView, Allowed, SinceWaking;
    if more == [] {
      w := v;
    } else {
      var n := |more| - 1;
      var front := more[..n];
      assert more == front + [more[n]];
      AllowedParts(|s.mem|, front, [more[n]]);
      AllowedOne(|s.mem|, more[n]);
      forall k | 0 <= k <= |front| ensures !Run(s, front[..k]).consumer.Asleep? {
        assert front[..k] == more[..k];
      }
      assert more[..|more|] == more;
      w := WakeRun(s, v, front);
      WakeCounts(Run(s, front), w, more[n]);
      StepOk(Run(s, front), w, more[n]);
      w := NextView(Run(s, front), w, more[n]);
    }
  }

  // ----- the octets of the words in the buffer

  /** The size word is little-endian; the stop word is zero; the wrap marker is all ones. */
  lemma WordOctets(m: seq<Octet>, i: nat, v: nat)
    requires i + 4 <= |m| && v < 0x1_0000_0000
    ensures WriteU32(m, i, v)[i..i + 4] == [v % 0x100, v / 0x100 % 0x100, v / 0x1_0000 % 0x100, v / 0x100_0000]
    ensures WriteU32(m, i, 0)[i..i + 4] == [0, 0, 0, 0] && WriteU32(m, i, SIZE_WRAP)[i..i + 4] == [0xFF, 0xFF, 0xFF, 0xFF]
    ensures forall k | 0 <= k < |m| && !(i <= k < i + 4) :: WriteU32(m, i, v)[k] == m[k]
  {}
}
