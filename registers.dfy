/**
 * The register file of one virtio-mmio device window and the meaning of a
 * guest write to it (the `switch (offset)` of the write handler), stated as
 * pure functions over the window's words.
 *
 * The standard offsets are those of the virtio MMIO transport (OASIS VIRTIO
 * 1.1, section 4.2.2 "MMIO Device Register Layout"; GUEST_PAGE_SIZE,
 * QUEUE_ALIGN and QUEUE_PFN from the legacy layout of section 4.2.4). The
 * hypervisor-private words (the four host and four driver feature words and
 * GVM_IRQ) sit in the reserved area between the transport registers and the
 * device configuration space at 0x100.
 */
module Registers {
  import opened Machine

  // Transport registers (section 4.2.2 / 4.2.4 of VIRTIO 1.1)
  const MAGIC_VALUE: u64 := 0x000
  const VERSION: u64 := 0x004
  const DEVICE_ID: u64 := 0x008
  const VENDOR_ID: u64 := 0x00c
  const HOST_FEATURES: u64 := 0x010
  const HOST_FEATURES_SEL: u64 := 0x014
  const GUEST_FEATURES: u64 := 0x020
  const GUEST_FEATURES_SEL: u64 := 0x024
  const GUEST_PAGE_SIZE: u64 := 0x028
  const QUEUE_SEL: u64 := 0x030
  const QUEUE_NUM_MAX: u64 := 0x034
  const QUEUE_NUM: u64 := 0x038
  const QUEUE_ALIGN: u64 := 0x03c
  const QUEUE_PFN: u64 := 0x040
  const QUEUE_READY: u64 := 0x044
  const QUEUE_NOTIFY: u64 := 0x050
  const INTERRUPT_STATUS: u64 := 0x060
  const INTERRUPT_ACK: u64 := 0x064
  const STATUS: u64 := 0x070
  const QUEUE_DESC_LOW: u64 := 0x080
  const QUEUE_DESC_HIGH: u64 := 0x084
  const QUEUE_AVAIL_LOW: u64 := 0x090
  const QUEUE_AVAIL_HIGH: u64 := 0x094
  const QUEUE_USED_LOW: u64 := 0x0a0
  const QUEUE_USED_HIGH: u64 := 0x0a4

  // Hypervisor-private words: the host offers its feature bits in
  // HOST_FEATURE0..3, the guest's accepted bits land in DRIVER_FEATURE0..3,
  // and GVM_IRQ tells the guest driver its interrupt line.
  const HOST_FEATURE0: u64 := 0x0c0
  const DRIVER_FEATURE0: u64 := 0x0d0
  const GVM_IRQ: u64 := 0x0e0

  /** VIRTIO_DEVICE_IOMEM_SIZE: the bytes of one device's register window. */
  const WINDOW_SIZE: nat := 0x1000
  const WINDOW_WORDS: nat := WINDOW_SIZE / 4

  /** A byte offset at which `ioread32`/`iowrite32` reach a whole word of the window. */
  predicate InWindow(off: int) {
    0 <= off < WINDOW_SIZE && off % 4 == 0
  }

  /** `ioread32(iomem + off)` */
  function Load(regs: seq<bv32>, off: int): (v: bv32)
    requires |regs| == WINDOW_WORDS && InWindow(off)
  {
    regs[off / 4]
  }

  /** `iowrite32(v, iomem + off)` */
  function Store(regs: seq<bv32>, off: int, v: bv32): (r: seq<bv32>)
    requires |regs| == WINDOW_WORDS && InWindow(off)
    ensures |r| == WINDOW_WORDS
  {
    regs[off / 4 := v]
  }

  /** An event handed to the backend: blocking (`trap_mmio_write`) or not (`trap_mmio_write_nonblock`). */
  datatype Relay = Sync(address: u64, value: bv64) | Async(address: u64, value: bv64)

  /** A store the GUEST_FEATURES case aims at an offset beyond the device's window. */
  datatype Stray = Stray(offset: u64, value: bv32)

  /** What one or more guest writes leave behind: the window's words and the events they emitted. */
  datatype Outcome = Outcome(regs: seq<bv32>, relays: seq<Relay>, strays: seq<Stray>)

  /** The offsets the write handler serves locally, without relaying anything. */
  const SILENT: set<u64> := {
    HOST_FEATURES, HOST_FEATURES_SEL, GUEST_FEATURES_SEL, GUEST_FEATURES,
    GUEST_PAGE_SIZE, QUEUE_SEL, QUEUE_NUM, QUEUE_ALIGN, QUEUE_PFN,
    QUEUE_DESC_LOW, QUEUE_AVAIL_LOW, QUEUE_USED_LOW,
    QUEUE_DESC_HIGH, QUEUE_USED_HIGH, QUEUE_AVAIL_HIGH, INTERRUPT_ACK
  }

  /** The offsets whose written value the handler stores verbatim at that same offset. */
  const VERBATIM: set<u64> := {
    GUEST_FEATURES_SEL, GUEST_PAGE_SIZE, QUEUE_NUM, QUEUE_ALIGN, QUEUE_PFN,
    QUEUE_DESC_LOW, QUEUE_AVAIL_LOW, QUEUE_USED_LOW,
    QUEUE_DESC_HIGH, QUEUE_USED_HIGH, QUEUE_AVAIL_HIGH
  }

  /** The per-queue registers that selecting a queue clears. */
  const QUEUE_CONFIG: set<u64> := {
    QUEUE_READY, QUEUE_NUM, QUEUE_DESC_LOW, QUEUE_DESC_HIGH,
    QUEUE_AVAIL_LOW, QUEUE_AVAIL_HIGH, QUEUE_USED_LOW, QUEUE_USED_HIGH
  }

  /** Every per-queue configuration register reads zero. */
  predicate QueueConfigZero(regs: seq<bv32>)
    requires |regs| == WINDOW_WORDS
  {
    && Load(regs, QUEUE_READY) == 0 && Load(regs, QUEUE_NUM) == 0
    && Load(regs, QUEUE_DESC_LOW) == 0 && Load(regs, QUEUE_DESC_HIGH) == 0
    && Load(regs, QUEUE_AVAIL_LOW) == 0 && Load(regs, QUEUE_AVAIL_HIGH) == 0
    && Load(regs, QUEUE_USED_LOW) == 0 && Load(regs, QUEUE_USED_HIGH) == 0
  }

  /**
   * Every word a guest can change through the write handler, provided its
   * GUEST_FEATURES_SEL stays in 0..3 whenever it writes GUEST_FEATURES.
   */
  const GUEST_WRITABLE: set<int> := {
    HOST_FEATURES, GUEST_FEATURES_SEL, GUEST_PAGE_SIZE, QUEUE_SEL, QUEUE_NUM,
    QUEUE_ALIGN, QUEUE_PFN, QUEUE_READY, QUEUE_DESC_LOW, QUEUE_DESC_HIGH,
    QUEUE_AVAIL_LOW, QUEUE_AVAIL_HIGH, QUEUE_USED_LOW, QUEUE_USED_HIGH,
    STATUS, INTERRUPT_ACK, INTERRUPT_STATUS,
    DRIVER_FEATURE0, DRIVER_FEATURE0 + 4, DRIVER_FEATURE0 + 8, DRIVER_FEATURE0 + 12
  }

  /**
   * The byte offset GUEST_FEATURES writes to for a given selector:
   * `sel * sizeof(uint32_t) + VIRTIO_MMIO_DRIVER_FEATURE0` kept in a
   * `uint32_t`, hence modulo 2^32. Nothing bounds the selector.
   */
  function FeatureTarget(sel: bv32): (t: u64)
    ensures t < TWO32 && t % 4 == 0
    ensures sel as int < 4 ==> t == DRIVER_FEATURE0 + 4 * sel as int
  {
    (4 * sel as int + DRIVER_FEATURE0) % TWO32
  }

  /** Zero the per-queue configuration registers. */
  function ClearQueue(regs: seq<bv32>): (r: seq<bv32>)
    requires |regs| == WINDOW_WORDS
    ensures |r| == WINDOW_WORDS
    ensures QueueConfigZero(r)
    ensures OnlyChanged(regs, r, QUEUE_CONFIG)
  {
    var r1 := Store(regs, QUEUE_READY, 0);
    var r2 := Store(r1, QUEUE_NUM, 0);
    var r3 := Store(r2, QUEUE_DESC_LOW, 0);
    var r4 := Store(r3, QUEUE_DESC_HIGH, 0);
    var r5 := Store(r4, QUEUE_AVAIL_LOW, 0);
    var r6 := Store(r5, QUEUE_AVAIL_HIGH, 0);
    var r7 := Store(r6, QUEUE_USED_LOW, 0);
    Store(r7, QUEUE_USED_HIGH, 0)
  }

  /**
   * The value left in `*write_value` after the handler ran: STATUS replaces
   * it by the status delta, QUEUE_READY by the current queue selector.
   */
  function WriteBack(regs: seq<bv32>, offset: u64, raw: bv64): (w: bv64)
    requires |regs| == WINDOW_WORDS
  {
    if offset == STATUS then Widen(Sub32(Low32(raw), Load(regs, STATUS)))
    else if offset == QUEUE_READY then Widen(Load(regs, QUEUE_SEL))
    else raw
  }

  /**
   * One guest write of `raw` (the `unsigned long` at `write_value`) to
   * `address`, `offset` bytes into the window whose words are `regs`.
   */
  function Write(regs: seq<bv32>, offset: u64, address: u64, raw: bv64): (e: Outcome)
    requires |regs| == WINDOW_WORDS
    ensures |e.regs| == WINDOW_WORDS
    // exactly one relay leaves for every offset the handler does not serve itself
    ensures |e.relays| == if offset in SILENT then 0 else 1
    ensures forall r :: r in e.relays ==> r.address == address && (r.Async? <==> offset == QUEUE_NOTIFY)
    // only GUEST_FEATURES can aim a store outside the window
    ensures |e.strays| <= 1 && (e.strays != [] ==> offset == GUEST_FEATURES)
  {
    var v := Low32(raw);
    if offset == HOST_FEATURES then
      Outcome(regs, [], [])
    else if offset == HOST_FEATURES_SEL then
      var k := v as int;
      if k > 3 then Outcome(regs, [], [])
      else Outcome(Store(regs, HOST_FEATURES, Load(regs, HOST_FEATURE0 + 4 * k)), [], [])
    else if offset == GUEST_FEATURES then
      var t := FeatureTarget(Load(regs, GUEST_FEATURES_SEL));
      if t < WINDOW_SIZE then Outcome(Store(regs, t, v), [], [])
      else Outcome(regs, [], [Stray(t, v)])
    else if offset == QUEUE_SEL then
      Outcome(ClearQueue(Store(regs, QUEUE_SEL, v)), [], [])
    else if offset in VERBATIM then
      Outcome(Store(regs, offset, v), [], [])
    else if offset == QUEUE_NOTIFY then
      Outcome(regs, [Async(address, raw)], [])
    else if offset == STATUS then
      var delta := Sub32(v, Load(regs, STATUS));
      Outcome(Store(regs, STATUS, delta), [Sync(address, Widen(delta))], [])
    else if offset == QUEUE_READY then
      Outcome(regs, [Sync(address, Widen(Load(regs, QUEUE_SEL)))], [])
    else if offset == INTERRUPT_ACK then
      Outcome(Store(Store(regs, INTERRUPT_ACK, 0), INTERRUPT_STATUS, 0), [], [])
    else
      Outcome(regs, [Sync(address, raw)], [])
  }

  /** A trapped guest write: its guest-physical address and the `unsigned long` written. */
  datatype Access = Access(address: u64, value: bv64)

  /** A sequence of guest writes to the window whose guest base is `gvmPaddr`, in order. */
  function Run(regs: seq<bv32>, gvmPaddr: u64, ws: seq<Access>): (o: Outcome)
    requires |regs| == WINDOW_WORDS
    ensures |o.regs| == WINDOW_WORDS
    decreases |ws|
  {
    if ws == [] then Outcome(regs, [], [])
    else
      var e := Write(regs, Sub64(ws[0].address, gvmPaddr), ws[0].address, ws[0].value);
      var rest := Run(e.regs, gvmPaddr, ws[1..]);
      Outcome(rest.regs, e.relays + rest.relays, e.strays + rest.strays)
  }

  /** Exactly the words outside `changed` agree between `a` and `b`. */
  ghost predicate OnlyChanged(a: seq<bv32>, b: seq<bv32>, changed: set<int>)
    requires |a| == |b| == WINDOW_WORDS
  {
    forall w :: 0 <= w < WINDOW_WORDS && 4 * w !in changed ==> b[w] == a[w]
  }

  // ---- One write, case by case ----

  /** A write to HOST_FEATURES itself is ignored. */
  lemma HostFeaturesIgnored(regs: seq<bv32>, address: u64, raw: bv64)
    requires |regs| == WINDOW_WORDS
    ensures Write(regs, HOST_FEATURES, address, raw) == Outcome(regs, [], [])
  {
  }

  /**
   * Selecting host feature word k (0..3) copies HOST_FEATURE<k> into
   * HOST_FEATURES and changes no other word; a larger selector changes nothing.
   */
  lemma HostFeaturesSelCopies(regs: seq<bv32>, address: u64, raw: bv64)
    requires |regs| == WINDOW_WORDS
    ensures var e := Write(regs, HOST_FEATURES_SEL, address, raw);
            var k := Low32(raw) as int;
            && e.relays == [] && e.strays == []
            && (k <= 3 ==> Load(e.regs, HOST_FEATURES) == Load(regs, HOST_FEATURE0 + 4 * k)
                           && OnlyChanged(regs, e.regs, {HOST_FEATURES}))
            && (k > 3 ==> e.regs == regs)
  {
  }

  /**
   * A GUEST_FEATURES write lands at the word the earlier GUEST_FEATURES_SEL
   * write selected, and only there; a target beyond the window is reported
   * and leaves the window unchanged.
   */
  lemma GuestFeaturesFollowsSelector(regs: seq<bv32>, address: u64, raw: bv64)
    requires |regs| == WINDOW_WORDS
    ensures var e := Write(regs, GUEST_FEATURES, address, raw);
            var t := FeatureTarget(Load(regs, GUEST_FEATURES_SEL));
            && e.relays == []
            && (t < WINDOW_SIZE ==> Load(e.regs, t) == Low32(raw) && OnlyChanged(regs, e.regs, {t})
                                    && e.strays == [])
            && (t >= WINDOW_SIZE ==> e.regs == regs && e.strays == [Stray(t, Low32(raw))])
  {
    var t := FeatureTarget(Load(regs, GUEST_FEATURES_SEL));
    var e := Write(regs, GUEST_FEATURES, address, raw);
    if t < WINDOW_SIZE {
      assert e == Outcome(Store(regs, t, Low32(raw)), [], []);
    } else {
      assert e == Outcome(regs, [], [Stray(t, Low32(raw))]);
    }
  }

  /**
   * GUEST_FEATURES_SEL, GUEST_PAGE_SIZE, QUEUE_NUM (whatever QUEUE_NUM_MAX
   * holds), QUEUE_ALIGN, QUEUE_PFN and the six queue address halves store the
   * written word at their own offset and touch nothing else.
   */
  lemma VerbatimStores(regs: seq<bv32>, offset: u64, address: u64, raw: bv64)
    requires |regs| == WINDOW_WORDS && offset in VERBATIM
    ensures var e := Write(regs, offset, address, raw);
            && Load(e.regs, offset) == Low32(raw)
            && OnlyChanged(regs, e.regs, {offset})
            && e.relays == [] && e.strays == []
  {
    assert offset != HOST_FEATURES && offset != HOST_FEATURES_SEL;
    assert offset != GUEST_FEATURES && offset != QUEUE_SEL;
    assert Write(regs, offset, address, raw) == Outcome(Store(regs, offset, Low32(raw)), [], []);
  }

  /**
   * Selecting a queue stores the selector and zeroes QUEUE_READY, QUEUE_NUM
   * and the six descriptor/avail/used halves, so the guest never sees the
   * configuration of the previously selected queue; nothing else changes.
   */
  lemma QueueSelClears(regs: seq<bv32>, address: u64, raw: bv64)
    requires |regs| == WINDOW_WORDS
    ensures var e := Write(regs, QUEUE_SEL, address, raw);
            && Load(e.regs, QUEUE_SEL) == Low32(raw)
            && QueueConfigZero(e.regs)
            && OnlyChanged(regs, e.regs, QUEUE_CONFIG + {QUEUE_SEL})
            && e.relays == [] && e.strays == []
  {
  }

  /** QUEUE_NOTIFY stores nothing and hands the raw value to the backend without blocking. */
  lemma QueueNotifyRelays(regs: seq<bv32>, address: u64, raw: bv64)
    requires |regs| == WINDOW_WORDS
    ensures Write(regs, QUEUE_NOTIFY, address, raw) == Outcome(regs, [Async(address, raw)], [])
  {
  }

  /**
   * STATUS stores the wrapped difference between the written and the stored
   * status (`uint32_t` subtraction) and relays that same difference,
   * blocking, zero-extended into `*write_value`; no other word changes.
   */
  lemma StatusStoresDelta(regs: seq<bv32>, address: u64, raw: bv64)
    requires |regs| == WINDOW_WORDS
    ensures var e := Write(regs, STATUS, address, raw);
            var delta := Sub32(Low32(raw), Load(regs, STATUS));
            && Load(e.regs, STATUS) == delta
            && OnlyChanged(regs, e.regs, {STATUS})
            && e.relays == [Sync(address, Widen(delta))] && e.strays == []
  {
  }

  /**
   * QUEUE_READY discards the written value: storage is unchanged and the
   * blocking relay carries the current QUEUE_SEL instead.
   */
  lemma QueueReadyRelaysSelector(regs: seq<bv32>, address: u64, raw: bv64, raw': bv64)
    requires |regs| == WINDOW_WORDS
    ensures Write(regs, QUEUE_READY, address, raw) == Write(regs, QUEUE_READY, address, raw')
    ensures Write(regs, QUEUE_READY, address, raw)
              == Outcome(regs, [Sync(address, Widen(Load(regs, QUEUE_SEL)))], [])
  {
  }

  /** INTERRUPT_ACK zeroes INTERRUPT_ACK and INTERRUPT_STATUS and relays nothing. */
  lemma InterruptAckClears(regs: seq<bv32>, address: u64, raw: bv64)
    requires |regs| == WINDOW_WORDS
    ensures var e := Write(regs, INTERRUPT_ACK, address, raw);
            && Load(e.regs, INTERRUPT_ACK) == 0 && Load(e.regs, INTERRUPT_STATUS) == 0
            && OnlyChanged(regs, e.regs, {INTERRUPT_ACK, INTERRUPT_STATUS})
            && e.relays == [] && e.strays == []
  {
  }

  /** Any offset the handler does not list is relayed verbatim, blocking, with no store. */
  lemma UnlistedOffsetRelays(regs: seq<bv32>, offset: u64, address: u64, raw: bv64)
    requires |regs| == WINDOW_WORDS
    requires offset !in SILENT && offset != QUEUE_NOTIFY && offset != STATUS && offset != QUEUE_READY
    ensures Write(regs, offset, address, raw) == Outcome(regs, [Sync(address, raw)], [])
  {
  }

  /** Every relay carries the value the handler leaves in `*write_value`. */
  lemma RelayCarriesWriteBack(regs: seq<bv32>, offset: u64, address: u64, raw: bv64)
    requires |regs| == WINDOW_WORDS
    ensures forall r :: r in Write(regs, offset, address, raw).relays ==> r.value == WriteBack(regs, offset, raw)
  {
    if offset == STATUS {
      StatusStoresDelta(regs, address, raw);
    } else if offset == QUEUE_READY {
      QueueReadyRelaysSelector(regs, address, raw, raw);
    }
  }

  /**
   * As long as the stored feature selector is in 0..3 when GUEST_FEATURES is
   * written, a write changes only guest-writable words: GVM_IRQ, the host
   * feature words, QUEUE_NUM_MAX, the identification registers and the
   * configuration space keep what the hypervisor and the backend put there.
   */
  lemma WriteKeepsHostWords(regs: seq<bv32>, offset: u64, address: u64, raw: bv64)
    requires |regs| == WINDOW_WORDS
    requires offset == GUEST_FEATURES ==> Load(regs, GUEST_FEATURES_SEL) as int < 4
    ensures OnlyChanged(regs, Write(regs, offset, address, raw).regs, GUEST_WRITABLE)
  {
    if offset == HOST_FEATURES_SEL {
      HostFeaturesSelCopies(regs, address, raw);
    } else if offset == GUEST_FEATURES {
      GuestFeaturesFollowsSelector(regs, address, raw);
    } else if offset == QUEUE_SEL {
      QueueSelClears(regs, address, raw);
    } else if offset in VERBATIM {
      VerbatimStores(regs, offset, address, raw);
    } else if offset == STATUS {
      StatusStoresDelta(regs, address, raw);
    } else if offset == INTERRUPT_ACK {
      InterruptAckClears(regs, address, raw);
    }
  }

  // ---- Sequences of writes ----

  /** The guest's feature selector is in 0..3 whenever it writes GUEST_FEATURES during `ws`. */
  ghost predicate SelectorsInRange(regs: seq<bv32>, gvmPaddr: u64, ws: seq<Access>)
    requires |regs| == WINDOW_WORDS
    decreases |ws|
  {
    ws == [] ||
    var offset := Sub64(ws[0].address, gvmPaddr);
    && (offset == GUEST_FEATURES ==> Load(regs, GUEST_FEATURES_SEL) as int < 4)
    && SelectorsInRange(Write(regs, offset, ws[0].address, ws[0].value).regs, gvmPaddr, ws[1..])
  }

  /**
   * Over any sequence of writes that keeps the feature selector in range,
   * the words the hypervisor owns (GVM_IRQ, HOST_FEATURE0..3, QUEUE_NUM_MAX,
   * the identification registers, the configuration space) are unchanged.
   */
  lemma {:induction false} RunKeepsHostWords(regs: seq<bv32>, gvmPaddr: u64, ws: seq<Access>)
    requires |regs| == WINDOW_WORDS && SelectorsInRange(regs, gvmPaddr, ws)
    ensures OnlyChanged(regs, Run(regs, gvmPaddr, ws).regs, GUEST_WRITABLE)
    decreases |ws|
  {
    if ws != [] {
      var offset := Sub64(ws[0].address, gvmPaddr);
      var e := Write(regs, offset, ws[0].address, ws[0].value);
      WriteKeepsHostWords(regs, offset, ws[0].address, ws[0].value);
      RunKeepsHostWords(e.regs, gvmPaddr, ws[1..]);
    }
  }

  /** How many of the writes in `ws` go to an offset the handler relays. */
  function RelayingWrites(gvmPaddr: u64, ws: seq<Access>): (n: nat)
    decreases |ws|
  {
    if ws == [] then 0
    else (if Sub64(ws[0].address, gvmPaddr) in SILENT then 0 else 1) + RelayingWrites(gvmPaddr, ws[1..])
  }

  /** The backend receives exactly one event per write to a relayed offset, whatever the register contents. */
  lemma {:induction false} RunRelayCount(regs: seq<bv32>, gvmPaddr: u64, ws: seq<Access>)
    requires |regs| == WINDOW_WORDS
    ensures |Run(regs, gvmPaddr, ws).relays| == RelayingWrites(gvmPaddr, ws)
    decreases |ws|
  {
    if ws != [] {
      var e := Write(regs, Sub64(ws[0].address, gvmPaddr), ws[0].address, ws[0].value);
      RunRelayCount(e.regs, gvmPaddr, ws[1..]);
    }
  }

  /** Two writes in a row, at offsets `o1` and `o2` of the window based at `gvmPaddr`, unfolded. */
  lemma RunTwo(regs: seq<bv32>, gvmPaddr: u64, o1: u64, v1: bv64, o2: u64, v2: bv64)
    requires |regs| == WINDOW_WORDS
    ensures var a1, a2 := Add64(gvmPaddr, o1), Add64(gvmPaddr, o2);
            var e1 := Write(regs, o1, a1, v1);
            var e2 := Write(e1.regs, o2, a2, v2);
            Run(regs, gvmPaddr, [Access(a1, v1), Access(a2, v2)])
              == Outcome(e2.regs, e1.relays + e2.relays, e1.strays + e2.strays)
  {
    var a, b := Access(Add64(gvmPaddr, o1), v1), Access(Add64(gvmPaddr, o2), v2);
    SubAfterAdd(gvmPaddr, o1);
    SubAfterAdd(gvmPaddr, o2);
    var e1 := Write(regs, o1, a.address, v1);
    var e2 := Write(e1.regs, o2, b.address, v2);
    assert [a, b][1..] == [b];
    assert [b][1..] == [];
    assert Run(e2.regs, gvmPaddr, []) == Outcome(e2.regs, [], []);
    assert Run(e1.regs, gvmPaddr, [b]) == Outcome(e2.regs, e2.relays, e2.strays);
  }

  /**
   * A selector that aims GUEST_FEATURES at the in-window word `off`: the
   * 32-bit multiplication and addition wrap, so every word is reachable.
   */
  function SelectorFor(off: int): (sel: bv32)
    requires InWindow(off)
    ensures FeatureTarget(sel) == off
  {
    var k := SelectorIndex(off);
    var sel := WordOf(k);
    assert FeatureTarget(sel) == (4 * k + DRIVER_FEATURE0) % TWO32;
    sel
  }

  /** The selector value, as an integer, that aims GUEST_FEATURES at `off`. */
  function SelectorIndex(off: int): (k: int)
    requires InWindow(off)
    ensures 0 <= k < TWO32 && (4 * k + DRIVER_FEATURE0) % TWO32 == off
  {
    ((off - DRIVER_FEATURE0) % TWO32) / 4
  }

  /** No word of the window is out of reach of the GUEST_FEATURES store. */
  lemma FeatureTargetReachesEveryWord(off: int)
    requires InWindow(off)
    ensures exists sel: bv32 :: FeatureTarget(sel) == off
  {
    var sel := SelectorFor(off);
    assert FeatureTarget(sel) == off;
  }

  /**
   * Where GUEST_FEATURES lands for three selectors, with the offsets chosen
   * for the hypervisor-private words here: one past the four driver feature
   * words reaches GVM_IRQ, a selector near 2^30 wraps around to
   * HOST_FEATURE0, and 0x400 aims past the window.
   */
  lemma FeatureTargetExamples()
    ensures FeatureTarget(4) == GVM_IRQ
    ensures FeatureTarget(0x3fff_fffc) == HOST_FEATURE0
    ensures FeatureTarget(0x400) == DRIVER_FEATURE0 + WINDOW_SIZE
  {
  }

  /**
   * Two guest writes, GUEST_FEATURES_SEL = sel and then GUEST_FEATURES = v,
   * put v at whatever in-window word the selector aims at, with no relay:
   * nothing keeps the guest away from the words the hypervisor owns.
   */
  lemma {:induction false} GuestChoosesFeatureTarget(regs: seq<bv32>, gvmPaddr: u64, sel: bv64, raw: bv64)
    requires |regs| == WINDOW_WORDS && FeatureTarget(Low32(sel)) < WINDOW_SIZE
    ensures var ws := [Access(Add64(gvmPaddr, GUEST_FEATURES_SEL), sel),
                       Access(Add64(gvmPaddr, GUEST_FEATURES), raw)];
            var out := Run(regs, gvmPaddr, ws);
            Load(out.regs, FeatureTarget(Low32(sel))) == Low32(raw) && out.relays == [] && out.strays == []
  {
    var a1, a2 := Add64(gvmPaddr, GUEST_FEATURES_SEL), Add64(gvmPaddr, GUEST_FEATURES);
    RunTwo(regs, gvmPaddr, GUEST_FEATURES_SEL, sel, GUEST_FEATURES, raw);
    var e1 := Write(regs, GUEST_FEATURES_SEL, a1, sel);
    VerbatimStores(regs, GUEST_FEATURES_SEL, a1, sel);
    GuestFeaturesFollowsSelector(e1.regs, a2, raw);
  }

  /**
   * Whatever the offsets of the window's words, two guest writes can put any
   * value in any word of the window, the hypervisor's own included.
   */
  lemma GuestCanRewriteAnyWord(regs: seq<bv32>, gvmPaddr: u64, off: int, raw: bv64)
    requires |regs| == WINDOW_WORDS && InWindow(off)
    ensures Load(Run(regs, gvmPaddr, [Access(Add64(gvmPaddr, GUEST_FEATURES_SEL), Widen(SelectorFor(off))),
                                      Access(Add64(gvmPaddr, GUEST_FEATURES), raw)]).regs, off) == Low32(raw)
  {
    LowOfWiden(SelectorFor(off));
    GuestChoosesFeatureTarget(regs, gvmPaddr, Widen(SelectorFor(off)), raw);
  }

  /** In particular a guest can rewrite the interrupt line the hypervisor published in GVM_IRQ. */
  lemma GuestCanRewriteIrqLine(regs: seq<bv32>, gvmPaddr: u64, raw: bv64)
    requires |regs| == WINDOW_WORDS
    ensures Load(Run(regs, gvmPaddr, [Access(Add64(gvmPaddr, GUEST_FEATURES_SEL), Widen(SelectorFor(GVM_IRQ))),
                                      Access(Add64(gvmPaddr, GUEST_FEATURES), raw)]).regs, GVM_IRQ) == Low32(raw)
  {
    GuestCanRewriteAnyWord(regs, gvmPaddr, GVM_IRQ, raw);
  }

  /**
   * Writing STATUS twice: the second write stores, and relays, its value
   * minus what the first one stored, which is itself the first value minus
   * the status before both.
   */
  lemma {:induction false} StatusTwice(regs: seq<bv32>, gvmPaddr: u64, r1: bv64, r2: bv64)
    requires |regs| == WINDOW_WORDS
    ensures var a := Add64(gvmPaddr, STATUS);
            var out := Run(regs, gvmPaddr, [Access(a, r1), Access(a, r2)]);
            var d1 := Sub32(Low32(r1), Load(regs, STATUS));
            var d2 := Sub32(Low32(r2), d1);
            && Load(out.regs, STATUS) == d2
            && out.relays == [Sync(a, Widen(d1)), Sync(a, Widen(d2))]
  {
    var a := Add64(gvmPaddr, STATUS);
    RunTwo(regs, gvmPaddr, STATUS, r1, STATUS, r2);
    StatusStoresDelta(regs, a, r1);
    StatusStoresDelta(Write(regs, STATUS, a, r1).regs, a, r2);
  }
}
