/**
 * The per-VM virtio-mmio aperture (`mm->virtio_mmio_gbase`, `_iomem`,
 * `_size`) and the creation and teardown of the devices that live in it.
 *
 * The calls these operations make into the rest of the hypervisor (page
 * allocation, guest and host mappings, the vdev framework, the virtual
 * interrupt pool, `malloc`/`free`) are not modelled; what each of them
 * answers is a parameter, and every call is appended, with its answer, to
 * the VM's call log. Which resources a log leaves held is computed from it.
 */
module Lifecycle {
  import opened Machine
  import opened Registers
  import opened Devices

  /** One call into code outside the driver, with what it returned. */
  datatype Call =
    | CreateGuestVdev(size: u64, gbase: u64)                       // 0: no guest range
    | GetIoPages(count: u64, pages: u64)                           // 0: no pages
    | CreateHvmIomemMap(pages: u64, size: u64, hbase: u64)         // 0: not mapped
    | CreateGuestMapping(gbase: u64, pages: u64, size: u64, flags: set<MapFlag>, ret: int)
    | FreePages(pages: u64)
    | Malloc(obj: VirtioDevice?)                                   // null: out of memory
    | HostVdevInit(dev: VirtioDevice, base: u64, size: u64, ret: int)
    | AllocGvmVirq(irq: i32)                                       // <= 0: no line
    | ReleaseGvmVirq(irq: i32)
    | VdevRelease(dev: VirtioDevice)
    | Free(dev: VirtioDevice)

  /** The attributes `create_guest_mapping` is asked for: `VM_IO` (device memory) and `VM_RO` (read-only). */
  datatype MapFlag = VmIo | VmRo

  /** A guest mapping that is I/O and read-only, so that every guest store to it traps. */
  const GUEST_MAP_FLAGS: set<MapFlag> := {VmIo, VmRo}

  /** Something a successful call hands out and a later call gives back. */
  datatype Resource =
    | GuestRange(gbase: u64, size: u64)
    | IoPages(pages: u64)
    | HostMap(hbase: u64)
    | GuestMap(gbase: u64)
    | DeviceObject(dev: VirtioDevice)
    | Vdev(dev: VirtioDevice)
    | Virq(irq: i32)

  /** Whether call `c` hands out `r`: only a successful call does. */
  predicate Acquires(c: Call, r: Resource) {
    match c
    case CreateGuestVdev(size, gbase) => gbase != 0 && r == GuestRange(gbase, size)
    case GetIoPages(_, pages) => pages != 0 && r == IoPages(pages)
    case CreateHvmIomemMap(_, _, hbase) => hbase != 0 && r == HostMap(hbase)
    case CreateGuestMapping(gbase, _, _, _, ret) => ret == 0 && r == GuestMap(gbase)
    case Malloc(obj) => obj != null && r == DeviceObject(obj)
    case HostVdevInit(dev, _, _, ret) => ret == 0 && r == Vdev(dev)
    case AllocGvmVirq(irq) => irq > 0 && r == Virq(irq)
    case _ => false
  }

  /** Whether call `c` gives `r` back. */
  predicate Releases(c: Call, r: Resource) {
    match c
    case FreePages(pages) => r == IoPages(pages)
    case ReleaseGvmVirq(irq) => r == Virq(irq)
    case VdevRelease(dev) => r == Vdev(dev)
    case Free(dev) => r == DeviceObject(dev)
    case _ => false
  }

  /** 1 if `c` hands out `r`, -1 if it gives `r` back, 0 otherwise. */
  function Delta(c: Call, r: Resource): int {
    (if Acquires(c, r) then 1 else 0) - (if Releases(c, r) then 1 else 0)
  }

  /**
   * How many times the calls of `t` hand out `r` minus how many times they
   * give it back: 1 when `t` leaves `r` held, -1 when `t` gives back an `r`
   * it never got.
   */
  function Held(t: seq<Call>, r: Resource): (n: int) {
    if t == [] then 0 else Delta(t[0], r) + Held(t[1..], r)
  }

  /** The accounting of a log is the sum of the accounting of its parts. */
  lemma {:induction false} HeldAppend(a: seq<Call>, b: seq<Call>, r: Resource)
    ensures Held(a + b, r) == Held(a, r) + Held(b, r)
  {
    if a == [] {
      assert a + b == b;
    } else {
      assert (a + b)[0] == a[0];
      assert (a + b)[1..] == a[1..] + b;
      HeldAppend(a[1..], b, r);
    }
  }

  lemma HeldSnoc(t: seq<Call>, c: Call, r: Resource)
    ensures Held(t + [c], r) == Held(t, r) + Delta(c, r)
  {
    HeldAppend(t, [c], r);
    assert [c][1..] == [];
  }

  // ---- The aperture ----

  /** The answers of the calls `virtio_mmio_init` makes. */
  datatype InitEnv = InitEnv(guestBase: u64, pages: u64, hostBase: u64, mapRet: int)

  /** Every answer `virtio_mmio_init` needs to succeed. */
  predicate InitSucceeds(env: InitEnv) {
    env.guestBase != 0 && env.pages != 0 && env.hostBase != 0 && env.mapRet == 0
  }

  /**
   * The calls `virtio_mmio_init` makes past its two guards, for the
   * page-rounded size `sz`: it stops at the first failing answer, giving
   * the pages back if it had them and a mapping failed.
   */
  function InitCalls(sz: u64, env: InitEnv): (t: seq<Call>)
    // the guest sees the pages only through an I/O, read-only mapping
    ensures forall c :: c in t && c.CreateGuestMapping? ==>
              c == CreateGuestMapping(env.guestBase, env.pages, sz, GUEST_MAP_FLAGS, env.mapRet)
  {
    var c1 := [CreateGuestVdev(sz, env.guestBase)];
    if env.guestBase == 0 then c1
    else
      var c2 := c1 + [GetIoPages(PageNr(sz), env.pages)];
      if env.pages == 0 then c2
      else
        var c3 := c2 + [CreateHvmIomemMap(env.pages, sz, env.hostBase)];
        if env.hostBase == 0 then c3 + [FreePages(env.pages)]
        else
          var c4 := c3 + [CreateGuestMapping(env.guestBase, env.pages, sz, GUEST_MAP_FLAGS, env.mapRet)];
          if env.mapRet != 0 then c4 + [FreePages(env.pages)] else c4
  }

  /** A successful init holds the guest range, the pages and both mappings, once each, and nothing else. */
  lemma InitSuccessHolds(sz: u64, env: InitEnv, r: Resource)
    requires InitSucceeds(env)
    ensures Held(InitCalls(sz, env), r)
         == if r in {GuestRange(env.guestBase, sz), IoPages(env.pages), HostMap(env.hostBase), GuestMap(env.guestBase)}
            then 1 else 0
  {
    var g, p := CreateGuestVdev(sz, env.guestBase), GetIoPages(PageNr(sz), env.pages);
    var h := CreateHvmIomemMap(env.pages, sz, env.hostBase);
    var m := CreateGuestMapping(env.guestBase, env.pages, sz, GUEST_MAP_FLAGS, env.mapRet);
    HeldSnoc([], g, r);
    HeldSnoc([g], p, r);
    HeldSnoc([g, p], h, r);
    HeldSnoc([g, p, h], m, r);
    assert [] + [g] == [g] && [g] + [p] == [g, p] && [g, p] + [h] == [g, p, h] && [g, p, h] + [m] == [g, p, h, m];
    assert InitCalls(sz, env) == [g, p, h, m];
  }

  /**
   * A failed init gives back the pages it got, but keeps the guest range
   * create_guest_vdev reserved and, when only the guest mapping failed, the
   * host mapping: neither is undone on the error paths.
   */
  lemma InitFailureLeaks(sz: u64, env: InitEnv, r: Resource)
    requires !InitSucceeds(env)
    ensures var mapped := env.guestBase != 0 && env.pages != 0 && env.hostBase != 0;
            Held(InitCalls(sz, env), r)
              == if (env.guestBase != 0 && r == GuestRange(env.guestBase, sz)) || (mapped && r == HostMap(env.hostBase))
                 then 1 else 0
  {
    var g, p := CreateGuestVdev(sz, env.guestBase), GetIoPages(PageNr(sz), env.pages);
    var h := CreateHvmIomemMap(env.pages, sz, env.hostBase);
    var m := CreateGuestMapping(env.guestBase, env.pages, sz, GUEST_MAP_FLAGS, env.mapRet);
    var f := FreePages(env.pages);
    HeldSnoc([], g, r);
    assert [] + [g] == [g];
    if env.guestBase != 0 {
      HeldSnoc([g], p, r);
      assert [g] + [p] == [g, p];
      if env.pages != 0 {
        HeldSnoc([g, p], h, r);
        assert [g, p] + [h] == [g, p, h];
        if env.hostBase == 0 {
          HeldSnoc([g, p, h], f, r);
          assert InitCalls(sz, env) == [g, p, h] + [f];
        } else {
          HeldSnoc([g, p, h], m, r);
          HeldSnoc([g, p, h, m], f, r);
          assert [g, p, h] + [m] == [g, p, h, m];
          assert InitCalls(sz, env) == [g, p, h, m] + [f];
        }
      }
    }
  }

  /** The calls `virtio_mmio_deinit` makes: it gives the pages back, if there are any. */
  function DeinitCalls(iomem: u64): (t: seq<Call>) {
    if iomem != 0 then [FreePages(iomem)] else []
  }

  /**
   * Init followed by deinit gives the pages back but leaves the guest range
   * and both mappings in place: deinit unmaps nothing.
   */
  lemma {:induction false} InitThenDeinitKeepsMappings(sz: u64, env: InitEnv, r: Resource)
    requires InitSucceeds(env)
    ensures Held(InitCalls(sz, env) + DeinitCalls(env.pages), r)
         == if r in {GuestRange(env.guestBase, sz), HostMap(env.hostBase), GuestMap(env.guestBase)} then 1 else 0
  {
    InitSuccessHolds(sz, env, r);
    HeldSnoc(InitCalls(sz, env), FreePages(env.pages), r);
  }

  // ---- Device windows inside the aperture ----

  /**
   * The checks `create_virtio_device` makes of a device's guest base: an
   * aperture exists, `base` is not 0 and lies below the end of the aperture
   * (`gbase + size`, a 64-bit sum). Nothing checks that it lies above the start.
   */
  predicate BaseAccepted(iomem: u64, gbase: u64, size: u64, base: u64) {
    iomem != 0 && base != 0 && base < Add64(gbase, size)
  }

  /** `mm->virtio_mmio_iomem + (base - mm->virtio_mmio_gbase)`: the host address of the device's window. */
  function WindowHost(iomem: u64, gbase: u64, base: u64): (host: u64) {
    Add64(iomem, Sub64(base, gbase))
  }

  /** A window that fits in the aperture's guest range sits at the same place in its host pages. */
  lemma WindowInsideAperture(iomem: u64, gbase: u64, size: u64, base: u64)
    requires iomem != 0 && 0 < gbase <= base && base + WINDOW_SIZE <= gbase + size
    requires gbase + size < TWO64 && iomem + size < TWO64
    ensures BaseAccepted(iomem, gbase, size, base)
    ensures WindowHost(iomem, gbase, base) == iomem + (base - gbase)
    ensures iomem <= WindowHost(iomem, gbase, base)
    ensures WindowHost(iomem, gbase, base) + WINDOW_SIZE <= iomem + size
  {
  }

  /**
   * A base below the aperture passes the checks; the offset underflows and
   * the window lands `gbase - base` bytes before the aperture's host pages.
   */
  lemma BaseBelowApertureAccepted(iomem: u64, gbase: u64, size: u64, base: u64)
    requires iomem != 0 && 0 < base < gbase && gbase + size < TWO64
    ensures BaseAccepted(iomem, gbase, size, base)
    ensures Sub64(base, gbase) == TWO64 - (gbase - base)
    ensures Add64(WindowHost(iomem, gbase, base), gbase - base) == iomem
  {
  }

  /**
   * A base in the aperture's last word passes the checks although its
   * window runs past the aperture's end.
   */
  lemma WindowMayOverrunAperture(iomem: u64, gbase: u64, size: u64)
    requires iomem != 0 && gbase != 0 && 4 <= size && gbase + size < TWO64 && iomem + size < TWO64
    ensures var base := gbase + size - 4;
            && BaseAccepted(iomem, gbase, size, base)
            && WindowHost(iomem, gbase, base) + WINDOW_SIZE > iomem + size
  {
  }

  // ---- Creating and releasing a device ----

  /** The answers `create_virtio_device` gets, and the contents of the device's window. */
  datatype CreateEnv = CreateEnv(mallocOk: bool, vdevRet: int, virq: i32, window: seq<bv32>)

  /** The calls `release_virtio_dev` makes for a device whose `gvm_irq` is `irq`. */
  function ReleaseCalls(dev: VirtioDevice, irq: i32): (t: seq<Call>) {
    [VdevRelease(dev)] + (if irq != 0 then [ReleaseGvmVirq(irq)] else []) + [Free(dev)]
  }

  /**
   * The calls `create_virtio_device` makes once the base passes the checks:
   * every failure after `malloc` unwinds through `release_virtio_dev`.
   * `dev` is the object `malloc` returned, null when it failed.
   */
  function CreateCalls(dev: VirtioDevice?, base: u64, env: CreateEnv): (t: seq<Call>) {
    if dev == null then [Malloc(null)]
    else
      var c1 := [Malloc(dev), HostVdevInit(dev, base, WINDOW_SIZE, env.vdevRet)];
      if env.vdevRet != 0 then c1 + ReleaseCalls(dev, 0)
      else if env.virq <= 0 then c1 + [AllocGvmVirq(env.virq)] + ReleaseCalls(dev, env.virq)
      else c1 + [AllocGvmVirq(env.virq)]
  }

  /** What `create_virtio_device` returns once the base passes the checks. */
  function CreateRet(env: CreateEnv): (ret: int) {
    if !env.mallocOk then -ENOMEM
    else if env.vdevRet != 0 || env.virq <= 0 then -EFAULT
    else 0
  }

  /** A device that was created holds its memory, its vdev and its interrupt line, once each. */
  lemma CreateSuccessHolds(dev: VirtioDevice, base: u64, env: CreateEnv, r: Resource)
    requires CreateRet(env) == 0
    ensures Held(CreateCalls(dev, base, env), r)
         == if r in {DeviceObject(dev), Vdev(dev), Virq(env.virq)} then 1 else 0
  {
    var m, v := Malloc(dev), HostVdevInit(dev, base, WINDOW_SIZE, env.vdevRet);
    var a := AllocGvmVirq(env.virq);
    HeldSnoc([], m, r);
    HeldSnoc([m], v, r);
    HeldSnoc([m, v], a, r);
    assert [] + [m] == [m] && [m] + [v] == [m, v] && [m, v] + [a] == [m, v, a];
    assert CreateCalls(dev, base, env) == [m, v, a];
  }

  /**
   * A creation that fails holds nothing afterwards: every step is unwound.
   * The unwinding also gives back what was never handed out: the vdev when
   * `host_vdev_init` failed, and the "line" itself when `alloc_gvm_virq`
   * returned a negative error, since only a zero line is skipped.
   */
  lemma {:induction false} CreateFailureUnwinds(dev: VirtioDevice?, base: u64, env: CreateEnv, r: Resource)
    requires CreateRet(env) != 0 && (dev != null <==> env.mallocOk)
    ensures Held(CreateCalls(dev, base, env), r)
         == if dev != null && ((env.vdevRet != 0 && r == Vdev(dev)) || (env.vdevRet == 0 && env.virq < 0 && r == Virq(env.virq)))
            then -1 else 0
  {
    if dev == null {
      HeldSnoc([], Malloc(null), r);
      assert [] + [Malloc(null)] == [Malloc(null)];
    } else {
      var m, v := Malloc(dev), HostVdevInit(dev, base, WINDOW_SIZE, env.vdevRet);
      HeldSnoc([], m, r);
      HeldSnoc([m], v, r);
      assert [] + [m] == [m] && [m] + [v] == [m, v];
      var irq := if env.vdevRet != 0 then 0 else env.virq;
      var c := if env.vdevRet != 0 then [m, v] else [m, v] + [AllocGvmVirq(env.virq)];
      HeldSnoc([m, v], AllocGvmVirq(env.virq), r);
      ReleaseHeld(c, dev, irq, r);
      assert CreateCalls(dev, base, env) == c + ReleaseCalls(dev, irq);
    }
  }

  /** What `release_virtio_dev` gives back, appended to a log `t`. */
  lemma ReleaseHeld(t: seq<Call>, dev: VirtioDevice, irq: i32, r: Resource)
    ensures Held(t + ReleaseCalls(dev, irq), r)
         == Held(t, r) - (if r == Vdev(dev) || r == DeviceObject(dev) || (irq != 0 && r == Virq(irq)) then 1 else 0)
  {
    var rel := ReleaseCalls(dev, irq);
    var vr, fr := VdevRelease(dev), Free(dev);
    HeldSnoc(t, vr, r);
    if irq != 0 {
      var gr := ReleaseGvmVirq(irq);
      HeldSnoc(t + [vr], gr, r);
      HeldSnoc(t + [vr] + [gr], fr, r);
      assert t + rel == t + [vr] + [gr] + [fr];
    } else {
      HeldSnoc(t + [vr], fr, r);
      assert t + rel == t + [vr] + [fr];
    }
  }

  /** Releasing a created device gives back exactly what creating it acquired. */
  lemma {:induction false} CreateThenReleaseBalances(dev: VirtioDevice, base: u64, env: CreateEnv, r: Resource)
    requires CreateRet(env) == 0
    ensures Held(CreateCalls(dev, base, env) + ReleaseCalls(dev, env.virq), r) == 0
  {
    CreateSuccessHolds(dev, base, env, r);
    ReleaseHeld(CreateCalls(dev, base, env), dev, env.virq, r);
  }

  /** The VM's side: the aperture fields of its `mm_struct` and the log of external calls. */
  class Vm {
    /** `mm->virtio_mmio_gbase` */
    var gbase: u64
    /** `mm->virtio_mmio_iomem`, 0 for NULL */
    var iomem: u64
    /** `mm->virtio_mmio_size` */
    var size: u64
    /** Every external call made so far, oldest first. */
    var calls: seq<Call>

    constructor ()
      ensures gbase == 0 && iomem == 0 && size == 0 && calls == []
    {
      gbase, iomem, size, calls := 0, 0, 0, [];
    }

    /**
     * No aperture means all three fields are zero; an aperture has a guest
     * base and a nonzero whole number of pages.
     */
    ghost predicate ApertureConsistent()
      reads this
    {
      && (iomem == 0 ==> gbase == 0 && size == 0)
      && (iomem != 0 ==> gbase != 0 && size != 0 && size % PAGE_SIZE == 0)
    }

    /**
     * `virtio_mmio_init(vm, size, gbase, hbase)`: `gbaseIn`/`hbaseIn` are what
     * the caller's `*gbase`/`*hbase` held, `gbaseOut`/`hbaseOut` what they hold
     * afterwards.
     */
    method MmioInit(sizeIn: u64, gbaseIn: u64, hbaseIn: u64, env: InitEnv)
      returns (ret: int, gbaseOut: u64, hbaseOut: u64)
      modifies this
      // double init and a zero size are refused before anything happens
      ensures old(iomem) != 0 || sizeIn == 0 ==>
                && ret == -EINVAL && gbaseOut == gbaseIn && hbaseOut == hbaseIn
                && gbase == old(gbase) && iomem == old(iomem) && size == old(size) && calls == old(calls)
      ensures old(iomem) == 0 && sizeIn != 0 ==>
                var sz := PageAlign(sizeIn);
                && calls == old(calls) + InitCalls(sz, env)
                && (ret == 0 <==> InitSucceeds(env))
                && (ret == 0 ==> gbase == env.guestBase && iomem == env.pages && size == sz
                                 && gbaseOut == env.guestBase && hbaseOut == env.hostBase)
                && (ret != 0 ==> gbase == old(gbase) && iomem == old(iomem) && size == old(size)
                                 && gbaseOut == 0
                                 && ret == (if env.guestBase != 0 && env.pages != 0 && env.hostBase != 0
                                            then -EFAULT else -ENOMEM)
                                 // *hbase keeps the host mapping's address when only the guest mapping failed
                                 && hbaseOut == (if ret == -EFAULT then env.hostBase else 0))
      // a size PAGE_BALIGN can round up keeps the aperture consistent; a larger one wraps to 0
      ensures old(ApertureConsistent()) && sizeIn <= MAX_ALIGNABLE ==> ApertureConsistent()
      ensures old(iomem) == 0 && sizeIn > MAX_ALIGNABLE && ret == 0 ==> iomem != 0 && size == 0
    {
      gbaseOut, hbaseOut := gbaseIn, hbaseIn;
      if iomem != 0 {
        return -EINVAL, gbaseOut, hbaseOut;
      }
      if sizeIn == 0 {
        return -EINVAL, gbaseOut, hbaseOut;
      }
      gbaseOut, hbaseOut := 0, 0;
      var sz := PageAlign(sizeIn);

      var g := env.guestBase;
      calls := calls + [CreateGuestVdev(sz, g)];
      if g == 0 {
        return -ENOMEM, gbaseOut, hbaseOut;
      }

      var pages := env.pages;
      calls := calls + [GetIoPages(PageNr(sz), pages)];
      if pages == 0 {
        return -ENOMEM, gbaseOut, hbaseOut;
      }

      hbaseOut := env.hostBase;
      calls := calls + [CreateHvmIomemMap(pages, sz, hbaseOut)];
      if hbaseOut == 0 {
        calls := calls + [FreePages(pages)];
        return -ENOMEM, gbaseOut, hbaseOut;
      }

      calls := calls + [CreateGuestMapping(g, pages, sz, GUEST_MAP_FLAGS, env.mapRet)];
      if env.mapRet != 0 {
        calls := calls + [FreePages(pages)];
        return -EFAULT, gbaseOut, hbaseOut;
      }

      gbase, iomem, size := g, pages, sz;
      gbaseOut := g;
      ret := 0;
    }

    /** `virtio_mmio_deinit`: give the pages back and forget the aperture. */
    method MmioDeinit() returns (ret: int)
      modifies this
      ensures ret == 0 && gbase == 0 && iomem == 0 && size == 0 && ApertureConsistent()
      ensures calls == old(calls) + DeinitCalls(old(iomem))
    {
      if iomem != 0 {
        calls := calls + [FreePages(iomem)];
      }
      gbase, iomem, size := 0, 0, 0;
      ret := 0;
    }

    /** `release_virtio_dev`: nothing for null, else release the vdev, the line if nonzero, and the object. */
    method ReleaseVirtioDev(dev: VirtioDevice?)
      modifies this`calls
      ensures calls == old(calls) + (if dev == null then [] else ReleaseCalls(dev, dev.gvmIrq))
    {
      if dev == null {
        return;
      }
      calls := calls + [VdevRelease(dev)];
      if dev.gvmIrq != 0 {
        calls := calls + [ReleaseGvmVirq(dev.gvmIrq)];
      }
      calls := calls + [Free(dev)];
    }

    /**
     * `create_virtio_device(vm, base)`. Also returns the object `malloc`
     * handed out (null when it failed); after a failure it has been freed.
     */
    method CreateVirtioDevice(base: u64, env: CreateEnv) returns (ret: int, dev: VirtioDevice?)
      requires |env.window| == WINDOW_WORDS
      modifies this`calls
      ensures !BaseAccepted(iomem, gbase, size, base) ==> ret == -EINVAL && dev == null && calls == old(calls)
      ensures BaseAccepted(iomem, gbase, size, base) ==>
                && ret == CreateRet(env)
                && (dev != null <==> env.mallocOk)
                && calls == old(calls) + CreateCalls(dev, base, env)
      ensures ret == 0 ==>
                && dev != null && fresh(dev) && fresh(dev.regs) && dev.Valid()
                && dev.gvmPaddr == base && dev.iomem == WindowHost(iomem, gbase, base)
                && dev.gvmIrq == env.virq
                && dev.regs[..] == Store(env.window, GVM_IRQ, Word(env.virq))
                && dev.relays == [] && dev.strays == []
    {
      dev := null;
      if iomem == 0 || base == 0 {
        return -EINVAL, dev;
      }
      if base >= Add64(gbase, size) {
        return -EINVAL, dev;
      }

      if !env.mallocOk {
        calls := calls + [Malloc(null)];
        return -ENOMEM, dev;
      }
      dev := new VirtioDevice(env.window);
      calls := calls + [Malloc(dev)];

      calls := calls + [HostVdevInit(dev, base, WINDOW_SIZE, env.vdevRet)];
      if env.vdevRet != 0 {
        ReleaseVirtioDev(dev);
        return -EFAULT, dev;
      }
      dev.gvmPaddr := base;
      dev.iomem := WindowHost(iomem, gbase, base);

      dev.gvmIrq := env.virq;
      calls := calls + [AllocGvmVirq(env.virq)];
      if dev.gvmIrq <= 0 {
        ReleaseVirtioDev(dev);
        return -EFAULT, dev;
      }

      dev.InitIrqLine();
      ret := 0;
    }
  }
}
