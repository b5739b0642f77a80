/**
 * One virtio-mmio device instance (`struct virtio_device` with its embedded
 * `struct vdev`) and the handlers the vdev framework calls when the guest
 * touches its window: the trapped write, the (empty) read handler, and the
 * publication of the interrupt line.
 *
 * The window's words are the device's own array; every `ioread32` and
 * `iowrite32` of the handler is a read or a write of one element. The events
 * handed to the backend are appended to `relays`, stores the GUEST_FEATURES
 * case aims beyond the window to `strays`.
 */
module Devices {
  import opened Machine
  import opened Registers

  class VirtioDevice {
    /** `vdev->gvm_paddr`: the guest-physical address of the window. */
    var gvmPaddr: u64
    /** `vdev->iomem`: the host address of the window inside the aperture. */
    var iomem: u64
    /** `dev->gvm_irq`: the interrupt line, 0 while none is assigned. */
    var gvmIrq: i32
    /** The words of the window. */
    const regs: array<bv32>
    /** Events handed to the backend, oldest first. */
    var relays: seq<Relay>
    /** GUEST_FEATURES stores that fell outside the window, oldest first. */
    var strays: seq<Stray>

    ghost predicate Valid()
      reads this
    {
      regs.Length == WINDOW_WORDS
    }

    /**
     * `malloc` + `memset(0)` of the instance: every field zero. The window
     * holds `window`, whatever the aperture held at that place.
     */
    constructor (window: seq<bv32>)
      requires |window| == WINDOW_WORDS
      ensures Valid() && fresh(regs) && regs[..] == window
      ensures gvmPaddr == 0 && iomem == 0 && gvmIrq == 0
      ensures relays == [] && strays == []
    {
      gvmPaddr, iomem, gvmIrq := 0, 0, 0;
      regs := new bv32[WINDOW_WORDS](i requires 0 <= i < WINDOW_WORDS => window[i]);
      relays, strays := [], [];
    }

    /** `ioread32(iomem + off)` */
    function IoRead32(off: u64): (v: bv32)
      reads this, regs
      requires Valid() && InWindow(off)
    {
      regs[off / 4]
    }

    /** `iowrite32(v, iomem + off)` */
    method IoWrite32(v: bv32, off: u64)
      requires Valid() && InWindow(off)
      modifies regs
      ensures regs[..] == Store(old(regs[..]), off, v)
    {
      regs[off / 4] := v;
    }

    /** `trap_mmio_write`: hand the write to the backend and wait for it. */
    method TrapMmioWrite(address: u64, value: bv64)
      modifies this`relays
      ensures relays == old(relays) + [Sync(address, value)]
    {
      relays := relays + [Sync(address, value)];
    }

    /** `trap_mmio_write_nonblock`: hand the write to the backend without waiting. */
    method TrapMmioWriteNonblock(address: u64, value: bv64)
      modifies this`relays
      ensures relays == old(relays) + [Async(address, value)]
    {
      relays := relays + [Async(address, value)];
    }

    /**
     * `virtio_mmio_write`: the guest wrote `writeValue` to `address`. Returns
     * 0 and the value left in `*write_value`; the window and the event trace
     * change as `Registers.Write` says for offset `address - gvm_paddr`.
     * The cases of the switch are grouped into the three methods below.
     */
    method MmioWrite(address: u64, writeValue: bv64) returns (ret: int, written: bv64)
      requires Valid()
      modifies regs, this`relays, this`strays
      ensures ret == 0
      ensures var e := Write(old(regs[..]), Sub64(address, gvmPaddr), address, writeValue);
              && regs[..] == e.regs
              && relays == old(relays) + e.relays
              && strays == old(strays) + e.strays
      ensures written == WriteBack(old(regs[..]), Sub64(address, gvmPaddr), writeValue)
    {
      var offset := Sub64(address, gvmPaddr);
      written := writeValue;
      if offset in {HOST_FEATURES, HOST_FEATURES_SEL, GUEST_FEATURES} {
        WriteFeatures(offset, address, writeValue);
      } else if offset == QUEUE_SEL || offset in VERBATIM || offset == INTERRUPT_ACK {
        WriteQueueConfig(offset, address, writeValue);
      } else {
        written := WriteRelayed(offset, address, writeValue);
      }
      ret := 0;
    }

    /** The feature negotiation cases: HOST_FEATURES, HOST_FEATURES_SEL and GUEST_FEATURES. */
    method WriteFeatures(offset: u64, address: u64, writeValue: bv64)
      requires Valid() && offset in {HOST_FEATURES, HOST_FEATURES_SEL, GUEST_FEATURES}
      modifies regs, this`strays
      ensures var e := Write(old(regs[..]), offset, address, writeValue);
              && regs[..] == e.regs && e.relays == []
              && strays == old(strays) + e.strays
    {
      var value := Low32(writeValue);
      if offset == HOST_FEATURES {
      } else if offset == HOST_FEATURES_SEL {
        var k := value as int;
        if k <= 3 {
          var tmp := IoRead32(HOST_FEATURE0 + 4 * k);
          IoWrite32(tmp, HOST_FEATURES);
        }
      } else {
        var tmp := FeatureTarget(IoRead32(GUEST_FEATURES_SEL));
        if tmp < WINDOW_SIZE {
          IoWrite32(value, tmp);
        } else {
          strays := strays + [Stray(tmp, value)];
        }
      }
    }

    /**
     * The cases that store into the window and relay nothing: QUEUE_SEL,
     * the verbatim stores and INTERRUPT_ACK.
     */
    method WriteQueueConfig(offset: u64, address: u64, writeValue: bv64)
      requires Valid() && (offset == QUEUE_SEL || offset in VERBATIM || offset == INTERRUPT_ACK)
      modifies regs
      ensures var e := Write(old(regs[..]), offset, address, writeValue);
              regs[..] == e.regs && e.relays == [] && e.strays == []
    {
      var value := Low32(writeValue);
      if offset == QUEUE_SEL {
        IoWrite32(value, QUEUE_SEL);
        IoWrite32(0, QUEUE_READY);
        IoWrite32(0, QUEUE_NUM);
        IoWrite32(0, QUEUE_DESC_LOW);
        IoWrite32(0, QUEUE_DESC_HIGH);
        IoWrite32(0, QUEUE_AVAIL_LOW);
        IoWrite32(0, QUEUE_AVAIL_HIGH);
        IoWrite32(0, QUEUE_USED_LOW);
        IoWrite32(0, QUEUE_USED_HIGH);
      } else if offset in VERBATIM {
        // QUEUE_NUM is stored even when it exceeds QUEUE_NUM_MAX (only a warning is logged)
        IoWrite32(value, offset);
      } else {
        IoWrite32(0, INTERRUPT_ACK);
        IoWrite32(0, INTERRUPT_STATUS);
      }
    }

    /**
     * The cases that hand the write to the backend: QUEUE_NOTIFY, STATUS,
     * QUEUE_READY and every offset the switch does not list. Returns the
     * value left in `*write_value`.
     */
    method WriteRelayed(offset: u64, address: u64, writeValue: bv64) returns (written: bv64)
      requires Valid()
      requires offset !in {HOST_FEATURES, HOST_FEATURES_SEL, GUEST_FEATURES, QUEUE_SEL, INTERRUPT_ACK}
      requires offset !in VERBATIM
      modifies regs, this`relays
      ensures var e := Write(old(regs[..]), offset, address, writeValue);
              && regs[..] == e.regs && e.strays == []
              && relays == old(relays) + e.relays
      ensures written == WriteBack(old(regs[..]), offset, writeValue)
    {
      var value := Low32(writeValue);
      written := writeValue;
      if offset == QUEUE_NOTIFY {
        TrapMmioWriteNonblock(address, written);
      } else if offset == STATUS {
        var tmp := IoRead32(STATUS);
        value := Sub32(value, tmp);
        written := Widen(value);
        IoWrite32(value, STATUS);
        TrapMmioWrite(address, written);
      } else if offset == QUEUE_READY {
        value := IoRead32(QUEUE_SEL);
        written := Widen(value);
        TrapMmioWrite(address, written);
      } else {
        TrapMmioWrite(address, written);
      }
    }

    /**
     * `virtio_mmio_read`: guest reads are served by the read-only mapping of
     * the window, so the handler returns 0, leaves `*read_value` alone and
     * changes nothing.
     */
    method MmioRead(address: u64) returns (ret: int)
      ensures ret == 0
    {
      ret := 0;
    }

    /** `virtio_device_init`: publish `gvm_irq` in the GVM_IRQ word for the guest driver. */
    method InitIrqLine()
      requires Valid()
      modifies regs
      ensures regs[..] == Store(old(regs[..]), GVM_IRQ, Word(gvmIrq))
    {
      IoWrite32(Word(gvmIrq), GVM_IRQ);
    }
  }
}
