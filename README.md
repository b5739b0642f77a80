# virtio-mmio transport of the minos hypervisor, modelled in Dafny

This project models the virtio-mmio driver of the minos hypervisor,
`hypervisor/drivers/virtio_mmio.c`. The driver has three parts.

- **The register window of a device.** Guest reads of the window go straight
  to a read-only mapping. Guest writes trap into `virtio_mmio_write`. Its
  `switch (offset)` either updates the window's words in place, or hands the
  write to the backend. That hand-off is blocking (`trap_mmio_write`) or
  non-blocking (`trap_mmio_write_nonblock`).
- **The per-VM aperture.** This is a run of pages mapped writable into the
  hypervisor and the backend, and read-only into the guest.
  `virtio_mmio_init` creates it and `virtio_mmio_deinit` forgets it. The
  aperture is recorded in three fields of the VM's `mm_struct`.
- **Devices inside the aperture.** `create_virtio_device` gives a device a
  window at a guest base address, wires the handlers and allocates an
  interrupt line. It publishes that line in the GVM_IRQ word for the guest
  driver. Every failure after `malloc` unwinds through `release_virtio_dev`.

The modules follow that structure:

- `Machine` has the machine vocabulary:
  - 64-bit `unsigned long` as a wrapping `u64`;
  - `uint32_t` words as `bv32`;
  - the error codes;
  - `PAGE_BALIGN` and `PAGE_NR`.
- `Registers` has the register layout and `Write`, the meaning of one guest
  write, as a pure function over the window's words. It also has `Run` for a
  sequence of writes, and the lemmas about both.
- `Devices` has the class `VirtioDevice`: the window as an `array<bv32>`, the
  relay trace and the stray-store trace. Its handler methods are proved
  against `Registers.Write`.
- `Lifecycle` has the class `Vm`: the aperture fields and a log of every call
  made into the rest of the hypervisor, each with its answer. The init,
  deinit, create and release operations are methods on it. A count of what
  a log leaves held, `Held`, is the reference against which their resource
  behaviour is proved.

The register offsets defined by the virtio MMIO transport are taken from
OASIS VIRTIO 1.1, section 4.2.2 "MMIO Device Register Layout".
GUEST_PAGE_SIZE, QUEUE_ALIGN and QUEUE_PFN come from the legacy layout of
section 4.2.4. The hypervisor-private words (HOST_FEATURE0..3,
DRIVER_FEATURE0..3, GVM_IRQ) and the window size come from
`minos/virtio_mmio.h`, which is not part of this model. They are given chosen
values: distinct, 4-aligned and inside the window, below the configuration
space.

## Model

| member | source | states |
|---|---|---|
| Registers.Write | hypervisor/drivers/virtio_mmio.c:37-142 | one guest write emits exactly one relay for every offset the handler does not serve itself and none otherwise; relays carry the trapped address and are non-blocking exactly for QUEUE_NOTIFY; only GUEST_FEATURES can aim a store outside the window |
| Registers.FeatureTarget | hypervisor/drivers/virtio_mmio.c:61-62 | the GUEST_FEATURES target is a 4-aligned 32-bit offset, and equals DRIVER_FEATURE0 + 4*sel when the selector is 0..3 |
| Registers.ClearQueue | hypervisor/drivers/virtio_mmio.c:72-80 | all eight per-queue configuration words read zero afterwards and no other word changes |
| Registers.HostFeaturesIgnored | hypervisor/drivers/virtio_mmio.c:46-47 | a write to HOST_FEATURES changes nothing and relays nothing |
| Registers.HostFeaturesSelCopies | hypervisor/drivers/virtio_mmio.c:48-56 | selector k <= 3 copies HOST_FEATURE0 + 4k into HOST_FEATURES and changes no other word; k > 3 leaves the window unchanged; no relay |
| Registers.GuestFeaturesFollowsSelector | hypervisor/drivers/virtio_mmio.c:60-64 | GUEST_FEATURES stores the value at the word the stored selector aims at, and only there, with no relay; a target past the window leaves the window unchanged and is reported as a stray store |
| Registers.VerbatimStores | hypervisor/drivers/virtio_mmio.c:57-126 | GUEST_FEATURES_SEL, GUEST_PAGE_SIZE, QUEUE_NUM, QUEUE_ALIGN, QUEUE_PFN and the six queue address halves store the written word at their own offset, change nothing else and relay nothing; QUEUE_NUM is stored whatever QUEUE_NUM_MAX holds |
| Registers.QueueSelClears | hypervisor/drivers/virtio_mmio.c:69-81 | QUEUE_SEL stores the selector, zeroes QUEUE_READY, QUEUE_NUM and the six DESC/AVAIL/USED halves, changes nothing else and relays nothing |
| Registers.QueueNotifyRelays | hypervisor/drivers/virtio_mmio.c:95-101 | QUEUE_NOTIFY leaves the window unchanged and emits one non-blocking relay of the raw value |
| Registers.StatusStoresDelta | hypervisor/drivers/virtio_mmio.c:102-108 | STATUS stores the 32-bit wrapped difference between the written and the stored status, changes nothing else, and emits one blocking relay of that same difference |
| Registers.QueueReadyRelaysSelector | hypervisor/drivers/virtio_mmio.c:127-131 | QUEUE_READY ignores the written value, leaves the window unchanged and emits one blocking relay of the current QUEUE_SEL |
| Registers.InterruptAckClears | hypervisor/drivers/virtio_mmio.c:132-135 | INTERRUPT_ACK zeroes INTERRUPT_ACK and INTERRUPT_STATUS, changes nothing else and relays nothing |
| Registers.UnlistedOffsetRelays | hypervisor/drivers/virtio_mmio.c:136-138 | an offset the switch does not list changes nothing and emits one blocking relay of the raw value |
| Registers.RelayCarriesWriteBack | hypervisor/drivers/virtio_mmio.c:95-138 | every relay carries the value the handler leaves in `*write_value` |
| Registers.WriteKeepsHostWords | hypervisor/drivers/virtio_mmio.c:45-139 | while the feature selector is 0..3, a write changes only guest-writable words: GVM_IRQ, HOST_FEATURE0..3, QUEUE_NUM_MAX, the identification registers and the configuration space keep their contents |
| Registers.RunKeepsHostWords | hypervisor/drivers/virtio_mmio.c:45-139 | the same holds over any sequence of writes that keeps the selector in range when GUEST_FEATURES is written |
| Registers.RunRelayCount | hypervisor/drivers/virtio_mmio.c:95-138 | over any sequence of writes, the backend receives exactly one event per write to a relayed offset, whatever the window holds |
| Registers.SelectorFor | hypervisor/drivers/virtio_mmio.c:61-63 | for every in-window word there is a selector value that aims GUEST_FEATURES at exactly that word, because the 32-bit multiplication and addition wrap |
| Registers.FeatureTargetReachesEveryWord | hypervisor/drivers/virtio_mmio.c:61-63 | no word of the window is out of reach of the GUEST_FEATURES store |
| Registers.FeatureTargetExamples | hypervisor/drivers/virtio_mmio.c:61-63 | examples for the offsets chosen here for the private words: selector 4 aims GUEST_FEATURES at GVM_IRQ; selector 0x3ffffffc wraps around to HOST_FEATURE0; selector 0x400 aims past the window |
| Registers.GuestChoosesFeatureTarget | hypervisor/drivers/virtio_mmio.c:57-64 | writing GUEST_FEATURES_SEL and then GUEST_FEATURES puts the value at whatever in-window word the selector aims at, with no relay and no stray store |
| Registers.GuestCanRewriteAnyWord | hypervisor/drivers/virtio_mmio.c:57-64 | two guest writes, the selector from `SelectorFor` and then the value, put any value in any word of the window, whatever its offset |
| Registers.GuestCanRewriteIrqLine | hypervisor/drivers/virtio_mmio.c:57-64 | in particular, two guest writes overwrite the GVM_IRQ word the hypervisor published |
| Registers.StatusTwice | hypervisor/drivers/virtio_mmio.c:102-108 | two STATUS writes store and relay the second value minus the first delta, which is itself the first value minus the original status |
| Devices.VirtioDevice.constructor | hypervisor/drivers/virtio_mmio.c:193-197 | a zeroed instance whose window holds the given words |
| Devices.VirtioDevice.MmioWrite | hypervisor/drivers/virtio_mmio.c:37-142 | returns 0 for every offset; the window, relay trace and stray trace become what `Registers.Write` gives for offset `address - gvm_paddr` (64-bit wrap); `*write_value` becomes `Registers.WriteBack` |
| Devices.VirtioDevice.WriteFeatures | hypervisor/drivers/virtio_mmio.c:46-64 | the feature cases update the window and stray trace as `Registers.Write` says, with no relay |
| Devices.VirtioDevice.WriteQueueConfig | hypervisor/drivers/virtio_mmio.c:65-135 | the storing cases among these (QUEUE_SEL, the verbatim stores, INTERRUPT_ACK) update the window as `Registers.Write` says, with no relay and no stray store |
| Devices.VirtioDevice.WriteRelayed | hypervisor/drivers/virtio_mmio.c:95-138 | QUEUE_NOTIFY, STATUS, QUEUE_READY and unlisted offsets update the window and relay trace as `Registers.Write` says, and return the value left in `*write_value` |
| Devices.VirtioDevice.MmioRead | hypervisor/drivers/virtio_mmio.c:31-35 | the read handler returns 0 and changes nothing |
| Devices.VirtioDevice.InitIrqLine | hypervisor/drivers/virtio_mmio.c:144-150 | the GVM_IRQ word becomes the 32-bit pattern of `gvm_irq`; no other word changes |
| Machine.Sub64 | hypervisor/drivers/virtio_mmio.c:43 | `address - gvm_paddr` on `unsigned long`: the difference modulo 2^64, and the plain difference when it does not underflow |
| Machine.Word | hypervisor/drivers/virtio_mmio.c:149 | the `int` interrupt line stored into a `uint32_t` word: its unsigned value is the line, plus 2^32 when the line is negative |
| Machine.PageAlign | hypervisor/drivers/virtio_mmio.c:243 | PAGE_BALIGN gives a multiple of the page size, the smallest one at or above the size when the addition does not wrap, and 0 when it wraps |
| Lifecycle.Vm.MmioInit | hypervisor/drivers/virtio_mmio.c:224-281 | double init and size 0 give -EINVAL with nothing changed; otherwise the calls are logged, success happens exactly when every step answers success, and success sets all three fields to the guest base, the pages and the rounded size; after a failure the fields are unchanged, `*gbase` is 0, the code is -EFAULT for a failed guest mapping and -ENOMEM for anything else, and `*hbase` is 0 except after the guest mapping failed; an aperture that was consistent stays consistent unless the size wraps in PAGE_BALIGN |
| Lifecycle.Vm.MmioDeinit | hypervisor/drivers/virtio_mmio.c:283-295 | returns 0, gives the pages back when there are any, and leaves all three fields zero, so a later init passes its guards |
| Lifecycle.Vm.ReleaseVirtioDev | hypervisor/drivers/virtio_mmio.c:152-163 | does nothing for null; otherwise calls vdev_release, then release_gvm_virq when the line is nonzero, then free |
| Lifecycle.Vm.CreateVirtioDevice | hypervisor/drivers/virtio_mmio.c:177-222 | a base failing the checks gives -EINVAL and no call; otherwise -ENOMEM when malloc fails, -EFAULT when host_vdev_init or alloc_gvm_virq fails, and 0 otherwise; the calls are logged; a created device is fresh, sits at `base`, has its window at `iomem + (base - gbase)` and holds the line, and its GVM_IRQ word holds that line |
| Lifecycle.InitCalls | hypervisor/drivers/virtio_mmio.c:267-268 | the one guest mapping init requests maps its own pages at its own guest range, I/O and read-only (`VM_IO \| VM_RO`), so every guest store to a window traps |
| Lifecycle.InitSuccessHolds | hypervisor/drivers/virtio_mmio.c:245-280 | a successful init holds the guest range, the pages and both mappings, once each, and nothing else |
| Lifecycle.InitFailureLeaks | hypervisor/drivers/virtio_mmio.c:245-271 | a failed init gives its pages back but keeps the guest range, and keeps the host mapping when only the guest mapping failed |
| Lifecycle.InitThenDeinitKeepsMappings | hypervisor/drivers/virtio_mmio.c:287-292 | init followed by deinit gives the pages back and leaves the guest range and both mappings held |
| Lifecycle.WindowInsideAperture | hypervisor/drivers/virtio_mmio.c:185-205 | a window inside the aperture's guest range passes the checks and sits at the same offset inside the host pages |
| Lifecycle.BaseBelowApertureAccepted | hypervisor/drivers/virtio_mmio.c:185-205 | a base below the aperture passes the checks; the offset underflows and the window lands `gbase - base` bytes before the aperture's pages |
| Lifecycle.WindowMayOverrunAperture | hypervisor/drivers/virtio_mmio.c:188-205 | a base in the aperture's last word passes the checks although its window runs past the aperture's end |
| Lifecycle.CreateSuccessHolds | hypervisor/drivers/virtio_mmio.c:193-217 | a created device holds its object, its vdev and its interrupt line, once each, and nothing else |
| Lifecycle.CreateFailureUnwinds | hypervisor/drivers/virtio_mmio.c:193-221 | a failed creation holds nothing afterwards, except that the count goes below zero in two cases: `vdev_release` is called although `host_vdev_init` reported failure, and a negative error from `alloc_gvm_virq` is released as if it were a line |
| Lifecycle.ReleaseHeld | hypervisor/drivers/virtio_mmio.c:152-163 | release_virtio_dev gives back the vdev, the object and a nonzero line, once each |
| Lifecycle.CreateThenReleaseBalances | hypervisor/drivers/virtio_mmio.c:152-221 | releasing a created device gives back exactly what creating it acquired |

## Left out

- `ioread32`/`iowrite32` are plain reads and writes of the window's words. Volatility and memory ordering are not modelled.
- The device's window is its own array, and its first contents are a parameter. The model does not capture that it aliases the aperture's pages, so it does not capture the `memset` of the aperture either.
- The page and mapping calls are not modelled: `create_guest_vdev`, `get_io_pages`, `create_hvm_iomem_map`, `create_guest_mapping` and `free_pages`. What each answers is a parameter, and each call is logged.
- `malloc`, `free`, `host_vdev_init`, `vdev_release`, `alloc_gvm_virq` and `release_gvm_virq` are foreign calls, treated the same way.
- `host_vdev_init` is taken to record `base` as `vdev->gvm_paddr`. Its body is not part of this model.
- The backend side of `trap_mmio_write` and `trap_mmio_write_nonblock` is a cross-context rendezvous. Only the emitted event is recorded.
- The assignments of the read, write, deinit and reset handlers (lines 207-210) are not modelled. Neither is `virtio_dev_deinit` (lines 165-170), which only forwards to `release_virtio_dev`. Neither is `virtio_dev_reset` (lines 172-175), which only logs.
- `pr_warn`, `pr_error` and `pr_info` logging is left out.
- Concurrent writes from several vCPUs are left out. The model has a single sequential caller.
- In these places the code is more permissive, or leaks more, than a reader might expect. The model follows the code:
  - after a failed guest mapping, `*hbase` keeps the host mapping's address;
  - a failed init never gives back the guest range;
  - a failed guest mapping never undoes the host mapping;
  - deinit undoes no mapping;
  - `release_virtio_dev` calls `vdev_release` even when `host_vdev_init` failed;
  - `release_virtio_dev` releases a negative line returned by `alloc_gvm_virq`;
  - no lower bound is checked on a device's base, and nothing stops a window from running past the aperture's end;
  - PAGE_BALIGN wraps to 0 for sizes within a page of 2^64;
  - QUEUE_NUM is never bounded by QUEUE_NUM_MAX;
  - a guest can aim GUEST_FEATURES at any word of the window through an unbounded selector.
- The values of the hypervisor-private offsets are chosen here. The lemmas about reachability hold for every word of the window, but the three examples in FeatureTargetExamples are for the chosen values only.
  The lemmas above state each of these.
