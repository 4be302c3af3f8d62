# LogJumps reductions and XDMA scatter-gather engine: a verified model

Two parts of the repository are modelled and proved.

**LogJumps.** Five ways to reduce C modulo an odd N, all meant to return C * R^-1 mod N: sequential jumps, a parallel
dot product, the same with a subtraction tree, and two versions that compute the Montgomery quotient early. `Arith`
holds powers, congruences and inverses; `Limbs`, `Montgomery` and `Params` the helpers and the parameters;
`Sequential`, `Parallel`, `LogJumps` the reductions, their refinements and their agreement; `ShortLimb` and
`ParallelLimb` the last limbs for which they are right; `Testbench` the golden model of the multiplier. The word size,
the number of limbs, N and the length of the last limb are parameters. A result is specified without an inverse: 0 <=
r < N and r * R congruent to C, which odd N makes unique.

Two promises of the script do not hold for all its inputs, and each has its exact condition. The stated numbers of
last subtractions can be too few when rem, the bits of N left over for the last limb, is not 0
(`LogJumps.ShortLastLimbFails`). On the parameters: for every odd N of a given rem and every input, the sequential
path is right if and only if rem is 0 or w - 1 (`ShortLimb.SequentialEnoughIff`), the three tree paths if and only if
rem is 0 (`ShortLimb.TreeEnoughIff`), and the plain parallel path on n limbs if and only if rem is 0 or (n-1)(2^w - 1)
<= (n + rem - 1) * 2^rem + 2, so over all lengths if and only if rem is 0 (`ParallelLimb.ParallelEnoughIff`,
`ParallelLimb.ParallelAlwaysIff`). On a single input, `LogJumps.ExactlyWhenExpected` compares the value before the
last subtractions with a multiple of N. The comment that three subtractions suffice on the sequential path (line 158)
thus holds for rem = 0, where two do, and rem = w - 1, and for no rem in between. When C has fewer than n - 1 limbs
the dot product is not defined (`LogJumps.ShortInputFails`); `Parallel.AlignedIff` gives the condition.

**XDMA.** A user buffer is cut into pages (`PageMap`) and into pieces of bounded length (`Split`), which go into a
ring of hardware descriptors (`RingSlots`, `Ring`, with `Control` and `Descriptor` for the words and the walk of the
hardware). `Service` and `Engine` hold the transfer queue, its completion accounting and the wait for a transfer.
`Submit` runs a request through both, transfer by transfer, and `UserTransfer` goes from the read or write call down
to the copies made; `Aperture` is the loop that wraps device addresses in a window. Methods update the ring, the
requests and the queue in place, under invariants that hold over every sequence of calls. Each function the driver
runs under a lock is one atomic step; status words, counts and shutdown requests are inputs, and what becomes of a
transfer follows from them. A ghost log of the ring records every descriptor the hardware was started on; it grows
where the engine is started and nowhere else, and what a request does is said of that log. `RingSlots` counts the
descriptors of live transfers, which is desc_used as long as no transfer was refused. Device addresses are counted
modulo 2^64 and lengths modulo 2^32, as in the driver. The two halves of an address are one field, and byte order is
that of the machine.

Where the driver falls short of what it is for, the exact condition is proved: buffers of 2^32 bytes and more are
always refused (`PageMap.MapUserBuf`); the piece count of an entry is too small exactly when a 32-bit sum wraps
(`Split.EntryFitsIff`), and that of a list exactly when its other entries do not make up for it
(`Split.AllocationBalance`); a transfer the queue refuses stays counted in desc_used (`Submit.XferSubmit`); an
adjacent count is merged with two old bits (`Control.CountDecodesIff`); an engine that stops and reports no
descriptors is left stopped with a queue, and so are the transfers behind an aborted one
(`Service.StepKeepsConsistentIff`); an aperture pass maps the wrong bytes exactly when an entry was used up before it
(`Aperture.NextPassRightIff`, `Aperture.RunRoomsIff`), and one that finds nothing left by count links past its slots
(`Aperture.EmptyPassIff`, `Aperture.ThreePasses`).

## Model

| member | source | states |
|---|---|---|
| `Limbs.BitLengthBounds` | logjumps-hw/src/python/logjumps.py:68 | a positive value of bit length b lies in [2^(b-1), 2^b) |
| `Limbs.WeightIsShift` | logjumps-hw/src/python/logjumps.py:52-83 | the weight W^i used for limb i is a shift by w * i bits |
| `Limbs.LimbCount` | logjumps-hw/src/python/logjumps.py:66-69 | the number of limbs is exact: one fewer is too few |
| `Limbs.RoundTrip` | logjumps-hw/src/python/logjumps.py:55-83 | limbs to integer undoes integer to limbs for every value and word size; every limb is below 2^w and the top one is not zero unless the value is |
| `Limbs.RoundTripLimbs` | logjumps-hw/src/python/logjumps.py:55-83 | the other direction: every normal limb list is recovered from its value |
| `Limbs.SplitValue` | logjumps-hw/src/python/logjumps.py:179-180 | cutting a limb list at k gives value(low) + W^k * value(high) |
| `Limbs.PadKeepsValue` | logjumps-hw/src/rtl/logjumps.sv:351-361 | zero limbs on top up to the fixed width the hardware slices keep the value; the width is exactly the one asked for unless there are more limbs already |
| `Montgomery.MontgomeryStep` | logjumps-hw/src/python/logjumps.py:105-108 | the shift is exact: V * 2^s = T + m * N, so V * 2^s is congruent to T, and V is not negative when T is not |
| `Montgomery.StepBound` | logjumps-hw/src/python/logjumps.py:105-108 | T below b * 2^s * N gives V below (b + 1) * N |
| `Montgomery.ConditionalSubtract` | logjumps-hw/src/python/logjumps.py:123-126 | the loop computes its specification function |
| `Montgomery.CondSubValue` | logjumps-hw/src/python/logjumps.py:111-126 | k conditional subtractions give value mod N exactly while value < (k + 1) * N, otherwise value - k * N |
| `Montgomery.FinalSubtraction` | logjumps-hw/src/python/logjumps.py:111-126 | for V * R congruent to C, k subtractions give the reduced value if and only if V < (k + 1) * N |
| `Montgomery.ReducedUnique` | logjumps-hw/src/python/logjumps.py:457-458 | for odd N and R a power of two there is at most one r in [0, N) with r * R congruent to C |
| `Sequential.JumpInvariant` | logjumps-hw/src/python/logjumps.py:145-149 | through all jumps T_k * W^k is congruent to C and at most C + (N-1)(W^(k+1) - W) |
| `Sequential.SequentialBound` | logjumps-hw/src/python/logjumps.py:151-156 | the value before the last subtractions is below (2 + W / 2^shift) * N |
| `Sequential.SequentialExact` | logjumps-hw/src/python/logjumps.py:151-159 | three subtractions are right if and only if the last step lands below 4N; rem = 0 and rem = w - 1 guarantee it, and for rem = 0 two are enough |
| `Sequential.SequentialReduce` | logjumps-hw/src/python/logjumps.py:133-159 | the loop as written: its value, the exact condition for being C * R^-1 mod N, and the cases where it always is |
| `Parallel.AlignedIff` | logjumps-hw/src/python/logjumps.py:176-184 | the dot product is defined if and only if n <= 2 or C >= W^(n-2) |
| `Parallel.RawSumCong` | logjumps-hw/src/python/logjumps.py:176-184 | the reversed-rho dot product plus high part is C * W^-(n-1) modulo N |
| `Parallel.RawSumBound` | logjumps-hw/src/python/logjumps.py:176-184 | it lies between 0 and (N-1)((n-1)(W-1) + 2^shift) |
| `Parallel.ParallelExact` | logjumps-hw/src/python/logjumps.py:166-193 | right if and only if the last step lands below (n + rem + 1) * N; always for rem = 0 and whenever (n-1)(W-1) <= (n+rem-1) * 2^rem |
| `Parallel.TreeIsModulo` | logjumps-hw/src/python/logjumps.py:219-220 | for every rem the tree stage reduces a sum below n * N * W to the sum modulo N * W |
| `Parallel.TreeExact` | logjumps-hw/src/python/logjumps.py:199-229 | right if and only if the reduced sum's last step lands below 2N; it lands below (1 + 2^(w-shift)) * N, and rem = 0 is always right |
| `Parallel.TreeKeepsLowBits` | logjumps-hw/src/python/logjumps.py:274-300 | subtracting any number of N * W leaves the low shift bits alone |
| `Parallel.FusedRefinesTree` | logjumps-hw/src/python/logjumps.py:236-313 | on all inputs and every rem the fused quotient is the one after the tree, and the fused reduction equals the tree reduction |
| `Parallel.RhoFusedRefinesFused` | logjumps-hw/src/python/logjumps.py:320-399 | on all inputs and every rem pushing the modulus into the sum gives the same quotient and result |
| `LogJumps.MakeConfigValid` | logjumps-hw/src/python/logjumps.py:426-436 | all modular inverses needed exist if and only if N is odd, and then the parameters are consistent |
| `LogJumps.SetupValid` | logjumps-hw/src/python/logjumps.py:419-436 | the setup succeeds if and only if N is odd; then R = 2^bit_length(N) and rem = bit_length(N) mod w |
| `LogJumps.ExpectedIff` | logjumps-hw/src/python/logjumps.py:457-458 | a value is reduced if and only if it is the expected one, C * R^-1 mod N |
| `LogJumps.ExactlyWhenExpected` | logjumps-hw/src/python/logjumps.py:442-483 | for every rem: if and only if conditions under which each path returns the expected value, the shape error on short inputs, and equality of the three tree paths |
| `LogJumps.FullLimbsAgree` | logjumps-hw/src/python/logjumps.py:442-483 | with rem = 0 all five return the expected value on every input long enough; the sequential one on every input |
| `LogJumps.AllFiveAgree` | logjumps-hw/src/python/logjumps.py:417-483 | one turn of the test loop for any odd N whose bit length w divides and any C it may draw: no mismatch, short inputs aside |
| `LogJumps.ShortLastLimbFails` | logjumps-hw/src/python/logjumps.py:417-483 | N = 17, w = 4, C = 495: expected 16, the sequential and parallel paths give 84, the tree paths 118 |
| `LogJumps.ShortInputFails` | logjumps-hw/src/python/logjumps.py:176-184 | N = 4095, w = 4, C = 5: the dot product gets vectors of different lengths, the sequential path is right |
| `ShortLimb.SequentialEnoughIff` | logjumps-hw/src/python/logjumps.py:151-159 | for all word sizes and rem: three subtractions are right for every odd N of that rem and every input if and only if rem is 0 or w - 1 |
| `ShortLimb.TreeEnoughIff` | logjumps-hw/src/python/logjumps.py:219-229 | for all word sizes and rem: one subtraction after the tree is right for every odd N of that rem and every input long enough, in all three tree forms, if and only if rem is 0 |
| `ParallelLimb.RawSumTight` | logjumps-hw/src/python/logjumps.py:176-184 | for every odd N and every input the dot product plus high part is at most ((n-1)(W-1) - 1 + 2^shift) * N - 2^shift |
| `ParallelLimb.ParallelEnoughIff` | logjumps-hw/src/python/logjumps.py:166-193 | for all word sizes, numbers of limbs and rem: n + rem subtractions are right for every odd N of n limbs and that rem and every input long enough if and only if rem is 0 or (n-1)(2^w - 1) <= (n + rem - 1) * 2^rem + 2 |
| `ParallelLimb.ParallelAlwaysIff` | logjumps-hw/src/python/logjumps.py:166-193 | over all lengths of N they are right if and only if rem is 0 |
| `Testbench.HardwareConfigValid` | logjumps-hw/src/vivado/modmul_tb.py:16-22 | for every odd Q and word size the parameters with full limbs exist, are consistent, and R = 2^(w * ceil(bits / w)) > Q |
| `Testbench.GoldenReduced` | logjumps-hw/src/vivado/modmul_tb.py:24-25 | the golden value is the number below Q that R multiplies to A * B modulo Q |
| `Testbench.ReductionsMatchGolden` | logjumps-hw/src/vivado/modmul_tb.py:24-25 | tree, fused, rho-fused, plain and sequential reductions of the padded product A * B all equal the golden value for all A, B below Q |
| `Testbench.HardwareMatchesGolden` | logjumps-hw/src/vivado/modmul_tb.py:16-25 | from the modulus alone, odd Q of any bit length and any word size: all five reductions of the padded product equal the golden value |
| `Testbench.GoldenIdentity` | logjumps-hw/src/vivado/modmul_tb.py:39-43 | R mod Q is the identity of the golden product |
| `Control.ControlSetDecodes` | fpga_template_u280/sw/dma/dma_ip_drivers/XDMA/linux-kernel/xdma/libxdma.c:2339-2353 | the flags are set as asked, magic and count kept; anything wider than a byte is refused |
| `Control.SetAdjacentCount` | fpga_template_u280/sw/dma/dma_ip_drivers/XDMA/linux-kernel/xdma/libxdma.c:2328-2336 | the count read is the new one merged with the old bits 12 and 13, which the mask lets through |
| `Control.CountDecodesIff` | fpga_template_u280/sw/dma/dma_ip_drivers/XDMA/linux-kernel/xdma/libxdma.c:2328-2336 | the count reads back as set if and only if those old bits are bits of the new count |
| `Control.SecondCountMerges` | fpga_template_u280/sw/dma/dma_ip_drivers/XDMA/linux-kernel/xdma/libxdma.c:2328-2336 | setting 16 and then 1 reads back as 17 |
| `Control.ControlWord` | fpga_template_u280/sw/dma/dma_ip_drivers/XDMA/linux-kernel/xdma/libxdma.c:3007-3034 | the word transfer_init leaves decodes to magic, flags and count |
| `Control.ControlWordBits` | fpga_template_u280/sw/dma/dma_ip_drivers/XDMA/linux-kernel/xdma/libxdma.h:177-179 | the word as a number: 0xAD4B on top, the count from bit 8 on, and on the last descriptor bits 0, 1 and 4 |
| `Descriptor.GetNextAdj` | fpga_template_u280/sw/dma/dma_ip_drivers/XDMA/linux-kernel/xdma/libxdma.c:647-663 | the largest count that neither leaves the aligned block of 64 nor runs past the remaining descriptors |
| `Descriptor.SlotInPage` | fpga_template_u280/sw/dma/dma_ip_drivers/XDMA/linux-kernel/xdma/libxdma.c:657-661 | the low address bits give the ring slot modulo 64, so blocks follow slots |
| `Descriptor.WalkVisitsAll` | fpga_template_u280/sw/dma/dma_ip_drivers/XDMA/linux-kernel/xdma/libxdma.c:3027-3034 | following counts and next pointers from the first descriptor visits every descriptor of a transfer once, in order, and stops; no fetched block crosses 64 slots or a page |
| `Descriptor.WalkFetches` | fpga_template_u280/sw/dma/dma_ip_drivers/XDMA/linux-kernel/xdma/libxdma.c:681-776 | what the hardware fetches when started on a transfer is its descriptors, in order |
| `Descriptor.StopsAtLast` | fpga_template_u280/sw/dma/dma_ip_drivers/XDMA/linux-kernel/xdma/libxdma.c:3007-3013 | each of the bits stop (0), completed (1) and end of packet (4) is set on the last descriptor of a transfer and on no other |
| `RingSlots.ChunkSize` | fpga_template_u280/sw/dma/dma_ip_drivers/XDMA/linux-kernel/xdma/libxdma.c:2965-2997 | a transfer takes at least one of the remaining descriptors, never runs past the ring end, and leaves some only at the ring end |
| `RingSlots.LiveSlotsEndAtIdx` | fpga_template_u280/sw/dma/dma_ip_drivers/XDMA/linux-kernel/xdma/libxdma.c:2985-3025 | the live slots are the desc_used consecutive ring slots ending at desc_idx |
| `RingSlots.LiveSlotsDistinctIff` | fpga_template_u280/sw/dma/dma_ip_drivers/XDMA/linux-kernel/xdma/libxdma.c:2994-3025 | no two live descriptors share a slot if and only if desc_used <= desc_max |
| `RingSlots.LiveTransfersDisjoint` | fpga_template_u280/sw/dma/dma_ip_drivers/XDMA/linux-kernel/xdma/libxdma.c:2962-3038 | different live transfers share no slot while desc_used <= desc_max |
| `RingSlots.ReleaseKeeps` | fpga_template_u280/sw/dma/dma_ip_drivers/XDMA/linux-kernel/xdma/libxdma.c:3665-3666 | releasing the oldest transfer keeps the layout of the rest and lowers desc_used by its count |
| `RingSlots.RunKeepsLayout` | fpga_template_u280/sw/dma/dma_ip_drivers/XDMA/linux-kernel/xdma/libxdma.c:2962-3038 | over every interleaving of allocations and oldest-first releases the live transfers are consecutive, none wraps inside, and they are disjoint exactly while desc_used <= desc_max |
| `RingSlots.TwoTransfersIff` | fpga_template_u280/sw/dma/dma_ip_drivers/XDMA/linux-kernel/xdma/libxdma.c:3917-3976 | tfer[2] is enough if and only if the descriptors fit the rest of the ring and one more turn, so always for at most desc_max of them |
| `Ring.DescriptorRing.TransferDescInit` | fpga_template_u280/sw/dma/dma_ip_drivers/XDMA/linux-kernel/xdma/libxdma.c:2261-2287 | links count descriptors in place, ends the list, touches nothing else |
| `Ring.DescriptorRing.TransferBuild` | fpga_template_u280/sw/dma/dma_ip_drivers/XDMA/linux-kernel/xdma/libxdma.c:2923-2959 | fills in addresses by direction and lengths, advances the 64-bit device address unless it is fixed, and the request |
| `Ring.DescriptorRing.FillAdjacent` | fpga_template_u280/sw/dma/dma_ip_drivers/XDMA/linux-kernel/xdma/libxdma.c:3027-3034 | merges every adjacent count in place, keeping all else |
| `Ring.DescriptorRing.BuildChunk` | fpga_template_u280/sw/dma/dma_ip_drivers/XDMA/linux-kernel/xdma/libxdma.c:2999-3034 | all four stages leave the finished descriptors and nothing else changed |
| `Ring.DescriptorRing.TransferInit` | fpga_template_u280/sw/dma/dma_ip_drivers/XDMA/linux-kernel/xdma/libxdma.c:2962-3038 | the chunk is built in place, index and use count advance, and no live transfer's chain is disturbed while the ring is not overcommitted |
| `Ring.DescriptorRing.Release` | fpga_template_u280/sw/dma/dma_ip_drivers/XDMA/linux-kernel/xdma/libxdma.c:2902-2905 | the oldest transfer's descriptors are cleared, every other live chain is intact |
| `Ring.DescriptorRing.LiveTransfersWalkable` | fpga_template_u280/sw/dma/dma_ip_drivers/XDMA/linux-kernel/xdma/libxdma.c:681-776 | at any time, starting the hardware on any live transfer visits exactly its slots |
| `Ring.DescriptorRing.HardwareFetch` | fpga_template_u280/sw/dma/dma_ip_drivers/XDMA/linux-kernel/xdma/libxdma.c:728-752 | what the hardware fetches for a live transfer is the ring content it occupies |
| `Ring.DescriptorRing.HardwareStart` | fpga_template_u280/sw/dma/dma_ip_drivers/XDMA/linux-kernel/xdma/libxdma.c:715-775 | the hardware started on a live transfer adds to the log exactly the descriptors in its slots |
| `PageMap.PageCount` | fpga_template_u280/sw/dma/dma_ip_drivers/XDMA/linux-kernel/xdma/cdev_sgdma.c:282-284 | below 2^32 bytes the page count is ceil((offset + len) / page) |
| `PageMap.PiecesCover` | fpga_template_u280/sw/dma/dma_ip_drivers/XDMA/linux-kernel/xdma/cdev_sgdma.c:305-341 | the pieces of the first i pages are the bytes of the buffer up to there, each once and in order |
| `PageMap.MapUserBuf` | fpga_template_u280/sw/dma/dma_ip_drivers/XDMA/linux-kernel/xdma/cdev_sgdma.c:276-348 | succeeds if and only if len < 2^32 (and not an empty buffer at a page start); then the entries are the one piece of each page, and cover the buffer byte by byte |
| `Split.SplitKeepsBytes` | fpga_template_u280/sw/dma/dma_ip_drivers/XDMA/linux-kernel/xdma/libxdma.c:3123-3140 | splitting keeps every byte at its address in order, with pieces of 1 to desc_blen_max bytes |
| `Split.EntryBalance` | fpga_template_u280/sw/dma/dma_ip_drivers/XDMA/linux-kernel/xdma/libxdma.c:3106-3139 | what one entry leaves over of the descriptors counted for it, or lacks: it lacks some if and only if the 32-bit sum wraps |
| `Split.EntryFitsIff` | fpga_template_u280/sw/dma/dma_ip_drivers/XDMA/linux-kernel/xdma/libxdma.c:3106-3111 | for one entry the allocation is enough if and only if the 32-bit sum does not wrap |
| `Split.AllocationBalance` | fpga_template_u280/sw/dma/dma_ip_drivers/XDMA/linux-kernel/xdma/libxdma.c:3106-3146 | for a list the allocation exceeds the pieces by the sum of what its entries leave over or lack |
| `Split.LongEntryIsShort` | fpga_template_u280/sw/dma/dma_ip_drivers/XDMA/linux-kernel/xdma/libxdma.c:3106-3111 | one entry of 2^32 - 1 bytes with the default piece length lacks 16 descriptors |
| `Split.NoWrapIsEnough` | fpga_template_u280/sw/dma/dma_ip_drivers/XDMA/linux-kernel/xdma/libxdma.c:3106-3146 | without wrap-around nothing is ever short |
| `Split.CountDescriptors` | fpga_template_u280/sw/dma/dma_ip_drivers/XDMA/linux-kernel/xdma/libxdma.c:3106-3115 | the counting loop computes the allocation |
| `Split.SplitEntry` | fpga_template_u280/sw/dma/dma_ip_drivers/XDMA/linux-kernel/xdma/libxdma.c:3124-3139 | the inner loop appends exactly the pieces of one entry, as far as there is room |
| `Split.InitRequest` | fpga_template_u280/sw/dma/dma_ip_drivers/XDMA/linux-kernel/xdma/libxdma.c:3097-3153 | for every list: takes the error branch if and only if the allocation is short, and otherwise returns the split of the whole list; its length is counted modulo 2^32 |
| `Submit.BuiltCarriesOut` | fpga_template_u280/sw/dma/dma_ip_drivers/XDMA/linux-kernel/xdma/libxdma.c:2932-2944 | the descriptors of one transfer move its pieces, one each and in order, between host and device, the device address running on or fixed |
| `Submit.CarriedMap` | fpga_template_u280/sw/dma/dma_ip_drivers/XDMA/linux-kernel/xdma/libxdma.c:2932-2944 | descriptors that move pieces in order pair host byte k of them with device address ep + k |
| `Submit.CarriedFixed` | fpga_template_u280/sw/dma/dma_ip_drivers/XDMA/linux-kernel/xdma/libxdma.c:2938-2940 | with a fixed device address every descriptor is at that address |
| `Submit.AccountBalances` | fpga_template_u280/sw/dma/dma_ip_drivers/XDMA/linux-kernel/xdma/libxdma.c:3553-3694 | over every answer of the hardware: completed <= given to the hardware <= built; a refused transfer was built only; the error is -EIO if and only if the last transfer taken off failed, -ERESTARTSYS if and only if it was aborted, and 0 if and only if everything completed |
| `Submit.CompletesAllIff` | fpga_template_u280/sw/dma/dma_ip_drivers/XDMA/linux-kernel/xdma/libxdma.c:3553-3677 | a request ends without an error if and only if no shutdown was asked for and every transfer it needs is accepted and completes |
| `Submit.Begin` | fpga_template_u280/sw/dma/dma_ip_drivers/XDMA/linux-kernel/xdma/libxdma.c:3558-3590 | the next transfer is built and queued; the log grows by its descriptors, which move its pieces, if and only if the queue accepted it |
| `Submit.Complete` | fpga_template_u280/sw/dma/dma_ip_drivers/XDMA/linux-kernel/xdma/libxdma.c:3595-3666 | the transfer leaves the queue in the state of its fate, its slots are free and the engine is idle; the error follows from the fate |
| `Submit.Turn` | fpga_template_u280/sw/dma/dma_ip_drivers/XDMA/linux-kernel/xdma/libxdma.c:3553-3677 | both halves: what the log, the ring, the request and the queue are after one turn of the loop |
| `Submit.SubmitLoop` | fpga_template_u280/sw/dma/dma_ip_drivers/XDMA/linux-kernel/xdma/libxdma.c:3551-3694 | over every answer of the hardware: new log entries carry out exactly the first pieces, as many as the account says were handed over; the ring index, the queue history and the result are those of the account |
| `Submit.XferSubmit` | fpga_template_u280/sw/dma/dma_ip_drivers/XDMA/linux-kernel/xdma/libxdma.c:3540-3694 | the same from the scatter list: error codes for an empty list and a short allocation, with nothing changed; otherwise the bytes of the completed transfers or the error, a log that moves the first pieces of the list in order, and desc_used higher by what was built and not handed over; ring and engine are ready for the next request |
| `Submit.ReportedBytes` | fpga_template_u280/sw/dma/dma_ip_drivers/XDMA/linux-kernel/xdma/libxdma.c:3540-3694 | the bytes the hardware moves are a prefix of the request next to ep, ep + 1, ..., as long as the pieces handed over, and all of it if they all are |
| `UserTransfer.ScatterBytes` | fpga_template_u280/sw/dma/dma_ip_drivers/XDMA/linux-kernel/xdma/cdev_sgdma.c:330-341 | the scatter list holds the buffer bytes at their bus addresses, in order |
| `UserTransfer.MisalignedIff` | fpga_template_u280/sw/dma/dma_ip_drivers/XDMA/linux-kernel/xdma/cdev_sgdma.c:183-231 | for powers of two the masks refuse exactly what is misaligned: buffer and device address that differ modulo the alignment, or with a fixed device address any of buffer, address and length that is no multiple |
| `UserTransfer.ReadWrite` | fpga_template_u280/sw/dma/dma_ip_drivers/XDMA/linux-kernel/xdma/cdev_sgdma.c:356-405 | from a user buffer to the log: refused exactly when it is misaligned or cannot be mapped, with nothing changed; otherwise the hardware makes a prefix of the copies wanted, as long as the pieces handed over, or stays at a fixed device address; without an error all of them, and len is returned |
| `Service.CompletesIff` | fpga_template_u280/sw/dma/dma_ip_drivers/XDMA/linux-kernel/xdma/libxdma.c:827-1009 | a pass completes exactly j transfers and fails none if and only if the count is the sum of the first j (j >= 1) or more than the whole queue |
| `Service.FailsIff` | fpga_template_u280/sw/dma/dma_ip_drivers/XDMA/linux-kernel/xdma/libxdma.c:827-1009 | it completes those before transfer j and fails j if and only if the count falls inside j; the very start counts as inside only for the head |
| `Service.ErrorFailsIff` | fpga_template_u280/sw/dma/dma_ip_drivers/XDMA/linux-kernel/xdma/libxdma.c:827-945 | with an error it completes the transfers the count exceeds and fails the next one however far the hardware got |
| `Service.ErrorBit` | fpga_template_u280/sw/dma/dma_ip_drivers/XDMA/linux-kernel/xdma/libxdma.h:117-174 | bit by bit, which status bits fail a transfer: 3 to 5, 19 to 23, and 9 to 15 towards the device or 9 and 10 from it |
| `Service.ErrorJoin` | fpga_template_u280/sw/dma/dma_ip_drivers/XDMA/linux-kernel/xdma/libxdma.c:938-945 | a status fails a transfer if and only if one of its bits does |
| `Service.StatusSource` | fpga_template_u280/sw/dma/dma_ip_drivers/XDMA/linux-kernel/xdma/libxdma.c:1121-1131 | the status register decides if the write-back has no count or flags an error, and does not matter otherwise |
| `Service.CountSource` | fpga_template_u280/sw/dma/dma_ip_drivers/XDMA/linux-kernel/xdma/libxdma.c:1147-1154 | the count register does not matter if the write-back has a count |
| `Service.StepOutcome` | fpga_template_u280/sw/dma/dma_ip_drivers/XDMA/linux-kernel/xdma/libxdma.c:1098-1204 | what a running engine is after any call, from what the hardware said: what is taken off and how, stopped, started again or going on, the status, and the dequeued count with every transfer taken off in it, a failed one too |
| `Service.PassAccounts` | fpga_template_u280/sw/dma/dma_ip_drivers/XDMA/linux-kernel/xdma/libxdma.c:1098-1204 | a count that ends transfer k completes exactly those k and makes desc_dequeued equal to it, before a restart |
| `Service.PassIsThreeCalls` | fpga_template_u280/sw/dma/dma_ip_drivers/XDMA/linux-kernel/xdma/libxdma.c:1182-1199 | loop, final transfer and resume together are the pass the other results speak of |
| `Service.StepKeepsConsistentIff` | fpga_template_u280/sw/dma/dma_ip_drivers/XDMA/linux-kernel/xdma/libxdma.c:1098-1204 | a service step keeps "running exactly while transfers are queued" if and only if an engine that stopped reports a nonzero count; an abort if and only if no transfer is queued behind |
| `Service.FifoConserved` | fpga_template_u280/sw/dma/dma_ip_drivers/XDMA/linux-kernel/xdma/libxdma.c:1054-1204 | over every run of queueing, service and aborts, whatever the hardware answers, transfers retired and then those queued are the transfers accepted, in order, each once |
| `Service.RunsWhileQueued` | fpga_template_u280/sw/dma/dma_ip_drivers/XDMA/linux-kernel/xdma/libxdma.c:1054-1204 | over every run in which the hardware reports and only lone transfers are aborted, the engine runs exactly while transfers are queued |
| `Service.HonestRunsNeverFail` | fpga_template_u280/sw/dma/dma_ip_drivers/XDMA/linux-kernel/xdma/libxdma.c:827-1204 | over every run without aborts in which every nonzero count ends a transfer and shows no error, every transfer taken off is completed |
| `Service.AloneOutcomeIff` | fpga_template_u280/sw/dma/dma_ip_drivers/XDMA/linux-kernel/xdma/libxdma.c:827-1022 | a transfer alone on the queue completes if and only if the count, from the write-back or else the register, is its own without an error, or more; then the engine is idle |
| `Service.WaitDecides` | fpga_template_u280/sw/dma/dma_ip_drivers/XDMA/linux-kernel/xdma/libxdma.c:3595-3662 | over every sequence of service calls a waiter sees, the transfer leaves the queue completed, failed or aborted as its fate says, and the engine is idle |
| `Engine.Engine.EngineStart` | fpga_template_u280/sw/dma/dma_ip_drivers/XDMA/linux-kernel/xdma/libxdma.c:681-776 | starts only an idle engine with a queue, and resets the dequeued count; the log grows by the descriptors of the first transfer if and only if it starts |
| `Engine.Engine.TransferQueue` | fpga_template_u280/sw/dma/dma_ip_drivers/XDMA/linux-kernel/xdma/libxdma.c:2447-2524 | error codes, or the transfer is appended and an idle engine started, which is when the log grows |
| `Engine.Engine.ServiceTransferList` | fpga_template_u280/sw/dma/dma_ip_drivers/XDMA/linux-kernel/xdma/libxdma.c:827-884 | terminates with the queue length and leaves at most the head's descriptors of the count |
| `Engine.Engine.ServiceFinalTransfer` | fpga_template_u280/sw/dma/dma_ip_drivers/XDMA/linux-kernel/xdma/libxdma.c:916-1022 | the head is completed, or failed on an error or a short count |
| `Engine.Engine.ServiceResume` | fpga_template_u280/sw/dma/dma_ip_drivers/XDMA/linux-kernel/xdma/libxdma.c:1054-1088 | restarts, goes on or stops, with the shutdown flags; the log grows exactly on a restart |
| `Engine.Engine.NoteStatus` | fpga_template_u280/sw/dma/dma_ip_drivers/XDMA/linux-kernel/xdma/libxdma.c:1121-1143 | the status is read if asked to, and an engine that is idle or has written back is stopped |
| `Engine.Engine.EngineService` | fpga_template_u280/sw/dma/dma_ip_drivers/XDMA/linux-kernel/xdma/libxdma.c:1098-1204 | is the step function on what the hardware answers; no transfer is lost, doubled or reordered, and the log grows exactly when the engine is started again |
| `Engine.Engine.AbortTransfer` | fpga_template_u280/sw/dma/dma_ip_drivers/XDMA/linux-kernel/xdma/libxdma.c:3641-3653 | the head is taken off as aborted and the engine stopped |
| `Engine.Engine.Await` | fpga_template_u280/sw/dma/dma_ip_drivers/XDMA/linux-kernel/xdma/libxdma.c:3595-3662 | the wait with its service calls ends in the fate of the transfer, with the engine idle |
| `Arith.MaskIsModulo` | fpga_template_u280/sw/dma/dma_ip_drivers/XDMA/linux-kernel/xdma/libxdma.c:3270 | the mask with a power of two less one is the remainder |
| `Aperture.FillMaps` | fpga_template_u280/sw/dma/dma_ip_drivers/XDMA/linux-kernel/xdma/libxdma.c:3273-3319 | from a cursor inside the first entry a pass maps the host bytes from there on, in order, to consecutive window positions, every piece nonempty and inside the window; it stops inside an entry only for a full ring |
| `Aperture.FillFits` | fpga_template_u280/sw/dma/dma_ip_drivers/XDMA/linux-kernel/xdma/libxdma.c:3284-3310 | from any cursor every descriptor is nonempty, inside the window and no longer than the longest piece |
| `Aperture.PassKeepsAligned` | fpga_template_u280/sw/dma/dma_ip_drivers/XDMA/linux-kernel/xdma/libxdma.c:3268-3319 | the offset stays where the cursor stands, as long as no entry was used up before the pass |
| `Aperture.PassIsRight` | fpga_template_u280/sw/dma/dma_ip_drivers/XDMA/linux-kernel/xdma/libxdma.c:3268-3319 | for a power of two and a request that has used up no entry: every descriptor of the pass is inside the window and request byte k goes to base + k mod aperture |
| `Aperture.NextPassRightIff` | fpga_template_u280/sw/dma/dma_ip_drivers/XDMA/linux-kernel/xdma/libxdma.c:3268-3319 | for nonempty entries at distinct bytes and every state whose offset is where its cursor stands: the next pass maps the bytes that come next, to their addresses, if and only if no entry was used up before it and the mask is the remainder |
| `Aperture.RunRightIff` | fpga_template_u280/sw/dma/dma_ip_drivers/XDMA/linux-kernel/xdma/libxdma.c:3236-3319 | over any number of passes, empty ones included: each builds something and maps the right bytes if and only if each finds the first entry unfinished and the mask is the remainder |
| `Aperture.RunRoomsIff` | fpga_template_u280/sw/dma/dma_ip_drivers/XDMA/linux-kernel/xdma/libxdma.c:3236-3319 | for a fresh request and a power of two, of the free slots alone: all passes do so if and only if the slots of all but the last are fewer than the pieces of the first entry |
| `Aperture.EmptyPassIff` | fpga_template_u280/sw/dma/dma_ip_drivers/XDMA/linux-kernel/xdma/libxdma.c:3273-3326 | a pass builds nothing, and its link loop runs past its slots, if and only if the entries are used up by count or the cursor is at the end of the only one left |
| `Aperture.ApertureRequest.EntryPieces` | fpga_template_u280/sw/dma/dma_ip_drivers/XDMA/linux-kernel/xdma/libxdma.c:3284-3310 | the inner loop with its running address and wrap test builds the pieces the function describes |
| `Aperture.ApertureRequest.BuildPass` | fpga_template_u280/sw/dma/dma_ip_drivers/XDMA/linux-kernel/xdma/libxdma.c:3268-3319 | from any state, the loop as written builds the descriptors of the pass function and leaves its cursor; none is longer than desc_blen_max or leaves the window |
| `Aperture.ThreePasses` | fpga_template_u280/sw/dma/dma_ip_drivers/XDMA/linux-kernel/xdma/libxdma.c:3236-3319 | entries of 4 and 8 bytes, a ring with one slot left: three passes as written; the second reads the first entry again, the third builds nothing with 8 of 12 bytes accounted for |

## Left out

- Fixed-width behaviour of the NumPy dot product: sums are mathematical integers.
- Random primes, progress bars and printing of the test loop, and the file the test vectors are written to.
- N = 0 and negative inputs: the setup needs a modulus, and all values the script reduces are non-negative.
- Negative shifts and word size 0: the script has none.
- RTL pipelines, registers and area.
- MMIO registers, interrupts, locks and wait queues: status words and counts are parameters; a wait is the service calls that happen before it ends.
- Streaming mode, end-of-packet flushing, credits, cyclic transfers and the offline flag.
- Fixed device addresses (non-incremental mode): `Submit.XferSubmit` covers both modes piece by piece; the byte maps of `Submit` and `UserTransfer` are about the incremental one.
- Aborting a transfer that is not at the head of the queue, which synchronous requests never do; and a register dump that fails before an abort, which would skip it.
- Memory allocation, page pinning and user copies, and their failures; DMA mapping keeps entries and their order.
- The field desc_cmpl of a transfer, which only streaming mode reads.
- Shutdown requests in the run lemmas of `Service`, which are about accepted transfers; a shutdown that stops the engine while a transfer is waited for.
- Control.ControlWord: is about the words transfer_init builds; descriptors built by the performance test are not modelled.
- RingSlots.RunKeepsLayout: releases are oldest first; completions of asynchronous requests in another order are not modelled.
- Submit.XferSubmit: starts with no transfer live in the ring or queued, which the descriptor mutex arranges for synchronous requests and every request leaves so. The returned length is stated for requests below 2^32 bytes, which is all the page mapping lets through; what the hardware is given is stated for all. The checks of null handles, channel numbers and direction before it are not modelled.
- Split.InitRequest: when the allocation is short the driver writes past it before it finds out; the model drops those writes. The signed 32-bit range of the descriptor total is not modelled.
- Aperture.ApertureRequest.BuildPass: offset and sg_offset are not cut to 32 bits, and the window does not run over the top of the 64-bit address space; an aperture of 0, with which the loop makes no progress, is excluded. Queueing and waiting between passes are those of the submit loop and are not repeated.
- Primality of N: the failing moduli of `ShortLimb` and `ParallelLimb` are odd, not necessarily prime as the script draws them.
- The remaining functions of the driver, and the XVSEC and QDMA tools: probing, command lines and ioctl wrappers with no algorithm of this kind.
