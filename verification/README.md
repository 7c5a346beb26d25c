# Verified models of the cores of cloudflare-blog

The repository collects the programs behind blog posts. This project models the parts of it
that are algorithms or protocols rather than experiments, and proves what they promise. All
modules verify together: `dafny verify dfyconfig.toml`.

## What is modelled

**connectx** (`UdpKernel`, `Connectx`, `Progress`, `PortScan`). Several processes share a local UDP 2-tuple
and use `SO_REUSEADDR` 1, 0, 1 as a lock around the question whether their socket is on top of
the lookup. Every system call is one atomic step, steps of any number of callers and of
sockets that do not follow the protocol interleave freely, and sockets may be closed at any
time. The kernel is reduced to the two facts that the code relies on: a bind fails while a
socket with `SO_REUSEADDR=0` holds the 2-tuple, and a lookup prefers a matching connected
socket to unconnected ones and a newer bind to an older one. "Newest" therefore means newest
among the sockets that match: a newer socket on the 2-tuple that is connected to another peer
does not matter, and the invariant says so. Sockets outside the protocol may bind and set
`SO_REUSEADDR` but never connect. Whether an `AF_UNSPEC` connect keeps the bind is left open. A
caller can be turned away without anybody being connected, by a newer bind for another peer, but
never all of them: `Progress` shows that one gets through.

**Branch gadgets** (`X86`, `Gadget`, `GadgetBytes`, `GadgetRuns`, `GadgetLimits`). The emitter writes through a
moving pointer into an array; a stepper for the instructions involved runs the bytes. The logs of a
run list the address and the target of every executed branch. The displacement of a two-byte branch
is cut to eight bits by the code, so not every alignment works, and `GadgetLimits` has the exact
conditions. With `cut` for the alignment minus 2, modulo 256, and unless there are no slots:

- `jmp` works below an alignment of 2 and wherever `cut` is below 128;
- `je_always_taken` works where `cut` is 0, and from an alignment of 2 on where `cut` is below 128;
- the measured run of `jmp_weaved` works from 2 to 129, above 129 where `cut` is from 2 to 127, and
  below 2 where `cut` is 0;
- the warm-up of `jmp_weaved`, which is called for alignments of 4 and more and promises to run other
  branches than the measured ones, keeps the promise up to 129, where `cut` is from 188 to 251 (the
  jump then goes back into the nops in front of the code), and for a single slot where `cut` is below
  128. It passes through all slots only up to 129.

**mmuniq** (`HashTable`, `Lines`, `NlHash`, `LineHashing`, `Finder`, `Dedup`, `DedupRuns`, `Growth`,
`EndOfInput`, `Mmuniq`, `FixedTable`, `MmuniqHash`, `Bloom`, `MmuniqBloom`, `SipRounds`, `SipWords`,
`SipHash`, `SipVector`). Where the code falls short of its intent the model follows the code: the resize loop stops one slot short, so membership survives exactly when the last
slot is empty; the probe bound wraps for the topmost 4096 hashes, which are then never stored;
hash 0 is the empty marker and is never seen; at the end of the input the whole buffer is handled as
one more line, with whatever earlier reads left in it. `DedupRuns` gives the meaning of every run up
to the end of the input as a sequence of lines and doublings: which lines are printed depends on the
hashes that a doubling drops and on the probes that give up. `Dedup` has the case in which nothing
is lost, where the output is what the set of hashes prescribes. `EndOfInput` adds the last turn: what
the buffer then holds, when it is printed, and for which inputs the output is right all the same. If
nothing is lost and the input ends with a newline, unique mode is right and `-D` never is: for the
letter a and a newline it prints the whole buffer. If a new line is left unfinished, unique mode is
wrong. The programs with a fixed table and with a Bloom filter have no such turn; they drop an
unfinished last line. `size_mask` is used as the code uses it,
through a bitwise and that is proved to be a remainder. The hash of a line is a function of its bytes:
for the vectorised routine that is what `NlHash` proves, with the AES rounds uninterpreted, and the
driver calls that routine on its buffer; in `Bloom`, in `FixedTable` and in the build without SSE it
stands for SipHash, which `SipHash` is about.

**mmdist** (`Distances`, `Avx`, `Mmdist`, `MmdistScalar`, `Hex`). The naive scan is proved to
find the nearest vector; the saturating, transposed search with its stale lane masks, the
prefix-pruned scan and the scalar transposed search give the same answer below a threshold.
Lane operations are small functions on sequences of sixteen numbers. A text given to
`parse_hex` ends at its NUL or at the end of the sequence.

**Dither** (`Dither`, `Encode`). Error diffusion in exact real arithmetic on the linear pixel
array, in place, with writes past the end ignored as typed arrays do. In an image of one column
the write down and to the left lands on the pixel itself, and the result is black and white only
if the image already was.

**Object loader** (`Pages`, `Writes`, `Loader`, `LoaderRuns`, `References`, `Aarch64`). Addresses are offsets
into the one mapping that holds all regions; its base cancels out of every relocation. The
relocation loop is proved against a list of writes in which the last write wins, and the patched
code is run with the same stepper as the gadgets.

**Escaping** (`Escape`, `Positions`). `str.replace` is modelled with its left-to-right,
non-overlapping scan. The last HTML pass writes the entity of the apostrophe but looks for a double
quote, which an earlier pass has removed; apostrophes stay as they are.

`Basics`, `Arith`, `Bits` and `LittleEndian` hold types, arithmetic on powers of two, single bits
and bytes in memory.

## Model

| member | source | states |
|---|---|---|
| `Connectx.StepKeepsInv` | 2022-02-connectx/connectx.py:135-166 | every system call of a caller, and every step of an unrelated socket, keeps the invariant: a socket past the cookie test is locked and everything else on its 2-tuple is an older unconnected bind or is connected elsewhere |
| `Connectx.RunKeepsInv` | 2022-02-connectx/connectx.py:135-166 | the invariant holds in every state of every interleaving of any number of callers |
| `Connectx.NoFourTupleShared` | 2022-02-connectx/connectx.py:135-166 | in every reachable state at most one socket is connected on a 4-tuple |
| `Connectx.PassedExcludesOthers` | 2022-02-connectx/connectx.py:147-162 | between the cookie test and connect() a caller is on top and holds its 2-tuple with SO_REUSEADDR=0, a bind to that 2-tuple fails for every other socket, and no other caller for it has passed the test |
| `Connectx.LockHasHolder` | 2022-02-connectx/connectx.py:147-166 | the lock is never leaked: a locked 2-tuple has a holder inside the critical section, or a socket outside the protocol |
| `Connectx.OwnerRejectsOthers` | 2022-02-connectx/connectx.py:151-158 | while a socket owns a 4-tuple the cookie test of every other caller for it fails |
| `Connectx.RejectedIffBlocked` | 2022-02-connectx/connectx.py:151-158 | the cookie test rejects a caller exactly when its 2-tuple holds another socket that is connected on its 4-tuple, or an unconnected bind newer than its own |
| `Progress.NewerBindRejects` | 2022-02-connectx/connectx.py:140-162 | a run of eight steps in which a caller is rejected although nobody has ever been connected: a newer bind for another peer is on top |
| `Progress.SomebodyGetsThrough` | 2022-02-connectx/connectx.py:135-166 | progress: after a bind on a 2-tuple, unless a caller for it leaves or an outsider binds it, once all callers for it have come to an end one of them is connected |
| `Progress.StepKeepsAlive` | 2022-02-connectx/connectx.py:135-166 | its invariant, kept by every step: somebody on the 2-tuple is connected, or a caller between bind and connect is newer than every other bind |
| `Connectx.BindNeedsUnlocked` | 2022-02-connectx/connectx.py:140-145 | bind() after SO_REUSEADDR=1 succeeds exactly when nobody holds the 2-tuple with SO_REUSEADDR=0 |
| `Connectx.TopUnlessConnected` | 2022-02-connectx/connectx.py:147-162 | a caller that has just bound is on top of the lookup exactly when nobody is connected on the 4-tuple |
| `Connectx.SoloRun` | 2022-02-connectx/connectx.py:137-166 | what the six system calls of a caller do to the socket table when nothing interferes |
| `Connectx.Kernel.TestAndConnect` | 2022-02-connectx/connectx.py:151-166 | from the cookie test on: connects when on top, dissolves otherwise, and releases the lock either way |
| `Connectx.Kernel.ConnectxUdp` | 2022-02-connectx/connectx.py:135-166 | the call sequence makes exactly the steps of the protocol, succeeds if and only if the 2-tuple is unlocked and the 4-tuple is free, and otherwise leaves every other socket as it was |
| `Connectx.Kernel.Lookup` | 2022-02-connectx/connectx.py:151-151 | the lookup answers with the cookie on top, and with none exactly when nothing matches |
| `UdpKernel.OnTopUnique` | 2022-02-connectx/ebpf_connect4/README.md:8-11 | a lookup has at most one answer |
| `UdpKernel.SomeoneIsOnTop` | 2022-02-connectx/ebpf_connect4/README.md:8-11 | a lookup has an answer whenever a socket matches |
| `PortScan.ReservedPorts` | 2022-02-connectx/connectx.py:192-201 | the reserved set holds exactly the ports that some entry of the list covers |
| `PortScan.ScanIsPermutation` | 2022-02-connectx/connectx.py:208-214 | from any start the wrapping scan is a permutation of the port range |
| `PortScan.ScanMember` | 2022-02-connectx/connectx.py:208-214 | a scan of n steps has looked up exactly the unreserved ports whose offset from the start is below n |
| `PortScan.ScanInOrder` | 2022-02-connectx/connectx.py:208-214 | and it looks them up in the order of their offsets |
| `PortScan.GetUdpPort` | 2022-02-connectx/connectx.py:204-222 | returns the first free unreserved port in scan order and fails exactly when every unreserved port is taken; the ports looked up are those of a scan of some length, none twice, and all but the last were taken |
| `X86.ReachesIsRun` | 2021-05-branch-prediction/gadget.c:670-674 | the notion of reaching a state used throughout is the same as finitely many steps of the stepper |
| `X86.Le32RoundTrip` | 2021-05-branch-prediction/gadget.c:109-116 | the displacement written by PUTQ reads back as the signed number it was |
| `Gadget.SlotAtIsLinear` | 2021-05-branch-prediction/gadget.c:171-187 | slot i starts i widths after the first; the widths are in `GadgetBytes.SlotsAreSpaced` |
| `Gadget.Blob.PutN` | 2021-05-branch-prediction/gadget.c:96-107 | appends n copies of a byte at the moving pointer |
| `Gadget.Blob.PutQ` | 2021-05-branch-prediction/gadget.c:109-116 | appends the four little-endian bytes of a 32-bit number |
| `Gadget.Blob.PutHead` | 2021-05-branch-prediction/gadget.c:162-390 | the head of every gadget, with ptr_fn |
| `Gadget.Blob.PutSlot` | 2021-05-branch-prediction/gadget.c:171-396 | the loop body of every gadget emits the bytes of its slot |
| `Gadget.Blob.FillCode` | 2021-05-branch-prediction/gadget.c:136-414 | every x86-64 gadget of every alignment and count that fits the blob is emitted byte for byte, with both entry points |
| `GadgetBytes.SlotsAreSpaced` | 2021-05-branch-prediction/gadget.c:162-396 | branches are max(5, alignment) bytes apart in the two call/ret gadgets, max(9, alignment) in forward_call_without_ret and max(2, alignment) in the others, from 64 on |
| `GadgetBytes.EntryPoints` | 2021-05-branch-prediction/gadget.c:136-414 | ptr_fn is 59, 57 or 64, and ptr_ret is 64 and as many of those spacings as there are slots, two a count for call_dedicated_ret |
| `GadgetBytes.DedicatedRetBytes` | 2021-05-branch-prediction/gadget.c:171-176 | the first half of call_dedicated_ret: a ret and nops in each slot |
| `GadgetBytes.DedicatedCallBytes` | 2021-05-branch-prediction/gadget.c:178-187 | its second half: a call back over as many slots as there are calls, and nops |
| `GadgetBytes.DedicatedFront` | 2021-05-branch-prediction/gadget.c:163-169 | in front of it: nops, a ret at 58 and at 59 a jump over the rets |
| `GadgetBytes.SharedFront` | 2021-05-branch-prediction/gadget.c:238-242 | in front of call_shared_ret: nops and the shared ret |
| `GadgetBytes.SharedBytes` | 2021-05-branch-prediction/gadget.c:244-254 | call_shared_ret: a call to the byte at 62 in each slot, and nops |
| `GadgetBytes.ForwardBytes` | 2021-05-branch-prediction/gadget.c:210-223 | forward_call_without_ret: a call four bytes short of the next slot, nops, and an addition of 8 to the stack pointer in those four bytes |
| `GadgetBytes.ShortBranchBytes` | 2021-05-branch-prediction/gadget.c:276-399 | the other gadgets: their opcode, their displacement cut to a byte, and nops |
| `GadgetBytes.WeavedSlotBytes` | 2021-05-branch-prediction/gadget.c:353-371 | jmp_weaved: from an alignment of 4 on two jumps with the same cut displacement in each slot, below it one, and nops |
| `GadgetBytes.ConditionalFront` | 2021-05-branch-prediction/gadget.c:285-323 | in front of the jne and je gadgets: nops, a ret at 56, and at 57 the instructions that load 1 and decrement it |
| `GadgetBytes.EndBytes` | 2021-05-branch-prediction/gadget.c:188-399 | behind the last slot the ret that ptr_ret points to; in jmp_weaved another one two bytes on |
| `GadgetBytes.DedicatedLog` | 2021-05-branch-prediction/gadget.c:162-190 | the executed branches of call_dedicated_ret by opcode, address and target: the jump from 59, and call i from 64 + (n + i) spacings to the ret n spacings before it and back |
| `GadgetBytes.SharedLog` | 2021-05-branch-prediction/gadget.c:244-254 | those of call_shared_ret: call i, the ret at 62 and back |
| `GadgetBytes.ForwardLog` | 2021-05-branch-prediction/gadget.c:210-223 | those of forward_call_without_ret: each call, to four bytes before the next slot |
| `GadgetBytes.ShortLog` | 2021-05-branch-prediction/gadget.c:276-399 | those of the other gadgets: a branch per slot, over the displacement cut to eight bits and read as signed |
| `GadgetRuns.FilledBlobIsLoaded` | 2021-05-branch-prediction/gadget.c:136-414 | what the emitter leaves in the blob is what the run theorems are about |
| `GadgetRuns.CallRetSled` | 2021-05-branch-prediction/gadget.c:176-187 | a call, the ret it reaches and the nops behind the call, in execution |
| `GadgetRuns.DedicatedSlotRun` | 2021-05-branch-prediction/gadget.c:171-187 | call i of call_dedicated_ret reaches ret slot i and comes back to the next call |
| `GadgetRuns.SharedSlotRun` | 2021-05-branch-prediction/gadget.c:244-254 | every call of call_shared_ret reaches the one ret in front of the code |
| `GadgetRuns.ForwardSlotRun` | 2021-05-branch-prediction/gadget.c:210-223 | a call of forward_call_without_ret lands on the add that drops its return address |
| `GadgetRuns.NotTakenRun` | 2021-05-branch-prediction/gadget.c:292-300 | a jne is not taken, whatever its operand |
| `GadgetRuns.GadgetRun` | 2021-05-branch-prediction/gadget.c:136-414 | for every gadget and count, with a legal alignment or no slot, running from ptr_fn executes exactly the expected branches in order, arrives at ptr_ret, and leaves the stack as it was |
| `GadgetRuns.LegalLands` | 2021-05-branch-prediction/gadget.c:316-399 | the legal alignments are those whose displacement, cut to a byte and read as signed, lands in the nops behind the branch |
| `GadgetLimits.TakenIff` | 2021-05-branch-prediction/gadget.c:316-399 | for jmp, je_always_taken and jmp_weaved: the run executes exactly its branches and arrives at ptr_ret if and only if there are no slots or the alignment is legal, for every integer alignment |
| `GadgetRuns.BlobExecReturns` | 2021-05-branch-prediction/gadget.c:670-674 | a call of ptr_fn returns to its caller with the branches logged |
| `GadgetRuns.WarmItlbReturns` | 2021-05-branch-prediction/gadget.c:676-684 | entering at the start of the blob or at ptr_ret executes exactly one branch, a ret at a known address, and comes back with the stack popped |
| `GadgetRuns.WarmItlbMeasuredIff` | 2021-05-branch-prediction/gadget.c:676-684 | the ret so executed is one of the measured branches exactly when the start of the blob is entered, the gadget is call_shared_ret and there is a slot |
| `GadgetRuns.BodyLogAt` | 2021-05-branch-prediction/gadget.c:162-399 | the log of a run has one group of branches per slot, in slot order |
| `GadgetRuns.DedicatedPairAt` | 2021-05-branch-prediction/gadget.c:162-190 | entries 2i and 2i+1 of the call_dedicated_ret log are call i and ret slot i |
| `GadgetRuns.DedicatedPairsAreDistinct` | 2021-05-branch-prediction/gadget.c:162-190 | no two calls share an address, and no two share a ret |
| `GadgetLimits.JmpForwardIff` | 2021-05-branch-prediction/gadget.c:383-399 | the jmp gadget works exactly when it is empty or its displacement, cut to a byte, is not negative |
| `GadgetLimits.JeAlwaysTakenIff` | 2021-05-branch-prediction/gadget.c:316-337 | je_always_taken, which does not raise small alignments to 2: below 2 only a displacement cut to 0 works, from 2 on one that is not negative |
| `GadgetLimits.JmpWeavedIff` | 2021-05-branch-prediction/gadget.c:353-371 | the measured run of jmp_weaved works exactly when it is empty, up to an alignment of 129, or beyond it with a cut displacement from 2 to 127 |
| `GadgetLimits.WarmUpAvoidsBranches` | 2021-05-branch-prediction/gadget.c:686-710 | for alignments from 4 to 129 and any count, entering jmp_weaved two bytes in arrives behind the code without executing a measured branch |
| `GadgetLimits.WarmUpArrivesIff` | 2021-05-branch-prediction/gadget.c:686-710 | it gets to the second closing ret, as it is meant to, exactly when there are no slots or the alignment is at most 129 |
| `GadgetLimits.WarmUpIff` | 2021-05-branch-prediction/gadget.c:686-710 | entering jmp_weaved two bytes in comes back to the caller without a measured branch exactly when there are no slots, the alignment is at most 129, the cut displacement is from 188 to 251, or there is one slot and the cut displacement is below 128 |
| `HashTable.HashInsert` | 2020-02-mmuniq/mmuniq.c:102-121 | hash_insert in place, with its wrapping 64-bit bound and its mask, is the insertion on table values |
| `HashTable.ProbeStops` | 2020-02-mmuniq/mmuniq.c:106-116 | a probe stops at the first slot that is empty or holds the hash, or gives up |
| `HashTable.GivenUpIff` | 2020-02-mmuniq/mmuniq.c:102-121 | an insertion is given up exactly when the hash plus 4096 passes 2^64 or 4096 slots in a row hold other values |
| `HashTable.StoredOnce` | 2020-02-mmuniq/mmuniq.c:102-121 | no value is stored twice in a well-formed table |
| `HashTable.InsertCorrect` | 2020-02-mmuniq/mmuniq.c:102-121 | insertion keeps the probe invariant; 0 means stored before, 1 adds exactly the hash, -1 changes nothing and means that every probed slot is taken or the bound wrapped; hash 0 is never stored |
| `HashTable.ReinsertIff` | 2020-02-mmuniq/mmuniq.c:102-121 | a second insertion reports a hash as seen exactly when the hash is not 0 and its probe in the table as it was does not give up |
| `HashTable.RunStores` | 2020-02-mmuniq/mmuniq.c:102-121 | over any run the table holds exactly its old values and those reported as new |
| `HashTable.RunReportsSeen` | 2020-02-mmuniq/mmuniq.c:102-121 | over any run a hash is reported as seen exactly when it was stored before |
| `HashTable.Resize` | 2020-02-mmuniq/mmuniq.c:389-413 | the resize loop fills the doubled table with the insertions of the visited slots |
| `HashTable.ReinsertCorrect` | 2020-02-mmuniq/mmuniq.c:399-405 | the new table is well-formed and holds only visited values, all of them when no insertion gave up |
| `HashTable.NothingLostIfLastEmpty` | 2020-02-mmuniq/mmuniq.c:399-405 | with an empty last slot no reinsertion gives up |
| `HashTable.ResizePreservesIff` | 2020-02-mmuniq/mmuniq.c:389-413 | resizing keeps the set of values exactly when the last slot is empty; the value in the last slot is always lost |
| `HashTable.ResizedKeeps` | 2020-02-mmuniq/mmuniq.c:389-413 | resizing keeps exactly the stored hashes other than that of the last slot and those whose probe in the new table gives up |
| `FixedTable.Filter.ProcessLine` | 2020-02-mmuniq/mmuniq-hash.c:75-106 | one line: the table changes as by an insertion, and a probe that gives up counts as seen |
| `FixedTable.Filter.ProcessLines` | 2020-02-mmuniq/mmuniq-hash.c:191-212 | the table and the lines printed over a run are those that the outcomes of the insertions select |
| `FixedTable.PrintsIff` | 2020-02-mmuniq/mmuniq-hash.c:75-106 | for every hash, 0 included: unique mode prints a line exactly when its hash was not stored before and its probe in the table as it was does not give up; -D prints exactly the others |
| `FixedTable.NoHashPrintedTwice` | 2020-02-mmuniq/mmuniq-hash.c:101-105 | unique mode never prints two lines with one hash other than 0 |
| `FixedTable.PrintsFirstsOrRepeats` | 2020-02-mmuniq/mmuniq-hash.c:75-106 | when no hash is 0 and no probe gives up, unique mode prints the first lines of all hashes and -D all others |
| `MmuniqHash.Program.ProcessRead` | 2020-02-mmuniq/mmuniq-hash.c:186-211 | one read of the program: its complete lines go through the filter, in order |
| `MmuniqHash.Program.Run` | 2020-02-mmuniq/mmuniq-hash.c:184-213 | from input bytes to output: for any sequence of reads the output is a function of the lines of the input |
| `MmuniqHash.OutputIsFirstsOrRepeats` | 2020-02-mmuniq/mmuniq-hash.c:75-106 | that output, when no hash is 0 and no probe gives up |
| `Lines.FirstNlFinds` | 2020-02-mmuniq/mmuniq-hash.c:194-195 | the first newline of a stretch of bytes |
| `Lines.LinesAreClean` | 2020-02-mmuniq/mmuniq-hash.c:193-211 | no line and no tail contains a newline, and no line is longer than the buffer |
| `Lines.RejoinSplit` | 2020-02-mmuniq/mmuniq-hash.c:193-211 | the lines, with a newline behind each that is shorter than the buffer, and the tail are the input again, however long its lines are |
| `Lines.SplitJoin` | 2020-02-mmuniq/mmuniq-hash.c:193-211 | splitting undoes joining lines shorter than the buffer |
| `Lines.SplitAppend` | 2020-02-mmuniq/mmuniq-hash.c:193-211 | splitting piecewise with the tail carried over equals splitting the whole |
| `Lines.WithoutTail` | 2020-02-mmuniq/mmuniq-hash.c:186-213 | the unfinished tail of an input plays no part: without it the input has the same lines |
| `Lines.FindNl` | 2020-02-mmuniq/mmuniq-hash.c:194-195 | the memchr loop finds exactly the first newline |
| `Lines.Splitter.ProcessRead` | 2020-02-mmuniq/mmuniq-hash.c:186-211 | one read, the line loop, the move of the tail and the cut of a full buffer keep the lines those of the whole input |
| `Lines.Splitter.ProcessStream` | 2020-02-mmuniq/mmuniq-bloom.c:248-277 | however the input is cut into reads, the lines handed over are the same function of the input |
| `NlHash.BlockFindsNl` | 2020-02-mmuniq/mmuniq.c:189-203 | the masked comparison of a 16-byte block sees exactly the first newline inside the buffer |
| `NlHash.BlockStep` | 2020-02-mmuniq/mmuniq.c:190-224 | one block absorbs the next sixteen bytes of the line, zero-padded, and nothing else |
| `NlHash.FindNlAndHash` | 2020-02-mmuniq/mmuniq.c:178-229 | returns the first newline or NULL, and a hash that depends only on the bytes and the length of the line |
| `LineHashing.HashIsOfLog` | 2020-02-mmuniq/mmuniq.c:178-229 | for a cipher that logs its operations the hash of a line of n bytes is made of exactly these: each piece of sixteen bytes, padded with zeros, is xored in and encrypted with both round keys, and the end is encrypted with the key of n |
| `LineHashing.HashSeparates` | 2020-02-mmuniq/mmuniq.c:178-229 | if the operations are injective, lines of equal length that differ within one piece of sixteen bytes end in different 128-bit states; only the fold to 64 bits can make their hashes equal |
| `Finder.Find` | 2020-02-mmuniq/mmuniq.c:173-252 | either build of find_nl_and_hash: the first newline or NULL, and the hash of the line in front of it |
| `Dedup.TableRefinesSet` | 2020-02-mmuniq/mmuniq.c:123-140 | while nothing is lost the table behaves like the set of hashes |
| `Dedup.FirstsAreKept` | 2020-02-mmuniq/mmuniq.c:130-139 | the specification of unique mode keeps a line exactly when it is the first of its hash |
| `Dedup.FirstsAreDistinct` | 2020-02-mmuniq/mmuniq.c:130-139 | no two kept lines share a hash |
| `Dedup.UniqueModePrintsFirsts` | 2020-02-mmuniq/mmuniq.c:123-140 | unique mode prints the first line of every hash, each followed by a newline |
| `Dedup.HashesAreNoted` | 2020-02-mmuniq/mmuniq.c:123-140 | in either mode the hashes noted are exactly those of the lines |
| `Dedup.RepeatedModePrintsRepeats` | 2020-02-mmuniq/mmuniq.c:123-140 | with -D exactly the lines whose hash has occurred before are printed |
| `Dedup.ModesPartition` | 2020-02-mmuniq/mmuniq.c:130-131 | every line is printed by exactly one of the two modes |
| `DedupRuns.RunLeads` | 2020-02-mmuniq/mmuniq.c:352-376 | up to the end of the input, every run, losses or not: its table and its output are those of its steps, the lines of each read and the doublings between them |
| `DedupRuns.StepsTake` | 2020-02-mmuniq/mmuniq.c:352-376 | the lines of these steps are the lines of the whole input, however it is cut into reads |
| `DedupRuns.StoredIff` | 2020-02-mmuniq/mmuniq.c:102-121 | a hash is stored exactly when some step stored it and no doubling since then lost it |
| `DedupRuns.PrintsIff` | 2020-02-mmuniq/mmuniq.c:123-140 | which line is printed, in any run: with -D one whose hash was stored and not lost since, in unique mode any other one whose probe does not give up |
| `DedupRuns.FirstIsPrintedIff` | 2020-02-mmuniq/mmuniq.c:123-140 | the first line of a hash is printed in unique mode exactly when its probe does not give up, and never with -D |
| `DedupRuns.PrintedAgain` | 2020-02-mmuniq/mmuniq.c:123-140 | unique mode prints a hash twice only if it is 0 or a doubling in between lost it |
| `DedupRuns.RepeatedRunPrintsOnlyRepeats` | 2020-02-mmuniq/mmuniq.c:352-376 | up to the end of the input, with -D every run from an empty table prints a subsequence of the lines whose hash has occurred before |
| `DedupRuns.UniqueRunPrintsAllFirsts` | 2020-02-mmuniq/mmuniq.c:352-376 | up to the end of the input, in unique mode the first lines of all hashes are a subsequence of what is printed, if no probe of a first line gives up, whatever the doublings lose |
| `Dedup.ReadsRefineLines` | 2020-02-mmuniq/mmuniq.c:352-376 | up to the end of the input, over any sequence of reads and resizes, a run that loses nothing prints what the lines of the whole input require |
| `Dedup.UniqueRunPrintsFirsts` | 2020-02-mmuniq/mmuniq.c:352-376 | up to the end of the input, a run of unique mode from an empty table that loses nothing prints exactly the first lines of the whole input |
| `Dedup.RepeatedRunPrintsRepeats` | 2020-02-mmuniq/mmuniq.c:352-376 | up to the end of the input, the same run with -D prints exactly the other lines |
| `Growth.RunCounts` | 2020-02-mmuniq/mmuniq.c:123-140 | along every run the item count is the number of lines so far whose hash went into an empty slot |
| `Growth.GrowsIff` | 2020-02-mmuniq/mmuniq.c:389-413 | after every read the table doubles exactly when the number of lines that went into empty slots so far exceeds the threshold for its size, and keeps its size otherwise |
| `Growth.ItemsAreHashes` | 2020-02-mmuniq/mmuniq.c:123-140 | from an empty table and without losses the item count is the number of different hashes of the lines of the input |
| `EndOfInput.LastLineIs` | 2020-02-mmuniq/mmuniq.c:378-382 | what the last turn takes the hash of: the first line completed by the last read when the input leaves no tail, otherwise the tail and the stale bytes behind it up to a newline |
| `EndOfInput.LastTurnPrintsIff` | 2020-02-mmuniq/mmuniq.c:352-388 | exactly when the last turn of any run prints, and what: the whole buffer, with -D when that hash was stored and not lost since, in unique mode when it was not and its probe does not give up |
| `EndOfInput.RepeatedWholeRun` | 2020-02-mmuniq/mmuniq.c:352-388 | the output of a whole run with -D: a subsequence of the repeated lines, and what the last turn adds |
| `EndOfInput.UniqueWholeRun` | 2020-02-mmuniq/mmuniq.c:352-388 | the output of a whole run of unique mode in which no probe of a first line gives up: all first lines in order, and what the last turn adds |
| `EndOfInput.UniqueRunIsRightIff` | 2020-02-mmuniq/mmuniq.c:352-388 | a whole unique run that loses nothing prints the first lines, an unfinished one at the end among them, exactly when the unfinished one is not new and the last turn finds nothing new or gives up |
| `EndOfInput.RepeatedRunIsRightIff` | 2020-02-mmuniq/mmuniq.c:352-388 | a whole run with -D that loses nothing prints the repeated lines, an unfinished one at the end among them, exactly when the unfinished one is new and the last turn finds nothing stored |
| `EndOfInput.FinishedInput` | 2020-02-mmuniq/mmuniq.c:378-388 | for input that ends with a newline, a lossless unique run prints the first lines and nothing else; one with -D prints the repeated lines and then the whole buffer, always |
| `EndOfInput.LetterIsRepeated` | 2020-02-mmuniq/mmuniq.c:378-388 | the input of the letter a and a newline has no repeated line, and -D prints the whole buffer for it, if the hash of a is neither 0 nor one of the topmost and no doubling follows |
| `EndOfInput.EmptyInput` | 2020-02-mmuniq/mmuniq.c:378-388 | for no input at all unique mode prints the buffer, unless its hash is one of the topmost; -D prints nothing |
| `Mmuniq.Driver.ProcessFlush` | 2020-02-mmuniq/mmuniq.c:123-140 | one queue entry: its slice still denotes the queued line, and the output never passes BUF_SZ + 1, so the abort is unreachable |
| `Mmuniq.Driver.FlushQueue` | 2020-02-mmuniq/mmuniq.c:153-160 | flushing the queue has the effect of handling its lines one by one, in order |
| `Mmuniq.Driver.ProcessLine` | 2020-02-mmuniq/mmuniq.c:142-160 | queuing a line and flushing a full queue has the same effect as handling the line at once |
| `Mmuniq.Driver.ForceOut` | 2020-02-mmuniq/mmuniq.c:153-169 | a forced call empties the queue and the output buffer |
| `Mmuniq.Driver.MaybeResize` | 2020-02-mmuniq/mmuniq.c:389-413 | the resize step at the end of a turn |
| `Mmuniq.Driver.ProcessRead` | 2020-02-mmuniq/mmuniq.c:352-413 | one turn of the loop: the lines of the carried-over tail and the new bytes are handled, and the buffer holds the rest in front of its older bytes |
| `Mmuniq.Driver.ProcessReads` | 2020-02-mmuniq/mmuniq.c:352-414 | the loop over all reads computes the specification of the stream up to the end of the input, for the hash of the find_nl_and_hash in use, and the exact contents of the buffer |
| `Mmuniq.Driver.EndOfInput` | 2020-02-mmuniq/mmuniq.c:352-388 | the turn in which read() returns 0 handles the whole buffer as one line, stale bytes included, under the hash of what stands in front of its first newline |
| `Mmuniq.Driver.Run` | 2020-02-mmuniq/mmuniq.c:352-415 | the whole loop from the first read to the empty one: output, table and buffer are functions of the input, its cutting into reads and the initial buffer |
| `Bloom.GetSet` | 2020-02-mmuniq/mmuniq-bloom.c:42-54 | tells whether the bit was set, sets it, and changes no other |
| `Bloom.Filter.HashInRange` | 2020-02-mmuniq/mmuniq-bloom.c:111-123 | every masked hash is an index inside the bitmap |
| `Bloom.Filter.HashOfIs` | 2020-02-mmuniq/mmuniq-bloom.c:99-123 | hash 8g + r of a line is word r mod 4 of the SipHash run whose keys are offset by 8g times 0x1000100010001000, byte-swapped from r = 4 on, modulo the number of bits |
| `Bloom.Filter.Hashes` | 2020-02-mmuniq/mmuniq-bloom.c:107-123 | every hash that the inner loop reads has been filled in |
| `Bloom.Filter.Probe` | 2020-02-mmuniq/mmuniq-bloom.c:95-132 | all bits of the line are set afterwards, and a miss means that some was clear before |
| `Bloom.Filter.ProcessLine` | 2020-02-mmuniq/mmuniq-bloom.c:90-139 | exactly the bits of the line are added, known lines stay known, and the line is printed as its mode requires |
| `Bloom.Filter.ProcessLines` | 2020-02-mmuniq/mmuniq-bloom.c:256-276 | over any run: exactly which bits are set and which lines are printed, every line is known afterwards, and unique mode prints no line twice |
| `Bloom.Filter.ProcessNext` | 2020-02-mmuniq/mmuniq-bloom.c:90-139 | one line more: it is printed in unique mode exactly when one of its bits was set neither at the start nor by the lines before it, with -D exactly when all were |
| `Bloom.Filter.PrintedAreDistinct` | 2020-02-mmuniq/mmuniq-bloom.c:90-139 | a line is covered by itself, so unique mode does not print it twice |
| `MmuniqBloom.Program.Run` | 2020-02-mmuniq/mmuniq-bloom.c:248-277 | from input bytes to output: for any sequence of reads the output is a function of the lines of the input |
| `SipRounds.DoubleRoundIsTwoSipRounds` | 2020-02-mmuniq/csiphash.c:63-74 | DOUBLE_ROUND is two SipRounds of the SipHash paper, section 2.2, for any word operations |
| `SipRounds.DoubleRoundIsBijective` | 2020-02-mmuniq/csiphash.c:63-74 | DOUBLE_ROUND is a bijection on the state, with an explicit inverse, if the word operations are reversible |
| `SipHash.WordsAreReversible` | 2020-02-mmuniq/csiphash.c:61-68 | 64-bit addition, exclusive or and ROTATE are reversible |
| `SipVector.WordsAre64Bits` | 2020-02-mmuniq/csiphash.c:61-68 | addition wraps at 2^64, exclusive or works bit by bit, and each of the five rotations moves its top bits to the bottom |
| `SipVector.ConstantsSpell` | 2020-02-mmuniq/csiphash.c:82-85 | the initial state spells somepseudorandomlygeneratedbytes, as the SipHash paper has it in section 2.1 |
| `SipVector.PaperVector` | 2020-02-mmuniq/csiphash.c:76-133 | for the key and the message of Appendix A of the SipHash paper the specification of SipHash24 gives the hash 0xa129ca6149be45e5; the words are bit vectors there |
| `SipWords.CompressWords` | 2020-02-mmuniq/csiphash.c:87-94 | the block loop absorbs the whole words of the message |
| `SipHash.TailBytes` | 2020-02-mmuniq/csiphash.c:96-115 | the fall-through switch collects exactly the bytes that are left |
| `SipHash.TailWord` | 2020-02-mmuniq/csiphash.c:79-116 | the last word is the remaining bytes, zeros and the length byte |
| `SipHash.SipHash24` | 2020-02-mmuniq/csiphash.c:76-133 | for every message the code computes SipHash-2-4 as defined in section 2 of the SipHash paper, or delivers its final state |
| `Distances.FullDistance` | 2020-12-mmdist/mmdist-naive.c:11-20 | the 32-bit loop computes the squared distance |
| `Distances.DistIs` | 2020-12-mmdist/mmdist-naive.c:11-20 | a vector is at distance 0 from itself, and changing one of the 144 coordinates changes the distance by the change of its squared difference |
| `Distances.NaiveScan` | 2020-12-mmdist/mmdist-naive.c:46-56 | the scan finds the lowest index that attains the smallest distance |
| `Distances.NearestUnique` | 2020-12-mmdist/mmdist-naive.c:46-56 | the answer to a query is unique |
| `Distances.CutAtThreshold` | 2020-12-mmdist/mmdist-naive.c:46-56 | cutting the answer for a high threshold at a lower one gives the answer for the lower one |
| `Mmdist.DistanceAvx2` | 2020-12-mmdist/mmdist-short-inv-avx2.c:18-41 | the vector distance on any whole number of blocks is the plain distance: neither 16-bit nor 32-bit lanes lose anything |
| `Mmdist.Transpose` | 2020-12-mmdist/mmdist-short-inv-avx2.c:59-71 | every prefix byte of the database is where the scoring loop looks for it |
| `Mmdist.ScoreGroup` | 2020-12-mmdist/mmdist-short-inv-avx2.c:117-148 | a lane ends with one more than the prefix distance, or saturated |
| `Mmdist.ScoresCover` | 2020-12-mmdist/mmdist-short-inv-avx2.c:152-164 | a lane whose vector is closer than the threshold is never masked out |
| `Mmdist.Masks` | 2020-12-mmdist/mmdist-short-inv-avx2.c:150-169 | the masks of the batch, and a group is skipped only when no lane of any query is a candidate |
| `Mmdist.WalkMask` | 2020-12-mmdist/mmdist-short-inv-avx2.c:175-196 | walking the candidates with a mask made before the group keeps the answer exact |
| `Mmdist.SearchGroup` | 2020-12-mmdist/mmdist-short-inv-avx2.c:116-198 | one group of sixteen vectors for all queries of the batch |
| `Mmdist.SearchBatch` | 2020-12-mmdist/mmdist-short-inv-avx2.c:55-198 | the search answers every query like the naive scan if its distance is below both the threshold and 65534, otherwise with index -1 and the lower of the two, and rejects a database that is not a multiple of 16 |
| `Mmdist.FastAgreesWithNaive` | 2020-12-mmdist/mmdist-short-inv-avx2.c:73-198 | the saturating search and the naive scan, whenever the nearest vector is below the threshold and 65534; otherwise index -1 |
| `Mmdist.PrefixScan` | 2020-12-mmdist/mmdist-short-avx2.c:94-117 | the prefix-pruned scan finds the nearest vector below the threshold |
| `MmdistScalar.ScoreLanes` | 2020-12-mmdist/mmdist-short-inv.c:88-108 | the transposed loops compute the prefix distance of every query and lane |
| `MmdistScalar.WalkLanes` | 2020-12-mmdist/mmdist-short-inv.c:111-130 | looking in full only at lanes below the minimum keeps the answer exact |
| `MmdistScalar.SearchScalar` | 2020-12-mmdist/mmdist-short-inv.c:41-132 | the scalar transposed search finds the nearest vector below the threshold for every query |
| `MmdistScalar.ScalarAgreesWithFast` | 2020-12-mmdist/mmdist-short-inv.c:86-132 | scalar and vectorised search give the same index and distance, except that the vectorised one reports nothing at 65534 and above |
| `Hex.ToHex` | 2020-12-mmdist/generate.c:7-17 | writes two lower-case digits for every byte, and a NUL |
| `Hex.HexOfAt` | 2020-12-mmdist/generate.c:7-17 | byte i is printed at 2i as the two digits of 0123456789abcdef for its high and its low half |
| `Hex.ParseHex` | 2020-12-mmdist/utils.c:19-58 | the parser with all its exits, and which bytes it has stored by then |
| `Hex.CompactIs` | 2020-12-mmdist/utils.c:23-34 | a space is skipped, a NUL ends the text, and every other character is looked at |
| `Hex.DigitIff` | 2020-12-mmdist/utils.c:36-49 | the characters accepted as digits: the hexadecimal digits, and the control characters 0x10 to 0x19, which the code takes for 0 to 9 |
| `Hex.BadIff` | 2020-12-mmdist/utils.c:19-58 | the parser fails with -2 exactly when a character in one of the pairs within the limit is not accepted |
| `Hex.OddIff` | 2020-12-mmdist/utils.c:19-58 | and with -1 exactly when all of them are accepted and a single character is left within the limit |
| `Hex.HexRoundTrip` | 2020-12-mmdist/generate.c:7-17 | parsing the printed form gives back the bytes |
| `Hex.CaseDoesNotMatter` | 2020-12-mmdist/utils.c:39-49 | writing the letters A to F of a text in lower case changes neither the result nor the bytes |
| `Hex.SpacesDoNotMatter` | 2020-12-mmdist/utils.c:23-34 | removing spaces first does not change what the parser sees |
| `Hex.Load` | 2020-12-mmdist/utils.c:72-99 | a file whose size is not a multiple of 289 is refused; otherwise record i is what parsing line i leaves |
| `Hex.LoadRoundTrip` | 2020-12-mmdist/utils.c:72-99 | loading the file of printed vectors, 289 bytes with a newline at the end for each, gives back the vectors and their number |
| `Dither.AddsAreSpread` | 2024-12-e-paper/worker-render-raster/index.ts:39-47 | the four additions, one after the other and ignored outside the image, give every pixel its share of 7, 3, 5 and 1 sixteenths, also where two of them meet |
| `Dither.SpreadAt` | 2024-12-e-paper/worker-render-raster/index.ts:39-47 | pixel k becomes white exactly above 128 and black otherwise, its right neighbour gains 7 sixteenths of the error, the three below gain 3, 5 and 1, and with two columns or more no other pixel changes |
| `Dither.SpreadConserves` | 2024-12-e-paper/worker-render-raster/index.ts:42-47 | one pixel keeps the total brightness up to the shares that fall off the end of the image |
| `Dither.ErrorBound` | 2024-12-e-paper/worker-render-raster/index.ts:39-42 | the quantisation error of the next pixel lies in [-127, 128] |
| `Dither.DitherIsBounded` | 2024-12-e-paper/worker-render-raster/index.ts:37-49 | handled pixels are 0 or 255, and pixels still to come differ from the original by at most the shares received |
| `Dither.BrightnessIsKept` | 2024-12-e-paper/worker-render-raster/index.ts:31-52 | for two columns or more the result is black and white, and the total brightness changes by at most 72 * width + 40, whatever the height |
| `Dither.TwoLevelIff` | 2024-12-e-paper/worker-render-raster/index.ts:37-49 | the result is black and white exactly when there are two columns or the image already was |
| `Dither.HandlePixel` | 2024-12-e-paper/worker-render-raster/index.ts:39-47 | the loop body in place, with its writes past the end ignored |
| `Dither.Diffuse` | 2024-12-e-paper/worker-render-raster/index.ts:37-49 | the double loop in place |
| `Dither.DitherTwoBits` | 2024-12-e-paper/worker-render-raster/index.ts:31-52 | the clamped bytes returned, all 0 or 255, and the brightness bound on bytes |
| `Dither.ClampedIsNearest` | 2024-12-e-paper/worker-render-raster/index.ts:51-51 | the byte returned for a pixel is the nearest one, and the even one of two that are equally near |
| `Encode.BitIndexIsExact` | 2024-12-e-paper/worker-render-raster/index.ts:57-63 | every bit of the packed image belongs to exactly one pixel |
| `Encode.EncodeBinary` | 2024-12-e-paper/worker-render-raster/index.ts:54-65 | every pixel sets exactly its own bit, and only if it is not 0; other bits are clear |
| `Encode.PixelBit` | 2024-12-e-paper/worker-render-raster/index.ts:54-65 | the bit of column x and row y is binary digit 7 - s % 8 of byte s / 8, with s = (width - 1 - x) * height + y |
| `Encode.PackedImageIsExact` | 2024-12-e-paper/worker-render-raster/index.ts:54-65 | an image that fills whole bytes can be recovered from its packed form |
| `Pages.PageAlignIsLeast` | 2021-03-obj-file/3/loader.c:79-82 | the least multiple of the page size that is at least n, exactly as long as it does not pass 2^64; then 0 |
| `Loader.RegionsAreApart` | 2021-03-obj-file/3/loader.c:324-340 | the four regions start on pages, do not overlap and have room for their contents |
| `Loader.SiteIsPatched` | 2021-03-obj-file/3/loader.c:257-265 | a site that no later relocation overlaps ends holding S + A - P modulo 2^32 |
| `Loader.StubIsFilled` | 2021-03-obj-file/3/loader.c:234-250 | each external reference has a stub inside the allotted pages that holds the looked-up address and the jump |
| `Loader.StubsAreApart` | 2021-03-obj-file/3/loader.c:234-252 | no two external references share a stub |
| `Loader.OtherBytesAreKept` | 2021-03-obj-file/3/loader.c:224-266 | below the jump table nothing outside the patched sites changes |
| `Loader.StubJumps` | 2021-03-obj-file/3/loader.c:240-247 | the emitted jump goes to the address stored in front of it |
| `Loader.CallArrivesIff` | 2021-03-obj-file/3/loader.c:257-265 | a patched call with addend -4 lands on its target exactly when the distance fits in 32 bits |
| `Loader.ExternalCallArrives` | 2021-03-obj-file/3/loader.c:233-265 | a call of an external function reaches its stub exactly when the stub is less than 2 GiB away, which it always is in a mapping of up to 2 GiB, and the stub jumps to that function |
| `Loader.SectionsAreLoaded` | 2021-03-obj-file/3/loader.c:342-349 | data and rodata are those of the file, and so is all text outside the patched sites |
| `LoaderRuns.LookupSection` | 2021-03-obj-file/3/loader.c:109-130 | the first section of that name that is not empty |
| `LoaderRuns.CountExternalSymbols` | 2021-03-obj-file/3/loader.c:170-189 | counts the relocations that refer to undefined symbols |
| `LoaderRuns.SymbolAddress` | 2021-03-obj-file/3/loader.c:230-255 | the symbol address of a relocation, with its stub filled in when it is external |
| `LoaderRuns.RelocateOne` | 2021-03-obj-file/3/loader.c:224-266 | one turn of the relocation loop; it fails exactly on an unknown function or section |
| `LoaderRuns.DoTextRelocations` | 2021-03-obj-file/3/loader.c:209-267 | the loop performs all relocations, or fails exactly when some reference is unknown |
| `LoaderRuns.ParseObj` | 2021-03-obj-file/3/loader.c:301-349 | lookup, counting, layout, copies and relocations, with the error exits of the code |
| `LoaderRuns.LoadedImage` | 2021-03-obj-file/3/loader.c:324-349 | what a successfully loaded mapping contains: data and rodata of the file, its text outside the sites, S + A - P in every site that no later one overlaps, and a filled stub for every external reference |
| `References.DataReferenceArrives` | 2021-03-obj-file/3/loader.c:190-267 | in a loaded mapping a site that refers to a symbol of .data, within 32 bits, leads to data offset plus symbol value, where the mapping holds that byte of the section |
| `References.RodataReferenceArrives` | 2021-03-obj-file/3/loader.c:190-267 | the same for .rodata |
| `References.TextReferenceArrives` | 2021-03-obj-file/3/loader.c:190-267 | the same for .text, outside the sites |
| `References.ExternalReferenceArrives` | 2021-03-obj-file/3/loader.c:230-266 | a site that refers to an external symbol leads to a jump through the eight bytes in front of it, which hold the address of the function of that name |
| `References.DisjointIff` | 2021-03-obj-file/3/loader.c:257-265 | the condition on later relocations used above means that none of them patches one of the four bytes of the site |
| `References.OutcomeIff` | 2021-03-obj-file/3/loader.c:301-349 | loading ends with error 8 without relocations, with error 2 exactly when some relocation has an unknown function or section, and otherwise succeeds |
| `Aarch64.PatchCall26` | 2021-03-obj-file/4/3/loader.c:250-259 | the masks put the displacement below the opcode and change no other instruction |
| `Aarch64.CallArrivesIff` | 2021-03-obj-file/4/3/loader.c:250-259 | the patched branch keeps its opcode, and goes to S + A exactly when that is a whole number of words less than 2^27 bytes away |
| `Aarch64.BuildStub` | 2021-03-obj-file/4/3/loader.c:232-239 | the four words decode to movz, movk, movk and br with the address in 16-bit pieces |
| `Aarch64.DecodeIff` | 2021-03-obj-file/4/3/loader.c:232-239 | the instructions of the stub decode exactly as their 32-bit encodings say, field by field |
| `Aarch64.StubArrivesIff` | 2021-03-obj-file/4/3/loader.c:232-239 | the stub goes to its function exactly when the address has at most 48 bits |
| `Escape.ReplaceConcat` | 2024-12-e-paper/worker-weather-panel/pyratemp.py:83-99 | str.replace distributes over concatenation when no occurrence straddles the seam |
| `Escape.PassesAreSimultaneous` | 2024-12-e-paper/worker-weather-panel/pyratemp.py:83-99 | a chain of such passes is one simultaneous substitution of what it makes of single characters |
| `Escape.HtmlIsSimultaneous` | 2024-12-e-paper/worker-weather-panel/pyratemp.py:82-87 | the HTML passes replace every character once, all at the same time |
| `Escape.HtmlIsDecodable` | 2024-12-e-paper/worker-weather-panel/pyratemp.py:82-87 | different texts stay different after HTML escaping |
| `Escape.HtmlIsSafe` | 2024-12-e-paper/worker-weather-panel/pyratemp.py:82-87 | no less-than, greater-than or double quote survives |
| `Escape.ApostropheSurvivesIff` | 2024-12-e-paper/worker-weather-panel/pyratemp.py:86-87 | the last pass never finds anything: an apostrophe is there afterwards exactly when it was there before |
| `Escape.LatexIsSimultaneous` | 2024-12-e-paper/worker-weather-panel/pyratemp.py:88-99 | the LaTeX passes, with their temporary marker, replace every character once, all at the same time |
| `Escape.LatexIsDecodable` | 2024-12-e-paper/worker-weather-panel/pyratemp.py:88-99 | different texts stay different after LaTeX escaping |
| `Escape.Escape` | 2024-12-e-paper/worker-weather-panel/pyratemp.py:73-109 | the dispatch on the format, with the error for an unsupported one |
| `Positions.Sindex` | 2024-12-e-paper/worker-weather-panel/pyratemp.py:39-44 | the loop of sindex |
| `Positions.RowColRoundTrip` | 2024-12-e-paper/worker-weather-panel/pyratemp.py:31-44 | sindex undoes srow and scol for every integer position |
| `Positions.IndexRoundTripIff` | 2024-12-e-paper/worker-weather-panel/pyratemp.py:31-44 | srow and scol undo sindex exactly for the rows and columns that exist |

## Left out

- Output: `write` and `fwrite` are taken to be complete; the broken-pipe exits are not modelled.
- Reads: a read returns between one byte and the room left in the buffer, or nothing at the end of the input; a failing read, after which mmuniq stops without its last turn, is not modelled.
- Connectx.Kernel.ConnectxUdp: starts after the local address is resolved; `_get_src_route` and the netlink packing are not modelled.
- TCP: `_connectx_tcp` and the eBPF variant rely on the kernel alone.
- PortScan.ReservedPorts: splitting the text of the reserved list, of which at most 512 bytes are read, is not modelled; the entries come parsed.
- PortScan.GetUdpPort: each port is looked up at most once, so the answers form a function of the port; whether an answer still holds later is not claimed.
- Gadget.Blob.FillCode: negative cycle counts, the `inc` gadget, the memory mapping with its shadow and the aarch64 half are not modelled.
- GadgetLimits.WarmUpIff: for gadgets other than jmp_weaved the warm-up runs a second mapping of the same bytes, which is not modelled.
- NlHash.FindNlAndHash: the AES rounds are uninterpreted.
- Finder.Find: in the build without SSE the keyed SipHash is a parameter; that the code computes it is what `SipHash` shows.
- Mmuniq.Driver.MaybeResize: the fill threshold is a function of the table size; its floating-point product is not modelled.
- Bloom.Filter.ProcessLines: sizing from the false-positive rate is floating-point arithmetic; size, number of hashes and keys are parameters.
- Mmdist.SearchBatch: reading query lines with fgets and printing the answers, where a missing neighbour is printed as -1, are not modelled.
- Dither.DitherTwoBits: Float32 rounding is not modelled; the arithmetic is exact. `convertToGrey` is not modelled.
- LoaderRuns.ParseObj: the lookup of .symtab and .strtab, finding names in string tables, a failing mmap and mprotect are not modelled; symbols and relocations come decoded, and the functions that the loader supplies are a parameter.
- Aarch64.PatchCall26: the ADD_ABS_LO12_NC and ADR_PREL_PG_HI21 cases are left out: the first reads memory instead of an address and falls through, and no claim is made about either.
- Escape.Escape: MAIL_HEADER, which depends on a mail library, is left out, and so are the template parser and the evaluation of expressions.
- Other directories: kernel experiments, packet tools, dashboards and tracing scripts.
