# HyperBench in Dafny

HyperBench is a small bare-metal x86-64 kernel that runs benchmarks in a virtual machine and prints
what it runs to a reader on the host. This project models its logic below the assembly and proves
what the parts promise each other. `dafny verify dfyconfig.toml` checks all of it.

| files | component | main results |
|---|---|---|
| `Bits`, `PageTable`, `PagePaths`, `HeapSpec`, `Mapping`, `PageRange`, `BootTables`, `Boundaries`, `Heap` | page allocator, 4-level page tables, boot tables | `Machine.GetFreePages`, `Machine.InstallPte`, `Machine.SetupMmu` |
| `Ipi` | the interrupt handshake between CPUs | `NoInterruptLost`, `LeavesOnlyWhenAnswered`, `NeverDeadlocks`, `ReadyCallsComplete` |
| `SmpBoot` | start of the application processors | `NoWrongModeAccess`, `BootCompletes`, `OrderMatters` |
| `SmpCalls` | boot and handshake as one machine | `CallsReturn` |
| `Harness`, `Host`, `Stream` | the benchmark stream and its reader | `HostRecovers` |
| `Format`, `FormatLaws`, `Printf` | formatted printing | `VsnPrintf`, `FormatMeaning`, `AtolUndoesPrintInt` |
| `CString` | the string library | `MemMove`, `SimpleGlob` |
| `Console` | the VGA text console | `Screen.PutS`, `LinesShown` |
| `MpTable` | search and decoding of the MP tables | `MpSearch`, `RoundTrip`, `StopsAtEndIff` |

How the models are built:

- **Paging.** Memory is an array of 64-bit words. The free list is threaded through the pages it
  manages, and page tables live in the same memory. `Translate` is the processor's walk of section 4.5
  of Intel SDM Volume 3A, with permissions; it knows nothing of the allocator. The tables of a tree are
  derived from memory by following links, so that "each table is reached by exactly one path" is a
  statement about memory. The class invariant `Valid` is the ownership invariant: every
  method that models a regular call keeps it, so it holds after every sequence of them. Addresses have 48 meaningful bits, as in the walk.
- **Protocols.** `Ipi`, `SmpBoot` and their product `SmpCalls` are state machines that take one memory or APIC access per step,
  in any interleaving, for any number of CPUs (at most 64 in the CPU table). Memory is sequentially consistent
  and `xchg`/`xadd` are atomic.
- **Stream.** Guest output and host input are character sequences. `Harness` prints through the modelled
  `printf`, so the round trip covers the formatter too.
- **Printing.** `Render` is the output with no size limit; the methods work on bounded buffers as the
  source does and are proved to leave its prefix. `FormatLaws` says what `Render` is for every format.
- **Console.** `Layout` is an unbounded sheet; the 25x80 cells are proved to be its last 25 rows.

Some promises hold only under a condition. Each is stated as an if-and-only-if with a condition that a
caller can check beforehand: ownership after `GetFreePages` and after `InstallPte`, `LoopMeetsEnd`,
`LoopEndsIff`, `AtolUndoesPrintInt`, `AlternateHexWidth`, `HostRecovers`, `MessagesMatterIff`, `CallSticksIff`
(with `NeverDeadlocks` for whole runs), `OrderMatters`, `NeverEndsIff` and `SpinsIff`. `DeadlockIff`
characterises the deadlocked states themselves. `Boundaries` says more about what the allocator does where
callers do not keep to what it relies on.

Where code and comments disagree the model follows the code. The comment of `mpsearch` gives the ROM
area as 0xE0000 to 0xFFFFF; the code searches 0xF0000 to 0xFFFFF. `mpinit` reports a missing
configuration and goes on with a null pointer, so the model goes on reading at address 0. The default
case of its switch leaves the switch but not the loop, so an unknown entry type is modelled as a run
that never ends.

## Model

| member | source | states |
|---|---|---|
| `PageTable.OffsetMeaning` | include/page.h:56-57 | The shift and mask of `PGDIR_OFFSET` select, for every address and level, the 9-bit table index of the processor's walk |
| `PageTable.MaskMeanings` | include/page.h:26-42 | Bitwise tests with the present and address masks mean: bit 0 is set, and bits 51 to 12 as an address |
| `PageTable.TableFlagsMeaning` | x86_64/heap.c:143 | Or-ing present, writable and user into a word sets exactly its low three bits |
| `PageTable.LargeFlagMeaning` | x86_64/heap.c:152-156 | Adding the page-size bit keeps the three permission bits and everything from bit 8 up |
| `PageTable.StoreTables` | x86_64/heap.c:124-150 | One store into one table entry: every table of every tree stays where it was, except that below that entry there is now just the newly linked table, or nothing |
| `PageTable.StoreKeepsTrees` | x86_64/heap.c:124-150 | Such a store keeps the forest well formed: tables are whole pages, each is reached by exactly one path from exactly one root, and links never restrict access |
| `PageTable.OtherWalks` | x86_64/heap.c:147-149 | The walk of an address whose path does not go through the stored entry, in any tree, gives what it gave before |
| `PageTable.LinkKeepsWalks` | x86_64/heap.c:136-144 | Linking a zeroed page where nothing was present changes no translation of any address in any tree |
| `PageTable.LeafWalks` | x86_64/heap.c:147-149 | After the final store every address below the stored entry translates by that entry alone, with full permissions from the tables above |
| `PageTable.AddRoot` | x86_64/heap.c:179-181 | A zeroed page outside all trees can become a new root: a well-formed tree that maps nothing |
| `PagePaths.PathLeadsTo` | include/page.h:56-57 | A path of table indexes leads to an address if and only if, read as a base-512 number, it is the address's page number divided by the table's reach |
| `HeapSpec.LoopMeetsEnd` | x86_64/heap.c:58-61 | In 64-bit arithmetic the `!=` loop of `get_free_pages` ends if and only if the size is a multiple of the page size |
| `HeapSpec.Prepend` | x86_64/heap.c:43-66 | With pages that can be given, the stores leave one acyclic, page-aligned list of them and the old ones, outside all trees, and no tree changes |
| `HeapSpec.PrependFails` | x86_64/heap.c:43-66 | With page 0, a table or a free page among them, the result is not in order |
| `HeapSpec.TakeHead` | x86_64/heap.c:103-117 | Taking the first page and overwriting all of it keeps the ownership invariant for the rest of the list and every tree's walks |
| `HeapSpec.NewTableStep` | x86_64/heap.c:136-144 | One round that creates a table: ownership invariant kept, descent one level deeper, exactly one more table missing from the old tree |
| `HeapSpec.DryBreaks` | x86_64/heap.c:138-145 | Once a table had to be made without a page, page 0 is linked as a table and the tables are no longer pages of the heap |
| `HeapSpec.DescentEnds` | x86_64/heap.c:134-146 | A descent runs dry if and only if there are fewer pages than tables missing on the path, counting the page the caller offers |
| `HeapSpec.LeafStep` | x86_64/heap.c:147-149 | The last store: ownership invariant kept, tables and translations of all trees given exactly, only words of tables on the path changed |
| `Mapping.PageEntry` | x86_64/heap.c:158-161 | A level-1 entry made from `phys` translates to the page frame of `phys` plus the page offset, writable and for users, whatever low bits `phys` has |
| `Mapping.PageMeans` | x86_64/heap.c:158-161 | In plain addresses: the addresses of the installed page translate to the frame plus the offset, all others as before |
| `Mapping.LargeEntry` | x86_64/heap.c:152-156 | A level-2 entry made from `phys` ends the walk and maps 2 MiB from the frame of `phys` |
| `Mapping.BlockMeans` | x86_64/heap.c:152-156 | The same for a 2 MiB block |
| `Mapping.MissingAt` | x86_64/heap.c:134-146 | A table for the next page is missing if and only if it was not there at the start and covers no earlier page of the range |
| `Mapping.MissingIsNew` | x86_64/heap.c:163-175 | Installing the next page of a range takes from the list exactly as many pages as the count of new tables grows by |
| `Mapping.FreshTreeCount` | x86_64/heap.c:163-190 | In a fresh tree the first N pages need exactly ceil(N/512) + ceil(N/512^2) + ceil(N/512^3) tables below the root |
| `BootTables.BootTreeOk` | x86_64/cstart.S:153-172 | The assembler's boot tables form one well-formed tree: six distinct pages, one path to each |
| `BootTables.BootIsIdentity` | x86_64/cstart.S:153-172 | The boot tables map every address below 4 GiB to itself and nothing else |
| `BootTables.SetupResult` | x86_64/heap.c:177-190 | What the steps of `setup_mmu` compose to: identity below the mapped end, all other trees unchanged, agreement with an identity-mapping old CR3 on everything mapped |
| `BootTables.IdentityMeans` | x86_64/heap.c:184 | In plain addresses: below 4096 N an address translates to itself, with all permissions, and from there up to 2^48 to nothing |
| `Heap.Machine.constructor` | x86_64/cstart.S:153-172 | A machine that starts on the boot tables satisfies the ownership invariant with an empty free list |
| `Heap.Machine.GetFreePages` | x86_64/heap.c:43-66 | Page i of the new list is base + 4096 i and holds the address of the next, the last that of the old head. Ownership is kept if and only if none of the pages is page 0, a table or already free, and then no translation changes; there is a list at the new head at all if and only if none was free; a region at address 0 leaves an empty one |
| `Heap.Machine.HeapAllocPage` | x86_64/heap.c:103-117 | Returns 0 and changes nothing if the list is empty; else the first page, all zero, no longer free, in no tree, with nothing else written |
| `Heap.Machine.InstallPte` | x86_64/heap.c:124-150 | Ownership is kept if and only if there are pages for all missing tables. Then: exact new tables and translations of all trees, the words that may change, the pages consumed, and the slot returned holds the entry |
| `Heap.Machine.InstallOverPresent` | x86_64/heap.c:134-149 | When every entry met is present, large pages included, exactly one word changes: the slot that following the entries' addresses leads to |
| `Heap.Machine.InstallPage` | x86_64/heap.c:158-161 | With pages for the missing tables, and only then, ownership is kept; the page of `virt` then translates to the page of `phys`, and every address of every other page, in this and every other tree, translates as before |
| `Heap.Machine.InstallLargePage` | x86_64/heap.c:152-156 | The same for a 2 MiB block, replacing a smaller-page table below it if there was one |
| `Heap.Machine.InstallPages` | x86_64/heap.c:163-175 | For every start and length for which the loop ends, wrapping sums included: exact translations, exact set of tables, exact number of pages taken from the free list, no write outside the tree |
| `PageRange.LoopEndsIff` | x86_64/heap.c:165-174 | In 64-bit arithmetic the loop of `install_pages` ends if and only if its bound lies before the last address with the start's page offset |
| `PageRange.RoundsMeaning` | x86_64/heap.c:165-174 | A loop that ends makes exactly the given number of rounds, whether or not the sum of start and length wraps |
| `PageRange.EndsWithoutWrapIff` | x86_64/heap.c:165-174 | Where that sum does not wrap, the loop ends if and only if the page after the last one mapped does not reach past 2^64 |
| `Heap.Machine.SetupMmu` | x86_64/heap.c:177-190 | With N the pages below the given end, or below 4 GiB if it is 0, and 1 + ceil(N/512) + ceil(N/512^2) + ceil(N/512^3) free pages: exactly those are consumed, the new CR3 maps every address below 4096 N to itself and no other, other trees keep their walks, and for an end of at most 4 GiB the switch agrees with the boot tables on every mapped address |
| `Heap.Machine.SwitchToStartCr3` | x86_64/heap.c:193-196 | Restores the CR3 that `setup_mmu` saved, keeping the ownership invariant |
| `Heap.Machine.SetupAndSwitchBack` | benchmark/set-cr3.c:15-35 | `setup_mmu` and then `switch_to_start_cr3`, as the benchmarks pair them: every address translates again as before |
| `Boundaries.FreedTwiceIff` | x86_64/heap.c:43-66 | After the stores there is a list at the new head if and only if none of the pages was free before: freeing a page twice closes a circle |
| `Boundaries.TableFreed` | x86_64/heap.c:43-66 | Freeing a region unmaps every address below the first entry of each table in it that is not itself below another one |
| `Boundaries.InstallLost` | x86_64/heap.c:134-149 | If following present entries, large pages of any size among them, leads to a page that is no table, the install changes no translation of any tree |
| `Boundaries.LargePageInTheWay` | x86_64/heap.c:136-149 | Below a 2 MiB page the install arrives at the mapped frame, so unless that is a table it changes no translation |
| `Boundaries.BootInstallLost` | x86_64/cstart.S:153-172 | On the boot tables no install below 4 GiB has an effect on translation; the entry goes to the start of the 2 MiB block, unless that is a table |
| `Ipi.StepInv` | x86_64/mp.c:36-55 | Every step of every CPU keeps the invariant tying lock, `ipi_done`, pending bits and handlers together |
| `Ipi.Safety` | x86_64/mp.c:110-116 | The invariant holds in every state of every run of any number of CPUs |
| `Ipi.NoInterruptLost` | x86_64/mp.c:110-116 | In every run no send finds the vector already pending, and at most one request is sent but not yet answered |
| `Ipi.LeavesOnlyWhenAnswered` | x86_64/mp.c:53-55 | A caller leaves its wait loop only after the handler on its own target stored `ipi_done` for this very request, with nothing else outstanding: never on a stale flag |
| `Ipi.HandlerUninterrupted` | x86_64/mp.c:53-55 | Once entered, a handler is not entered again before its acknowledgement: until then the CPU stays in it and the vector has no effect |
| `Ipi.HandlerLeaves` | x86_64/mp.c:53-55 | A handler first stores `ipi_done` and is left only by acknowledging |
| `Ipi.DeadlockIff` | x86_64/cstart.S:124-130 | With an unfinished caller some non-spinning step is possible if and only if no caller waits for a target that takes no interrupts while no handler runs |
| `Ipi.StuckStays` | x86_64/cstart.S:124-130 | In such a state nothing but the target's `sti` helps: no step of any CPU makes progress |
| `Ipi.NeverDeadlocks` | x86_64/mp.c:110-116 | If every call is made to a CPU that already takes interrupts, then in every state of every such run an unfinished call can move on |
| `Ipi.CallSticksIff` | x86_64/mp.c:110-116 | With the handshake at rest, a call and its caller's next three steps end in a deadlock if and only if the target does not take interrupts at the call |
| `Ipi.DeadlockReached` | x86_64/cstart.S:124-130 | Two CPUs after reset: a call to the one that has not executed `sti` deadlocks |
| `Ipi.ProgressWorks` | include/spinlock.h:8-16 | Every non-spinning step lowers a natural-number measure of the work left |
| `Ipi.CallsComplete` | x86_64/mp.c:110-116 | From every reachable state the number of progress steps is bounded, and where they end the lock is free and every call has returned, unless a target never takes interrupts |
| `Ipi.ReadyCallsComplete` | x86_64/mp.c:110-116 | If every call was made to a CPU that already took interrupts, a bounded number of non-spinning steps returns every call and frees the lock |
| `SmpBoot.MyCpu` | x86_64/proc.c:18-34 | Returns the first table entry with the APIC id, or the table length |
| `SmpBoot.LookupSelf` | x86_64/proc.c:18-34 | With distinct APIC ids every CPU finds its own entry |
| `SmpBoot.Safety` | x86_64/main.c:57-77 | The boot invariant (who is where, in which APIC mode, on which stack, relative to the position of `startothers`) holds after every schedule |
| `SmpBoot.NoWrongModeAccess` | x86_64/apic.c:281-296 | In every schedule every memory-mapped APIC access is made in xAPIC mode and every access through `apic_ops` in the mode of that table, although an AP may switch the table while the BSP is still in xAPIC mode |
| `SmpBoot.MarksItself` | x86_64/main.c:43-52 | An AP about to store a `started` flag stores its own |
| `SmpBoot.OneBootsAtATime` | x86_64/main.c:57-77 | At most one AP is between STARTUP and the store of its flag |
| `SmpBoot.ReturnsWhenAllStarted` | x86_64/main.c:57-77 | When `startothers` has returned, every other CPU of the table has stored its flag |
| `SmpBoot.StacksApart` | x86_64/cstart.S:118-119 | The 4096-byte stacks claimed by any two CPUs are disjoint |
| `SmpBoot.StackBounds` | x86_64/cstart.S:88 | Every claimed stack lies between the initial top and 4096 bytes per AP below it, so at or above 0x61000 for up to 64 CPUs; every started AP has one and the BSP none |
| `SmpBoot.BootNeverDeadlocks` | x86_64/main.c:57-77 | In every reachable state some CPU can take a step that is not a spin, until the BSP is at the benchmarks and every AP rests |
| `SmpBoot.BootCompletes` | x86_64/main.c:20-52 | In every schedule the non-spinning steps are bounded by a measure of the initial state, and where none is left the boot is over |
| `SmpBoot.WithoutX2Apic` | x86_64/apic.c:281-296 | Without x2APIC support nobody ever leaves xAPIC mode, in either order of the last two lines of `mpenter` |
| `SmpBoot.OrderMatters` | x86_64/main.c:43-52 | No schedule makes a wrong-mode access if and only if the flag is stored before the switch, or there is no x2APIC, or there is no AP: the answer to the question in the comment there |
| `SmpCalls.Safety` | x86_64/main.c:25-52 | In every run of boot and handshake together both invariants hold, an AP takes interrupts exactly once it rests, no APIC is accessed in the wrong mode and no interrupt is lost |
| `SmpCalls.NeverDeadlocks` | x86_64/mp.c:110-116 | Until the boot is over and the BSP's call has returned, some CPU can take a step that is not a spin |
| `SmpCalls.CallsReturn` | x86_64/mp.c:110-116 | From every state of every run, whatever is scheduled next, the non-spinning steps are bounded, and where none is left the boot is over, the call has returned and the lock is free |
| `SmpCalls.EarlyCall` | x86_64/cstart.S:124-130 | A run in which the BSP calls a started AP before its `sti`: the handshake alone is deadlocked there, and yet the system moves on |
| `Harness.Guest.Printf` | lib/printf.c:284-299 | Sends the rendering of the format up to its first NUL or the end of the buffer |
| `Harness.SentAllIff` | lib/printf.c:284-299 | `printf` sends all of a text if and only if it has no NUL and fits the 2000-byte buffer |
| `Harness.Guest.HarnessExecute` | harness/harness.c:11-72 | Emits one record: padded names, output of init, the count, the two delimited timed sections, the cleanup output, in that order |
| `Harness.Guest.HarnessMain` | harness/harness.c:75-105 | Adds to the output the pin line, header, begin marker, all records in table order and the end marker twice |
| `Harness.HeaderRenders` | harness/harness.c:93-97 | The header's format, read directive by directive, gives three left-aligned columns and a line end |
| `Harness.CountRenders` | harness/harness.c:23 | The count's format gives the signed decimal text of all 64 bits, left aligned in 10 columns |
| `Host.Reader.ReadStart` | host/host.c:29-42 | Consumes whole lines up to and including the first equal to the marker, or everything, and says which |
| `Host.Reader.ReadTimeStartChar` | host/host.c:45-58 | Consumes one character and returns it only if it opens a section |
| `Host.Reader.ReadTimeEndChar` | host/host.c:60-66 | Consumes exactly through the first closing character; without one it never returns |
| `Host.Reader.ReadBenchmark` | host/host.c:69-81 | Either all of category, name and count are scanned and recorded, or no record is made; the rest of the input is given exactly |
| `Host.SpaceCodes` | host/host.c:76 | White space between the fields is blank and the codes 9 to 13 |
| `Host.Reader.Execute` | host/host.c:98-158 | The records collected, the input left, and whether the run ends are those of the recursive reading of the stream |
| `Stream.RecordScanned` | host/host.c:69-81 | A record with a blank after both names is scanned back to its category, name and count |
| `Stream.RecordsRead` | host/host.c:119-156 | The record loop recovers the list and stops having consumed the first end marker only |
| `Stream.RecordsDiffer` | host/host.c:69-81 | One record whose names run together makes the recovered list differ from the guest's |
| `Stream.StreamRun` | host/host.c:119-156 | Behind whatever whole lines the kernel printed before, the host skips pin line and header and starts at the first record; after its loop it takes the second end marker |
| `Stream.HostRecovers` | host/host.c:119-156 | For every list of well-behaved benchmarks, behind any messages of the kernel that end their lines, the host recovers exactly the guest's records and ends with the stream fully read if and only if every category is shorter than 15 characters and every name is too or is followed by output of init |
| `Stream.MessagesMatterIff` | host/host.c:29-42 | Where no star is printed outside the pin line, the host recovers a non-empty list if and only if the messages before end their last line and the names are followed by white space; otherwise it takes nothing for a record |
| `Stream.NoTableMessage` | x86_64/mp.c:265-267 | The message of `mpinit` about a missing table does not end its line, so where the pin line follows it, which it does if no CPU is found, the host reads no record |
| `Format.PaddedWidth` | lib/printf.c:36-60 | A padded text has max(length, |width|) characters: the text intact at the right or left end, and the pad character in front or blanks behind |
| `Format.AlternateHexWidth` | lib/printf.c:98-135 | Alternate hex has max(|width|, digits + 2) characters if and only if it is not '0'-padded with a negative width beyond the digits |
| `Format.DigitsRoundTrip` | lib/printf.c:64-96 | Reading the digits of n in any base from 2 to 16 gives n |
| `Format.AtolUndoesPrintInt` | lib/string.c:140-169 | `atol` of a printed decimal gives the number back if and only if it is not a negative number behind '0' padding; the magnitude it builds up on the way never exceeds |n|, so nothing overflows |
| `Format.AtolReads` | lib/string.c:140-169 | `atol` reads a number behind any blanks and tabs and one sign, up to the first character that is no digit |
| `Format.AlternateHexReads` | lib/printf.c:98-135 | The text of alternate hex, under either padding and any width, reads back as n |
| `FormatLaws.FormatMeaning` | lib/printf.c:153-260 | For any list of plain text, percent signs and fields with any flags, width, length and conversion, the format prints the pieces in order, each field with its own argument, and is undefined exactly when one has no fitting argument |
| `FormatLaws.UnsignedLaw` | lib/printf.c:220-245 | %x and %u print the low 32 or 64 bits in base 16 and 10, in a field as wide as the wider of width and digits, and read back |
| `FormatLaws.AlternateLaw` | lib/printf.c:233-249 | With '#', and always for %p, a number other than 0 prints as 0x and its hex digits and reads back; a pointer has 64 bits |
| `FormatLaws.SignedLaw` | lib/printf.c:207-219 | %d prints the signed value of the low 32 or 64 bits, which `atol` reads back if and only if zeros do not hide its sign; only the least 64-bit number is undefined |
| `FormatLaws.SignedMeans` | lib/printf.c:207-219 | That value is congruent to the argument and lies in the range of int or long |
| `FormatLaws.CharAndTextLaw` | lib/printf.c:177-179 | %c prints the low byte whatever the width; %s prints the text whole at its side of the field |
| `FormatLaws.SizeIsLong` | lib/printf.c:195-206 | z and t mean one l |
| `FormatLaws.OddDirectives` | lib/printf.c:180-182 | A percent sign at the end prints nothing; before a character that means nothing it prints that character |
| `FormatLaws.HexDirectives` | x86_64/desc.c:57-63 | The exact text of %x, %lx, %016lx, %08lx, %04lx, %#lx and %p for every argument |
| `FormatLaws.DecimalDirectives` | x86_64/main.c:23-87 | The exact text of %u, %lu, %-15lu, %c, %d, %5d, %ld and %-10ld for every argument |
| `Printf.RevDigitsAreDigits` | lib/printf.c:74-91 | The remainders produced last digit first, reversed, are the number's digits |
| `Printf.WordDigitsFit` | lib/printf.c:64-96 | Any 64-bit number has at most 20 digits, so digits, sign or prefix and NUL fit the local buffers |
| `Printf.PStream.AddChar` | lib/printf.c:27-34 | The unbounded output grows by the character; the buffer holds its prefix; nothing past the size is written |
| `Printf.PStream.PrintStr` | lib/printf.c:36-60 | Appends the padded text, although the loop counts the width down past zero |
| `Printf.PStream.PrintInt` | lib/printf.c:64-96 | Appends the padded signed decimal of the number |
| `Printf.PStream.PrintUnsigned` | lib/printf.c:98-135 | Appends the padded digits with the 0x prefix inside or before the padding |
| `Printf.FmtNum` | lib/printf.c:137-151 | Returns the field's value as an int and steps over exactly the sign and digits |
| `Printf.PrintDirective` | lib/printf.c:171-256 | One directive emits and consumes what the format's meaning says and leaves the cursor at or before the terminator |
| `Printf.VsnPrintf` | lib/printf.c:153-260 | For every size of at least 1: the buffer holds the first min(total, size - 1) characters of the unbounded output and a NUL, bytes from `size` on are untouched, and the total returned does not depend on the size |
| `CString.MemMove` | lib/string.c:114-128 | For every overlap the destination holds the old source and everything else is unchanged |
| `CString.MemCmp` | lib/string.c:100-112 | Zero if and only if the blocks are equal; else the difference at the first place they differ |
| `CString.StrCmp` | lib/string.c:38-50 | Zero if and only if the strings are equal; else the difference of the first differing characters, the terminator counting as 0 |
| `CString.SignedCodeMeans` | lib/string.c:38-50 | The value of a byte as a signed char agrees with it modulo 256 and has 8 bits |
| `CString.StrStr` | lib/string.c:60-75 | The first occurrence, or none exactly when there is none |
| `CString.SimpleGlob` | lib/string.c:187-225 | True if and only if the pattern without its stars occurs in the text, at its start unless a star leads and at its end unless one trails |
| `CString.GlobEqual` | lib/string.c:187-225 | A pattern without stars matches only itself |
| `CString.GlobPrefix` | lib/string.c:187-225 | With a trailing star it matches what begins with it |
| `CString.GlobSuffix` | lib/string.c:187-225 | With a leading star it matches what ends with it |
| `CString.GlobInside` | lib/string.c:187-225 | With both it matches what it occurs in |
| `CString.StarsMatchAll` | lib/string.c:187-225 | '*' and '**' match everything, and the empty pattern only the empty text |
| `CString.Atol` | lib/string.c:140-169 | The signed number after blanks and an optional sign, computed without overflow |
| `Console.SlotFromXy` | x86_64/console.c:16-22 | Null exactly off screen; otherwise the one slot whose column and row are x and y |
| `Console.PlainLayout` | x86_64/console.c:72-87 | Text without line ends is laid out 80 to a row in order |
| `Console.PlainRun` | x86_64/console.c:72-87 | Plain text that stays within the row overwrites it from the cursor on, whatever was put before |
| `Console.NewlineLaw` | x86_64/console.c:74-75 | A line feed starts a new blank row at column 0 and keeps all others |
| `Console.ReturnLaw` | x86_64/console.c:76-77 | A carriage return goes to column 0 and changes no cell |
| `Console.ReturnOverwrites` | x86_64/console.c:76-77 | So a text after it overwrites the front of the row |
| `Console.LinesLayout` | x86_64/console.c:72-87 | Any list of lines shorter than a row is laid out one below the other, each with a blank tail |
| `Console.LinesShown` | x86_64/console.c:50-87 | Of such a list the screen shows the last 24 above a blank row, or all of them from the top |
| `Console.ImageCells` | x86_64/console.c:16-22 | The word at 80 y + x of the video memory is that cell of the sheet |
| `Console.ScrolledImage` | x86_64/console.c:50-70 | Moving the rows up and blanking the last is what a line feed does to the last 25 rows of the unbounded sheet |
| `Console.Screen.Clear` | x86_64/console.c:24-34 | The cleared screen shows the empty sheet with the cursor at its start |
| `Console.Screen.NewLine` | x86_64/console.c:50-70 | The screen shows the sheet after a line feed, scrolled exactly when it was on the last row |
| `Console.Screen.PutC` | x86_64/console.c:72-87 | The screen shows the sheet after the character, the cursor in range throughout |
| `Console.Screen.PutS` | x86_64/console.c:89-104 | After any sequence of calls the 25x80 cells are the last 25 rows of the unbounded layout of everything put since the first |
| `MpTable.Sum` | x86_64/mp.c:150-158 | The sum of the bytes modulo 256 |
| `MpTable.FloatingBytes` | x86_64/mp.c:170 | A floating structure is the bytes of _MP_ at the start of sixteen that sum to 0 |
| `MpTable.SearchIsLowest` | x86_64/mp.c:161-177 | The scan finds the lowest 16-byte step that is a floating pointer with a zero checksum, or none exactly when none exists |
| `MpTable.MpSearch1` | x86_64/mp.c:161-177 | For every start and length, in wrapping 64-bit arithmetic: the first step that is a floating structure, or the end of the range, or a scan that goes round for ever |
| `MpTable.SearchedIsFirst` | x86_64/mp.c:161-177 | Over a length that is a multiple of 16 the search ends, with the lowest hit of the range, or with none exactly when there is none |
| `MpTable.NeverEndsIff` | x86_64/mp.c:161-177 | It goes on for ever if and only if the range ends past the last 16-byte step of the address space and no step is a floating structure |
| `MpTable.MpSearch` | x86_64/mp.c:184-226 | The first hit in the kilobyte at the EBDA whose segment stands at 0x40E, or, if that is 0, in the last kilobyte below the size that stands at 0x413; only without one, the first hit from 0xF0000 to 0xFFFFF |
| `MpTable.MpConfig` | x86_64/mp.c:233-251 | The table whose little-endian address stands in the floating structure from byte 4 on, if and only if there is one, the address is not 0 and the table is accepted |
| `MpTable.TableAccepted` | x86_64/mp.c:243-248 | Accepted means: the bytes of PCMP, version 1 or 4, and as many bytes as the length says that sum to 0 |
| `MpTable.DecodesEntries` | x86_64/mp.c:271-295 | Decoding any list of entries of types 0 to 4 stops exactly at their end with the first 64 processor ids in order and the last I/O APIC id |
| `MpTable.SampleTable` | include/mp.h:32-57 | Byte by byte: a processor entry takes 20 bytes, others 8, and the ids are the second bytes |
| `MpTable.StopsAtEndIff` | x86_64/mp.c:271-295 | The decoder stops exactly at the table's end if and only if the table is a list of whole entries of types 0 to 4 |
| `MpTable.SpinsIff` | x86_64/mp.c:291-293 | It never returns if and only if whole entries lead to one of unknown type before the end |
| `MpTable.EncodedIsTable` | include/mp.h:15-30 | Any entries of types 0 to 4, written behind a header with their total length and the complement of their sum as checksum, form a table that is accepted |
| `MpTable.RoundTrip` | x86_64/mp.c:256-295 | A table written anywhere below 4 GiB, with its address in the four bytes of the floating structure, is found, and decoding it gives back the first 64 processor ids that were written and the last I/O APIC id, ending exactly at its end |
| `MpTable.EveryRun` | x86_64/mp.c:271-295 | On arbitrary memory the decoder reads whole entries and then is at or past the end, or stands for ever on an entry of unknown type before it |
| `MpTable.Machine.MpInit` | x86_64/mp.c:256-295 | From an empty CPU table, a table that is a list of entries leaves the first 64 processor ids and the last I/O APIC id; `lapic` is the little-endian number in bytes 36 to 39 of the header |

## Left out

- Sizing of the heap from the firmware's memory map (`get_memory_map`, `early_mem_init`): depends on the firmware; `GetFreePages` takes any region of whole pages outside the trees and the list.
- `alloc_vpages`: one subtraction under a lock, and its result is read after the unlock.
- TLB, caches, the accessed and dirty bits, and no-execute in the walk: not needed for where an address leads.
- Heap.Machine.InstallPte: asks for no large page on the way down, because the source does not look for one (`InstallLost`, `LargePageInTheWay` and `BootInstallLost` say what happens then if every word met is present; nothing in the source makes 1 GiB pages), and for entries that do not themselves link a table; no caller installs such an entry.
- Heap.Machine.InstallPages: ranges that pass linear address 2^48 are excluded; so is a list that is too short for the whole range, where the first page that misses a table ends as `InstallPage` says.
- Heap.Machine.GetFreePages: sizes that are no page multiple are excluded, because by `LoopMeetsEnd` the source never returns for them, and so are regions that are not aligned or not in memory.
- The function and data arguments of `on_cpu`: the handler does not use them.
- The wait for an idle interrupt command register in xAPIC mode is part of one send step.
- SmpBoot.Safety: x2APIC support is the same on all CPUs, APIC ids are distinct and the BSP is in the table.
- Weak memory ordering, delays between INIT and STARTUP, a second STARTUP doing more than being ignored.
- Timing, `rdtsc`, serial and PIC programming, `platform_shutdown`, bodies of the benchmarks: hardware effects; a benchmark is what it prints.
- The bare-metal build of the harness, which prints times instead of delimiters.
- Pinning by `popen`, time stamps and the result file of the host.
- Host.Reader.ReadBenchmark: the 128-byte arrays for category and name are unbounded here and counts beyond 64 bits wrap; C leaves both overflows undefined.
- Harness.Guest.HarnessExecute: names of together 2^31 characters, and a count of -2^63, which C leaves undefined.
- Stream.HostRecovers: names so long that `printf` cuts them off (2000 bytes with padding) are excluded.
- Printf.PStream.PrintInt: the least 64-bit number is excluded, because its negation overflows in C.
- Printf.VsnPrintf: sizes below 1, calls whose arguments do not fit the format, field widths of 2^63 or more and outputs of 2^31 characters or more are excluded, because C leaves them undefined.
- CString.Atol: numbers of 2^63 or more are excluded, because they overflow in C.
- `binstr`, `memset`, `memcpy`, `strcpy`, `strcat`, `strchr`, `memchr`, `strncmp` with a limit.
- MP tables: the default configurations and the extended table, which the source does not read either.
- Exception stubs and dispatch, GDT and TSS layout, I/O APIC helpers, `lib/stack.c`: assembly or field packing.
