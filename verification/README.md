# Verified models of BareBonesOS

BareBonesOS bundles a C++ runtime (libcxxrt), a small libc and its own containers.  This project models the
parts of them that are hard to get right and proves what they are for.  Each file is one module; `Common.dfy`
holds what several modules share.

| file | models |
|---|---|
| `HandlerNesting.dfy` | what a program can see of exception handling: handlers and propagations, nested |
| `CaughtExceptions.dfy` | the caught-exception stacks, handler counts and reference counts, for any number of threads |
| `Leb128.dfy`, `DwarfEh.dfy` | decoding of the exception tables, and the call-site scan |
| `Personality.dfy` | matching against action chains, and two-phase unwinding |
| `StaticGuard.dfy` | the guards of function-local statics, in both memory layouts, under every interleaving |
| `EmergencyPool.dfy` | the emergency exception buffers, under every interleaving |
| `TypeMatch.dfy` | upcasts, and which handler catches which pointer |
| `Demangler.dfy` | demangling of qualified builtin types |
| `CharTraits.dfy`, `CowString.dfy` | the copy-on-write string |
| `Sharable.dfy` | the copy-on-write handle |
| `Vector.dfy` | the vector: raw slots, objects, blocks |
| `CircularList.dfy`, `LinearList.dfy` | the two linked lists |
| `StreamBuf.dfy` | stream buffers over a growing vector |
| `CalendarTime.dfy` | `mktime` |
| `WordScan.dfy` | `strlen` and `strnlen`, eight bytes at a time |
| `MemOps.dfy` | `memcpy`, `memmove`, `memcmp` |
| `SubstringSearch.dfy` | `strstr` and `basic_string::find` |
| `Decimal.dfy` | decimal printers and `strtol` |
| `RoundRobin.dfy` | the kernel's task queue |

Objects that the source updates in place are classes with the same fields; a ghost part (handles of a buffer,
owner of a payload, nodes of a list, how often something was freed) says what the real fields have to agree
with, and every method keeps that agreement.  The concurrent protocols are labelled steps over any number of
threads, and their theorems are about whole runs.  A method that loops is proved equal to a function, and the
lemmas are about the function.

Where a theorem is about a class, a step is proved in two parts: the method states what it does to the fields,
and a lemma over the two heaps shows that this keeps the invariant.

## Where the code does not do what it is for

In each of these cases the model follows the code, and a theorem says exactly when the code is right.

- `strstr` skips over a partial match.  It finds the first occurrence in every text exactly if the needle has
  no shift under which it agrees with itself for a while and then not (`SubstringSearch.StrStrIsRight`,
  `SubstringSearch.AabIsMissed`).  Its positions are ints, which texts below 2^31 cannot overflow.
- `memcmp` compares little-endian words.  Its sign is right exactly if the first difference and the last one in
  the same word have the same direction (`MemOps.SignIsRight`); four bytes for which it is wrong are in
  `MemOps.FirstByteOutweighed`.
- `memmove` counts in an int when it moves down by less than a word, which is right exactly below 2^31 bytes
  (`MemOps.MemMove`).
- `strtol` subtracts ten from letters instead of adding it.  In every base, decimal digits are read correctly exactly
  if none of the first 10 + base letters follows, in either case: in base 10 none of A to T
  (`Decimal.DecimalDigitsAreRead`).  With base 0 plain decimal numbers are read as 0 (`Decimal.BaseZeroReadsNothing`).
- `c_int_to_str` prints a number of ten digits with a base that wrapped: 1000000000 comes out as 709186972
  (`Decimal.PrintedIsRight`, `Decimal.BillionIsPrintedWrong`).  `c_uint_to_str` is right exactly below 10^19;
  from there on it prints too little or divides by zero (`Decimal.PrintedUIsRight`,
  `Decimal.LargestDividesByZero`).
- `mktime` writes the year back as an int and the month as the truncated remainder.  A second call on the same
  fields agrees exactly if the year with its carry fits an int and the month was not negative inside a year
  (`CalendarTime.SecondCallAgrees`, `CalendarTime.SecondCallsThatDiffer`).
- The emergency pool's per-thread counter is never decremented, although the comment above it speaks of
  buffers a thread holds: a thread gets four buffers in its life (`EmergencyPool.RefusedExactly`), and is refused
  a fifth although all are free (`EmergencyPool.RefusedHoldingNothing`).
- The call-site scan runs one record into the action table when no record covers the instruction pointer.  It
  reports that none does exactly if the bytes there do not look like a record that does
  (`DwarfEh.ScanRunsIntoActionTable`, `DwarfEh.PhantomCallSite`).
- A cleanup that follows an exception specification which let the exception pass is told that the
  specification was violated, unless a cleanup record comes after it (`Personality.CleanupSelector`).
- Pointer handlers miss a thrown `nullptr`, and qualification conversions at or below a pointer to member.  They
  take a pointer for a pointer to member, take the steps to a base class and to void at every depth, where the
  language knows them for one level only, and do not ask whether a base class is ambiguous or public.  The code
  agrees with the language exactly outside these five families (`TypeMatch.AgreesWithLanguage`,
  `TypeMatch.CaughtAgainstTheLanguage`).
- Copying a `sharable` whose block was moved away, or moving one onto itself, leaves a block whose data pointer
  nobody set (`Sharable.Program.CopyOf`, `Assign`, `MoveAssign`).  Giving a handle a payload that some handle has, or
  had, leaves it deleted or with two owners: all is well exactly for null and for a new payload
  (`Sharable.Program.SetData`, `SetOwnData`).
- Assigning a vector to itself empties it (`Vector.Vector.Assign`, `MoveAssign`).  Appending one of its own objects
  by reference reads the block it just returned exactly if it was full, and so does extending it with one if the
  block is too small (`Vector.Vector.PushBackElement`, `ResizeWithElement`).
- Erasing the last node of the circular list returns an iterator to the freed node (`CircularList.List.Erase`).
- Appending to a string from its own buffer up to and including the terminator copies the first character in
  place of the terminator (`CowString.Heap.AppendThroughTerminator`).
- `Char_Traits::copy` counts in an unsigned int and never ends from 2^32 characters on (`CharTraits.CopyChars`); the
  string operations say when they run into that, by an outcome of their own.
- The put pointer of a stream buffer is moved by an int.  Characters and blocks are put exactly as long as the
  offsets fit one (`StreamBuf.Placed`, `StreamBuf.VectorStreambuf.Sputn`).
- `basic_string::find` never finds the empty string, and it reads outside the text exactly if position and length
  wrap around to a place in it, as they do for one character and npos (`SubstringSearch.Find`).
- The type path of the demangler ignores whatever follows the type (`Demangler.MangledIsRead`).

Two more are visible in the models without a theorem of their own: the unlinking of a middle node of the
circular list is written inside an `assert`, so the model is that of a build with assertions; and `mktime`
leaves the day of the month as it was given.

## Model

| member | source | states |
|---|---|---|
| HandlerNesting.RunKeepsNesting | Libraries/libcxxrt/exception.cc:838-888 | every legal run of throw, begin-catch, rethrow and end-catch keeps the nesting in which a rethrown exception is the innermost handled one |
| HandlerNesting.MembersCounted | Libraries/libcxxrt/exception.cc:1210-1282 | the list holds exactly the exceptions with a running handler |
| HandlerNesting.CaughtIsDistinct | Libraries/libcxxrt/exception.cc:1210-1282 | no exception is listed twice |
| HandlerNesting.CaughtIsInnermostFirst | Libraries/libcxxrt/exception.cc:1290-1349 | the list is ordered by innermost handler |
| HandlerNesting.EndCatchEffect | Libraries/libcxxrt/exception.cc:1290-1349 | leaving a handler takes one handler from the innermost exception, changes no propagation, and pops the list exactly with the last handler |
| CaughtExceptions.Runtime.AllocateDependentException | Libraries/libcxxrt/exception.cc:588-593 | a new dependent exception that nobody needs yet |
| CaughtExceptions.Runtime.Throw | Libraries/libcxxrt/exception.cc:740-787 | throwing pushes a propagation and keeps all counts of all threads right; nothing else needs the exception yet |
| CaughtExceptions.Runtime.BeginCatch | Libraries/libcxxrt/exception.cc:1210-1282 | the propagation becomes a handler; the stored count is minus the handlers exactly while rethrown; what needs the exception, exception_ptrs and dependent exceptions included, stays |
| CaughtExceptions.Runtime.Rethrow | Libraries/libcxxrt/exception.cc:838-888 | terminates exactly when nothing is handled, fails its assertion exactly when the innermost is rethrown already, otherwise propagates it; what needs the exception stays |
| CaughtExceptions.Runtime.EndCatch | Libraries/libcxxrt/exception.cc:1290-1349 | leaves the innermost handler, also as the cleanup of a propagation, and releases one reference with the last one; no exception_ptr is gained or lost |
| CaughtExceptions.Runtime.ReleaseException | Libraries/libcxxrt/exception.cc:623-637 | drops one reference, of the primary for a dependent exception, and frees at zero |
| CaughtExceptions.Runtime.FreeDependentException | Libraries/libcxxrt/exception.cc:639-648 | frees the dependent exception and drops its reference to the primary |
| CaughtExceptions.Runtime.CurrentPrimaryException | Libraries/libcxxrt/exception.cc:806-815 | one more exception_ptr to what the innermost handler handles, none if nothing is handled |
| CaughtExceptions.Runtime.IncrementRefcount | Libraries/libcxxrt/exception.cc:817-822 | one more exception_ptr, and nothing else |
| CaughtExceptions.Runtime.DecrementRefcount | Libraries/libcxxrt/exception.cc:824-830 | one exception_ptr less; frees exactly when nothing else needs the exception |
| CaughtExceptions.Runtime.RethrowPrimary | Libraries/libcxxrt/exception.cc:789-804 | throws a dependent exception that keeps its primary alive; the exception_ptrs to the primary stay |
| CaughtExceptions.Runtime.CatchAndKeep | Libraries/libcxxrt/exception.cc:740-830 | throw, catch, current_exception, end of the handler, release: within any nesting the exception outlives its handler and is freed once, by the last exception_ptr |
| CaughtExceptions.Runtime.ListIsCaught | Libraries/libcxxrt/exception.cc:1290-1349 | the linked list is exactly the handled exceptions of the thread, innermost first |
| CaughtExceptions.Runtime.CountersAreExact | Libraries/libcxxrt/exception.cc:740-888 | the handler count is the number of running handlers, negative exactly while a handled exception propagates again; the uncaught count is the number of propagations; the reference count is everything that needs the exception |
| CaughtExceptions.Runtime.FreedExactlyWhenUnneeded | Libraries/libcxxrt/exception.cc:603-648 | freed at most once, and exactly when no frame, exception_ptr or dependent exception needs it |
| CaughtExceptions.Runtime.QuiescentMeansAllFreed | Libraries/libcxxrt/exception.cc:603-648 | once all handlers are left and all exception_ptrs gone, everything thrown was freed |
| Leb128.ReadLeb128 | Libraries/libcxxrt/dwarf_eh.h:156-179 | the decoding loop reads seven bits a byte, lowest first, up to the first byte without the high bit, as far as the shifted digit is an int |
| Leb128.UlebRoundTrip | Libraries/libcxxrt/dwarf_eh.h:189-195 | decoding undoes the unsigned encoding of section 7.6 of DWARF Version 4 and consumes exactly its bytes |
| Leb128.SlebRoundTrip | Libraries/libcxxrt/dwarf_eh.h:200-211 | the same for the signed encoding |
| Leb128.FitsU | Libraries/libcxxrt/dwarf_eh.h:156-179 | exactly the numbers below 2^31 are encoded so that the source can read them back |
| Leb128.FitsS | Libraries/libcxxrt/dwarf_eh.h:156-179 | exactly the signed numbers from -2^27 to 2^31 are |
| DwarfEh.FindCallSite | Libraries/libcxxrt/dwarf_eh.h:406-460 | the loop is the scan that the following lemmas are about |
| DwarfEh.ScanFindsCoveringSite | Libraries/libcxxrt/dwarf_eh.h:406-460 | in a sorted table the early exit never misses the record with start < ip <= start + size, and it directs to the landing pad at its offset and to the action record at its offset less one, or to none for 0 |
| DwarfEh.ScanFindsGap | Libraries/libcxxrt/dwarf_eh.h:406-460 | a gap before a later record is recognised |
| DwarfEh.ScanRunsIntoActionTable | Libraries/libcxxrt/dwarf_eh.h:406-460 | a missing record is reported as missing exactly if the bytes of the action table, read as a record, start behind the instruction pointer or do not cover it |
| DwarfEh.PhantomCallSite | Libraries/libcxxrt/dwarf_eh.h:406-460 | an empty table in which a record is found |
| DwarfEh.ValueRoundTrip | Libraries/libcxxrt/dwarf_eh.h:156-247 | in every encoding, of fixed width or LEB128, signed or not, a number is read back sign-extended to 64 bits, and exactly its bytes are consumed |
| DwarfEh.SiteRoundTrip | Libraries/libcxxrt/dwarf_eh.h:218-247 | a record is read back wherever it lies, if its fields are written so that they are |
| DwarfEh.TableRoundTrip | Libraries/libcxxrt/dwarf_eh.h:218-247 | a whole written table is read back record by record |
| DwarfEh.EmittedTableIsSearched | Libraries/libcxxrt/dwarf_eh.h:406-460 | from bytes emitted in any encoding to the landing pad and action record of the record with start < ip <= start + size |
| Personality.MatchSpecification | Libraries/libcxxrt/exception.cc:1000-1026 | whether some type of the zero-terminated list matches |
| Personality.ChainRoundTrip | Libraries/libcxxrt/exception.cc:980-987 | action records stored anywhere, each with its filter and the distance from its displacement field to the next record, 0 in the last, are read as the chain of their filters |
| Personality.StopsExactly | Libraries/libcxxrt/exception.cc:988-1026 | a filter stops the search exactly if it is positive and its type matches, or negative and no type of the list behind the type table, at the number of the specification less one, does |
| Personality.CheckActionRecord | Libraries/libcxxrt/exception.cc:971-1042 | catch exactly if some filter of the chain stops the search, cleanup exactly if none does and the chain has a zero or is absent; the selector is the stopping filter, or the last one that is not positive |
| Personality.WrittenChainDecides | Libraries/libcxxrt/exception.cc:971-1042 | from the bytes of records and specifications to the verdict: the first filter that stops the search is a catch and the selector; without one there is a cleanup exactly if there is a zero |
| Personality.RunPersonality | Libraries/libcxxrt/exception.cc:1122-1199 | what each phase returns and what it caches in the exception, which cleanups leave alone |
| Personality.RaiseException | Libraries/libcxxrt/exception.cc:68-111 | over any stack of frames: the search stops at the nearest frame that stops it, the second phase installs exactly the cleanups below it in order, and then the landing pad and selector cached there |
| Personality.BelowTargetOnlyCleanups | Libraries/libcxxrt/exception.cc:1122-1199 | below the target only cleanups of frames without a matching catch are entered, nearest first |
| Personality.EveryCleanupRuns | Libraries/libcxxrt/exception.cc:1122-1199 | and each of them is |
| Personality.CleanupSelector | Libraries/libcxxrt/exception.cc:971-1042 | a cleanup gets selector 0 exactly if a zero record follows every negative one |
| Personality.CleanupMistakenForViolation | Libraries/libcxxrt/exception.cc:971-1042 | a chain whose cleanup gets a negative selector |
| StaticGuard.ConfigurationsAreSound | Libraries/libcxxrt/guard.cc:70-111 | the constants of all five configurations fit the protocol |
| StaticGuard.StepKeepsInv | Libraries/libcxxrt/guard.cc:118-193 | every step of every thread keeps the invariant, and no assertion fails |
| StaticGuard.CallsReturn | Libraries/libcxxrt/guard.cc:118-193 | acquire leads to the program with 0 or to the initialiser with 1, which ends with the release or abort it chooses; nothing is shown in between, and no step moves another thread |
| StaticGuard.StepRefines | Libraries/libcxxrt/guard.cc:118-193 | every step, in both layouts, is a step of one three-state guard |
| StaticGuard.RunsRefine | Libraries/libcxxrt/guard.cc:118-193 | under every interleaving only what that guard allows is visible |
| StaticGuard.AtMostOneInitialises | Libraries/libcxxrt/guard.cc:118-167 | between two acquires that return 1 the first thread aborted |
| StaticGuard.ZeroMeansDone | Libraries/libcxxrt/guard.cc:118-167 | acquire returns 0 only after a release |
| StaticGuard.DoneIsFinal | Libraries/libcxxrt/guard.cc:180-193 | after a release nobody is asked to initialise |
| StaticGuard.GuardIsCorrect | Libraries/libcxxrt/guard.cc:118-193 | all of that for runs from the start |
| StaticGuard.FreeGuardIsObtained | Libraries/libcxxrt/guard.cc:118-167 | in every reachable state a thread that calls acquire or is in it, and steps while no other holds the guard, has its answer within four steps: 1 unless some thread has released the guard, then 0 |
| StaticGuard.RunKeepsLockHeld | Libraries/libcxxrt/guard.cc:118-193 | under every interleaving the lock part is locked only while some thread holds it |
| StaticGuard.AbortedGuardIsObtained | Libraries/libcxxrt/guard.cc:169-175 | after an abort nobody holds the guard, and whoever asks next is told to initialise |
| StaticGuard.FirstByteTellsDone | Libraries/libcxxrt/guard.cc:70-111 | in all five configurations the first byte of the guard, which compiled code tests (section 3.3.2 of the Itanium C++ ABI), is not zero exactly once the initialisation is complete |
| EmergencyPool.ScanFlags | Libraries/libcxxrt/exception.cc:460-507 | the scan returns the first free buffer |
| EmergencyPool.BufferOfAddress | Libraries/libcxxrt/exception.cc:512-538 | the search returns the buffer that starts at the address |
| EmergencyPool.StepKeepsInv | Libraries/libcxxrt/exception.cc:460-538 | every step keeps flags, contents, responsibility and counters in agreement |
| EmergencyPool.PoolIsSafe | Libraries/libcxxrt/exception.cc:460-538 | in every reachable state: a buffer about to be handed out is all zero and nobody else's, no thread has more than four, the lock is exclusive |
| EmergencyPool.HandedOutOnce | Libraries/libcxxrt/exception.cc:460-538 | a buffer that is out is not handed out again before it is freed |
| EmergencyPool.AdmittedIsServed | Libraries/libcxxrt/exception.cc:460-507 | a request that passed the check ends in no other way than with heap memory or with a buffer |
| EmergencyPool.FreeBufferIsObtained | Libraries/libcxxrt/exception.cc:460-507 | in every reachable state a thread that waits, for the lock or for a buffer, and steps while the lock is free and some buffer is, is handed the first free buffer, all zero |
| EmergencyPool.SleepsOnlyWithoutBuffers | Libraries/libcxxrt/exception.cc:481-503 | a thread goes to sleep only while no buffer is free |
| EmergencyPool.HeapIsReturned | Libraries/libcxxrt/exception.cc:473-480 | when the heap has memory after all the thread returns with it and the pool is as before |
| EmergencyPool.BufferIsFreed | Libraries/libcxxrt/exception.cc:512-538 | a thread that frees a buffer while the lock is free returns, with the buffer all zero and free and nothing else changed |
| EmergencyPool.LockIsGivenBack | Libraries/libcxxrt/exception.cc:460-538 | in every reachable state whoever has the lock gives it back within two steps of its own |
| EmergencyPool.CounterCountsHandOuts | Libraries/libcxxrt/exception.cc:436-539 | the counter is the number of buffers the thread was ever handed |
| EmergencyPool.RefusedExactly | Libraries/libcxxrt/exception.cc:460-470 | a request is refused exactly if it is too large or the thread got four buffers in its life |
| EmergencyPool.RefusedHoldingNothing | Libraries/libcxxrt/exception.cc:460-538 | from every start a run after which all buffers are free and a thread that asks for one byte is refused |
| TypeMatch.DoUpcast | Libraries/libcxxrt/dynamic_cast.cc:128-184 | succeeds along the first path in declaration order; the address it returns is that of the last subobject on it, each lying at the offset of the base in the one before, or at the offset that the virtual table there holds; otherwise the pointer is left alone |
| TypeMatch.CastTo | Libraries/libcxxrt/dynamic_cast.cc:110-153 | the same for all three kinds of class, null if there is no path |
| TypeMatch.WithoutVirtualBases | Libraries/libcxxrt/dynamic_cast.cc:155-184 | without virtual bases on the way the pointer moves by the sum of the offsets |
| TypeMatch.UpcastFindsFirstBase | Libraries/libcxxrt/dynamic_cast.cc:155-184 | succeeds exactly for the class and its direct and indirect bases; the path is the first in declaration order |
| TypeMatch.DerivesTransitive | Libraries/libcxxrt/dynamic_cast.cc:155-184 | being a base is transitive |
| TypeMatch.CatchIsQualificationConversion | Libraries/libcxxrt/dynamic_cast.cc:67-108 | chains of any depth of pointers that do not point to members, over any type but void, are caught exactly by qualification conversion (section 4.4 of ISO/IEC 14882:2011) |
| TypeMatch.CatchIsPreorder | Libraries/libcxxrt/dynamic_cast.cc:67-108 | matching of such chains, pointers to members included, is reflexive and transitive |
| TypeMatch.CatchClassPointer | Libraries/libcxxrt/dynamic_cast.cc:49-108 | a pointer to a class is caught exactly by equally or more qualified pointers to the class and its bases |
| TypeMatch.CatchDerivedPointer | Libraries/libcxxrt/dynamic_cast.cc:49-108 | deeper chains with different classes: exactly when the code accepts them |
| TypeMatch.CatchVoidPointer | Libraries/libcxxrt/dynamic_cast.cc:101-105 | handlers ending in void, over any other thrown type: exactly which chains they accept, at any depth |
| TypeMatch.CatchVoidFromVoid | Libraries/libcxxrt/dynamic_cast.cc:101-105 | the same when the thrown chain ends in void too |
| TypeMatch.CatchExactly | Libraries/libcxxrt/dynamic_cast.cc:49-108 | for all handlers and all thrown types, exactly what is caught |
| TypeMatch.LanguageIsCaught | Libraries/libcxxrt/dynamic_cast.cc:49-108 | of what section 15.3 of ISO/IEC 14882:2011 matches, exactly a thrown `nullptr` and the qualification conversions at or below a pointer to member are missed |
| TypeMatch.CaughtByTheLanguage | Libraries/libcxxrt/dynamic_cast.cc:49-108 | of what the code matches, the language matches everything but a pointer for a pointer to member, void too deep, and base classes too deep, ambiguous or not public |
| TypeMatch.AgreesWithLanguage | Libraries/libcxxrt/dynamic_cast.cc:49-108 | the code agrees with the language exactly outside these five families |
| TypeMatch.CaughtAgainstTheLanguage | Libraries/libcxxrt/dynamic_cast.cc:49-108 | a member of each family |
| Demangler.Growing.Grow | Libraries/libcxxrt/libelftc_dem_gnu3.c:205-232 | growing keeps the items and makes room |
| Demangler.Growing.Push | Libraries/libcxxrt/libelftc_dem_gnu3.c:284-302 | pushing appends, whether or not the vector grows |
| Demangler.Find | Libraries/libcxxrt/libelftc_dem_gnu3.c:149-161 | finds exactly if some item starts with the string |
| Demangler.Substr | Libraries/libcxxrt/libelftc_dem_gnu3.c:350-379 | the concatenation of the items from a position on |
| Demangler.Data.PushQualifiers | Libraries/libcxxrt/libelftc_dem_gnu3.c:675-859 | pushes the spellings from the inside out and offers every partial type to the substitution table |
| Demangler.Data.ReadType | Libraries/libcxxrt/libelftc_dem_gnu3.c:2490-2931 | reads a run of qualifiers and a builtin: position, output and table afterwards, and when it fails |
| Demangler.Demangle | Libraries/libcxxrt/libelftc_dem_gnu3.c:459-487 | the names of global constructors, and the name of a type that is not an encoding; what starts like one is reported as not modelled |
| Demangler.MangledIsRead | Libraries/libcxxrt/libelftc_dem_gnu3.c:2490-2931 | every mangled builtin with qualifiers (section 5.1.5 of the Itanium C++ ABI) is consumed to its end and named inside out; a fresh table receives exactly the partial types in order |
| Demangler.TypesAreNamed | Libraries/libcxxrt/libelftc_dem_gnu3.c:2490-2931 | each of the 28 builtin types is read under its code and with its name |
| Demangler.QualifiersAreNamed | Libraries/libcxxrt/libelftc_dem_gnu3.c:675-859 | so is each of the seven qualifiers |
| Demangler.TwoQualifiers | Libraries/libcxxrt/libelftc_dem_gnu3.c:675-859 | of two qualifiers the inner one, which is mangled last, is written first, and the partial types are those with one and with both |
| Demangler.NamesDiffer | Libraries/libcxxrt/libelftc_dem_gnu3.c:675-859 | different qualifiers on one builtin get different names |
| CharTraits.CopyChars | Utils/Char_Traits.hh:105-113 | a forward copy, also within one array; it ends exactly below 2^32 characters, which its unsigned int can count |
| CharTraits.SelfCopyIsPlain | Utils/Char_Traits.hh:105-113 | within one array it is plain if the source ends before the target |
| CharTraits.MoveChars | Utils/Char_Traits.hh:72-104 | however the ranges overlap, the target receives what the source held |
| CharTraits.Compare | Utils/Char_Traits.hh:34-52 | the sign of the first difference of plain, signed characters, zero exactly for equal ranges |
| CharTraits.Find | Utils/Char_Traits.hh:59-71 | the first occurrence of a character |
| CowString.CreatedCapacity | Utils/String.hpp:121-158 | a buffer is large enough, and at least doubles when it grows |
| CowString.GrownToWholePages | Utils/String.hpp:121-158 | exactly which capacity: what is asked, or twice the current one if that is more, and beyond a page as many whole pages with both headers |
| CowString.Heap.Assign | Utils/String.hpp:197-207 | both strings share one buffer; no other string can tell |
| CowString.Heap.Reserve | Utils/String.hpp:296-309 | same text in a buffer of its own with the room asked for; or the length error, or a copy that never ends, exactly when |
| CowString.Heap.AppendChars | Utils/String.hpp:232-258 | appends a range from anywhere, also from the own buffer; only this string changes, and the only buffer that may be new is its own; when it throws and when its copy never ends |
| CowString.Heap.AppendText | Utils/String.hpp:260-275 | appends a string, also to itself; the same |
| CowString.Heap.AppendFill | Utils/String.hpp:277-294 | appends copies of a character; the same |
| CowString.Heap.AppendThroughTerminator | Utils/String.hpp:232-258 | appending through the own terminator is right exactly if the range starts with it |
| CowString.Heap.Mutate | Utils/String.hpp:160-195 | keeps the text before and behind the gap, in place or in one new buffer; when it throws and when its copy never ends |
| CowString.Heap.Erase | Utils/String.hpp:225-230 | removes exactly the range, clipped to the text, or reports out of range and changes nothing; at most one new buffer |
| CowString.Heap.Swap | Utils/String.hpp:311-334 | exchanges the texts of two strings and no other |
| CowString.Heap.CopyOf | Utils/String.hpp:76-79 | a copy with the same text that shares the buffer; no buffer comes or goes |
| CowString.Heap.MoveFrom | Utils/String.hpp:92-100 | the new string has the text, the old one is empty; no buffer comes or goes |
| CowString.Heap.Construct | Utils/String.hpp:13-54 | a buffer with exactly the range, terminated; every buffer outgrown on the way, and there is one exactly from 129 characters on, is deallocated once; it never returns exactly if a full buffer on the way is too large to copy |
| CowString.Heap.NewFrom | Utils/String.hpp:13-54 | a new string with the text; the buffers that exist afterwards are those from before, its own, and the outgrown ones, each deallocated once; the same |
| CowString.Heap.Destroy | Utils/String.hh:380-383 | the string is gone and no other can tell; every buffer is still accounted for |
| CowString.Heap.CompareTexts | Utils/String.hh:489-503 | zero exactly for equal texts, negative exactly for lexicographic precedence of plain, signed characters |
| CowString.Heap.BuffersInUseAreAlive | Utils/String.hh:76-159 | a buffer in use is never deallocated, is terminated within its capacity, and its count is its users less one |
| CowString.Heap.NothingLeaks | Utils/String.hh:123-145 | once all strings are gone every buffer there ever was, outgrown ones included, was deallocated once |
| CowString.Heap.CopyAppendDrop | Utils/String.hpp:13-275 | a run from construction, of a text of any length, over sharing and unsharing to destruction: every buffer is deallocated once |
| Sharable.Program.Release | Support/sharable.hh:39-61 | the handle lets go; the last one deletes block and payload |
| Sharable.Program.Modify | Support/sharable.hh:63-79 | afterwards the block is the handle's own and its value the same; no block and no payload is forgotten, here and below |
| Sharable.Program.Write | Support/sharable.hh:93-97 | a write through one handle is seen by no other |
| Sharable.Program.SetData | Support/sharable.hh:99-123 | the handle has the payload it is given, the old one goes with its last user; no block or payload is left unowned, shared by two blocks or deleted while used exactly if the given one is null or new |
| Sharable.Program.SetOwnData | Support/sharable.hh:99-123 | given the payload the handle already has, it leaves a deleted payload in place or one payload in two blocks |
| Sharable.Program.CopyOf | Support/sharable.hh:134-145 | the copy reads the same from the same block; right exactly if the source has a block |
| Sharable.Program.MoveFrom | Support/sharable.hh:147-151 | the block changes hands |
| Sharable.Program.Assign | Support/sharable.hh:161-178 | the same for assignment, also to itself |
| Sharable.Program.MoveAssign | Support/sharable.hh:180-195 | right exactly between different handles of which the source has a block |
| Sharable.Program.Destroy | Support/sharable.hh:154-157 | the handle is gone and no other can tell |
| Sharable.Program.UsersAreHandles | Support/sharable.hh:18-23 | the user count is the number of handles on the block, which is there as long as one is |
| Sharable.Program.NothingLeaks | Support/sharable.hh:39-61 | with the last handle gone every block and payload there ever was was deleted once |
| Sharable.Program.ReadsLivePayload | Support/sharable.hh:83-91 | what a handle reads is never deleted and never another block's |
| Sharable.Program.CopyWriteDrop | Support/sharable.hh:93-157 | a run from construction over sharing and a write to destruction: both payloads are deleted once |
| Vector.Vector.Reallocate | Utils/vector.hpp:112-153 | same contents in a new block, or none and no block for capacity 0 |
| Vector.Vector.EnsureCapacity | Utils/vector.hpp:96-110 | doubles, or takes what is asked if that is more |
| Vector.Vector.PushBack | Utils/vector.hpp:311-325 | appends, and moves all objects exactly when it was full; the block is the old one or a new one, here and below |
| Vector.Vector.PushBackElement | Utils/vector.hpp:311-317 | appending an object of the vector itself by reference works exactly if the vector is not full; otherwise the block read from was returned |
| Vector.Vector.PopBack | Utils/vector.hpp:327-334 | removes the last object |
| Vector.Vector.Erase | Utils/vector.hpp:336-352 | removes one object, every slot constructed and destroyed in turn |
| Vector.Vector.Resize | Utils/vector.hpp:200-231 | cuts or extends, and drops the block at 0 |
| Vector.Vector.ResizeWithElement | Utils/vector.hpp:200-231 | filling with an object of the vector itself by reference works exactly if the block is large enough |
| Vector.Vector.ShrinkToFit | Utils/vector.hpp:254-261 | capacity becomes size |
| Vector.Vector.CopyFrom | Utils/vector.hpp:55-68 | an equal vector with its own objects |
| Vector.Vector.Assign | Utils/vector.hpp:393-420 | an equal vector, empty when assigned to itself |
| Vector.Vector.MoveAssign | Utils/vector.hpp:422-440 | takes the block over and returns its own |
| Vector.Vector.Destroy | Utils/vector.hpp:78-91 | objects and block are returned |
| Vector.BalanceKept | Utils/vector.hpp:96-153 | every operation on one vector keeps: each object in existence is in the slots of one vector, each block belongs to one |
| Vector.BalanceMoved | Utils/vector.hpp:422-440 | so does move assignment |
| Vector.NothingLeaks | Utils/vector.hpp:78-91 | with all vectors gone every object was destroyed and every block returned |
| Vector.Perform | Utils/vector.hpp:96-440 | one step of a program over several vectors: each holds what the step makes of its sequence, and the balance is kept |
| Vector.RunProgram | Utils/vector.hpp:96-440 | so does every program, of any length |
| Vector.RunFromStartToEnd | Utils/vector.hpp:78-91 | from new vectors to their destruction, whatever happens in between, every object constructed is destroyed and every block returned, each once |
| Vector.GrowingIsLinear | Utils/vector.hpp:96-110 | `n` appends to an empty vector move fewer than `2 * n` objects in all |
| Vector.AppendAll | Utils/vector.hpp:311-325 | and so does the loop of `push_back` itself, counted by the allocator |
| CircularList.List.InsertNode | Support/collections/concurrent_circular_list.hpp:314-337 | appends to the ring |
| CircularList.List.Erase | Support/collections/concurrent_circular_list.hpp:148-205 | head, tail, middle or last: removes exactly that node, frees it once, and says when the returned iterator is alive |
| CircularList.List.Clear | Support/collections/concurrent_circular_list.hpp:126-146 | ends, with every node freed once |
| CircularList.List.WalkGoesAround | Support/collections/concurrent_circular_list.hh:96-124 | an iterator visits the contents in order and is at the head again after `size` steps |
| CircularList.List.Doubly | Support/collections/concurrent_circular_list.hpp:314-337 | next and prev undo each other everywhere |
| LinearList.Node.Clone | Utils/List.hh:16-34 | an equal, new chain from this node on, linked both ways |
| LinearList.List.CopyOf | Utils/List.hpp:20-29 | equal contents, no node in common with anything |
| LinearList.List.PushBack | Utils/List.hpp:51-71 | appends |
| LinearList.List.Insert | Utils/List.hpp:170-202 | inserts before the position, the end included |
| LinearList.List.Erase | Utils/List.hpp:136-168 | removes exactly that node, frees it once, returns the next |
| LinearList.List.Clear | Utils/List.hpp:121-134 | ends, with every node freed once |
| Common.NarrowIsCongruent | Utils/streambuf.hpp:74-78 | an offset that an int has to hold arrives as the one int that differs from it by a multiple of 2^32 |
| StreamBuf.IntTypeRoundTrip | Utils/Char_Traits.hh:130-145 | no character is the end of file, and each survives the trip through int |
| StreamBuf.VectorStreambuf.ExpandPut | Support/vector_streambuf.hh:54-86 | what was put and got stays, and the put area grows when the vector does; the put pointer is back in place exactly if its offset fits an int |
| StreamBuf.VectorStreambuf.Overflow | Support/vector_streambuf.hh:91-100 | ends on the recursion with `sputc` and accepts its character exactly then |
| StreamBuf.VectorStreambuf.Sputc | Utils/streambuf.hpp:262-275 | a character is accepted and appended exactly if there is room or the offset fits an int |
| StreamBuf.VectorStreambuf.Sputn | Utils/streambuf.hpp:163-195 | a block is accepted whole exactly if all offsets and block lengths on the way fit an int |
| StreamBuf.VectorStreambuf.Str | Support/vector_streambuf.hh:118-121 | everything put so far |
| StreamBuf.VectorStreambuf.RedirectOutToIn | Support/vector_streambuf.hh:129-132 | what was put can be got |
| StreamBuf.VectorStreambuf.Sgetc | Utils/streambuf.hpp:286-299 | shows the next character, and the end of file exactly when nothing is left |
| StreamBuf.VectorStreambuf.Snextc | Utils/streambuf.hpp:301-330 | drops one character and shows the next |
| StreamBuf.CopyStreambufs | Utils/streambuf.hpp:343-359 | appends exactly the unread characters and returns their number, exactly if all offsets on the way fit an int |
| StreamBuf.SmallIsPlaced | Utils/streambuf.hpp:74-78 | up to 2 GiB they do |
| CalendarTime.LeapYearIsGregorian | Std/time.cpp:33-36 | the leap-year test is the Gregorian rule |
| CalendarTime.ClosedForm | Std/time.cpp:39-59 | the closed form counts the leap years one by one, over any span |
| CalendarTime.DiffIsCalendar | Std/time.cpp:39-59 | shifts, truncating divisions and 64-bit wrap-around included, the difference is the calendar's |
| CalendarTime.Tm.MkTime | Std/time.cpp:64-115 | the seconds of the date the fields name, with any month carried into the year and the seconds clamped to 0 to 59, and what is written back |
| CalendarTime.OffsetIsAdded | Std/time.cpp:103 | the offset is added |
| CalendarTime.NextDayIsOneMore | Std/time.cpp:19-31 | from each day to the next the count goes up by one |
| CalendarTime.NthDayIsCounted | Std/time.cpp:64-115 | the nth day after the epoch gets 86400 n |
| CalendarTime.SecondsArePosix | Std/time.cpp:64-115 | from 1970 on it is the formula of section 4.16 of IEEE Std 1003.1-2017 |
| CalendarTime.MonthsCarry | Std/time.cpp:78-83 | twelve months are a year, for any month number |
| CalendarTime.LaterIsGreater | Std/time.cpp:64-115 | later dates get greater times |
| CalendarTime.EpochYearsDoNotWrap | Std/time.cpp:64-115 | from 1970 on nothing wraps |
| CalendarTime.SecondCallAgrees | Std/time.cpp:105-110 | a second call gives the same time_t exactly if the year with its carry fits an int and the month was not negative inside a year |
| CalendarTime.MkTimeTwice | Std/time.cpp:64-115 | that is so of two calls on one object |
| CalendarTime.SecondCallsThatDiffer | Std/time.cpp:105-110 | a date for each of the two reasons |
| WordScan.StrictTestIsExact | Std/strlen.c:81 | the test of `strlen` holds exactly for words with a zero byte |
| WordScan.LooseTestMisfires | Std/strnlen.c:117 | the test of `strnlen` misfires exactly on bytes above 128 |
| WordScan.ScanWord | Std/strnlen.c:85-153 | one round finds the first zero byte of the word whichever test is used |
| WordScan.StrLen | Std/strlen.c:33-109 | the distance to the first zero byte; unmapped memory is read exactly if there is none |
| WordScan.StrNLen | Std/strnlen.c:31-159 | the lesser of that and the limit, also when the end pointer overflows; unmapped memory is read exactly if the range is neither terminated nor mapped, or reaches the last word of the address space |
| MemOps.MemCpy | kernel/Memory/memcpy.c:8-46 | right without overlap, and with a target at least a word before the source |
| MemOps.MemMove | Std/string.cpp:82-126 | right for every overlap, on every branch, exactly unless the short forward loop gets more bytes than its int can count |
| MemOps.MemCmp | Std/string.cpp:5-77 | the three loops compare stride by stride |
| MemOps.EqualIsZero | Std/string.cpp:5-77 | zero exactly for equal memory |
| MemOps.LastByteDecides | Std/string.cpp:17-27 | little-endian words compare like their last different bytes |
| MemOps.SignIsRight | Std/string.cpp:5-77 | the sign is that of the last difference in the word of eight, four or one bytes that holds the first, and exactly when that is also the sign of the first difference it is right |
| MemOps.DifferencesExist | Std/string.cpp:5-77 | these differences exist wherever the memory differs |
| MemOps.FirstByteOutweighed | Std/string.cpp:29-39 | four bytes whose order comes out wrong |
| SubstringSearch.StrStr | Std/string.cpp:146-186 | the loops are the skipping search, up to the overflow of an int position |
| SubstringSearch.FoundOccurs | Std/string.cpp:146-186 | what is found is an occurrence |
| SubstringSearch.SkipMisses | Std/string.cpp:178-181 | for a needle that hides an occurrence, a text in which it is not found |
| SubstringSearch.StrStrIsRight | Std/string.cpp:146-186 | the first occurrence in every text, unless a position overflows, exactly if the needle hides none |
| SubstringSearch.ShortTextsDoNotOverflow | Std/string.cpp:162 | no position overflows in a text whose length an int can hold |
| SubstringSearch.AabIsMissed | Std/string.cpp:178-181 | a needle and a text in which it is missed |
| SubstringSearch.Find | Utils/String.hpp:341-375 | the first occurrence from any position on, none for the empty string, and exactly when it reads outside the text instead |
| Decimal.WriteDigits | Utils/int_to_str.c:79-98 | succeeds exactly if text and terminator fit, and writes nothing outside the buffer |
| Decimal.DigitsAreNumeral | Utils/int_to_str.c:79-92 | from the right power of ten the loop writes the decimal numeral |
| Decimal.FindBase32 | Utils/int_to_str.c:27-30 | the base loop ends at the first power of ten, or wrapped product, above the number |
| Decimal.StartBaseIsPower | Utils/int_to_str.c:27-30 | that is the power of the first digit for up to nine digits, and has nine digits itself beyond |
| Decimal.IntToStr | Utils/int_to_str.c:4-52 | which text is printed, for every number, with its terminator, exactly if it fits |
| Decimal.PrintedIsRight | Utils/int_to_str.c:4-52 | the text is the number exactly up to nine digits, and shorter beyond |
| Decimal.BillionIsPrintedWrong | Utils/int_to_str.c:27-30 | what is printed for the first number of ten digits |
| Decimal.UintToStr | Utils/int_to_str.c:57-99 | which text is printed, for every number, exactly if it fits; or the division by zero |
| Decimal.PrintedUIsRight | Utils/int_to_str.c:57-99 | the text is the number exactly below 10^19 |
| Decimal.LargestDividesByZero | Utils/int_to_str.c:75-78 | the largest number makes it divide by zero |
| Decimal.StrToL | Std/stdlib.cpp:6-119 | sign, prefix and digit loop, with the failing assertion and the overflow |
| Decimal.DigitsAreRead | Std/stdlib.cpp:60-104 | in every base a run of digits is read as the number it stands for, or overflows |
| Decimal.NumberIsRead | Std/stdlib.cpp:6-119 | what it does with sign, prefix and digits in every base: it reads the longest run of what it takes for digits, letters counting from K on, to its end, unless the number overflows or a letter before K follows |
| Decimal.DecimalDigitsAreRead | Std/stdlib.cpp:60-104 | in every base decimal digits are read correctly and to their end exactly if none of the first 10 + base letters follows |
| Decimal.PrintedIsRead | Std/stdlib.cpp:6-119 | reading undoes printing, for every number of magnitude below 2^63 |
| Decimal.BaseZeroReadsNothing | Std/stdlib.cpp:30-55 | with base 0 it does not |
| RoundRobin.Scheduler.TaskSwitch | kernel/Task.cpp:181-230 | saves the running task's registers and loads the next task's |
| RoundRobin.Scheduler.ForkTask | kernel/Task.cpp:114-158 | the new task waits at the end with its parent's registers |
| RoundRobin.ContextSurvives | kernel/Task.cpp:200-213 | while a task waits nothing touches what was saved for it, and it gets that back |
| RoundRobin.RegistersComeBack | kernel/Task.cpp:181-230 | over runs: a task that leaves the processor by a switch next runs with the registers it left with, whatever the others did |
| RoundRobin.ForkedStartsAsParent | kernel/Task.cpp:114-158 | over runs: a forked task first runs with the registers its parent had at the fork |
| RoundRobin.TaskRuns | kernel/Task.cpp:204-209 | no task starves, however many tasks are forked meanwhile |
| RoundRobin.OneRound | kernel/Task.cpp:204-209 | without forks the tasks run strictly in turn |

## Left out

- Foreign and forced-unwind exceptions, the ARM EHABI branches, thread-local storage and failure reporting of
  exception.cc; `_Unwind_RaiseException` is an external function and modelled as a driver over a list of frames.
- The cleanup of a thread that ends with handlers still running frees those exceptions whatever their reference
  counts; the model covers calls on running threads.
- Exceptions of several threads are interleaved call by call, because each call touches one shared counter
  atomically; the guard and the emergency pool are interleaved access by access.
- `ex->adjustedPtr`, and the type tables behind `check_type_signature`: whether a type table entry matches is a
  parameter of the action chain; what matching means is the subject of TypeMatch.
- Leb128.ReadLeb128: a fifth byte of 8 or more, and any further byte, has no value in the model, because the source
  then shifts an int out of its range.
- The header of the language-specific data area, indirect and base-relative encodings.
- Wake-up liveness of the emergency pool: a woken thread may take recovered heap memory and leave a free buffer.
- The virtual tables that virtual bases read their offsets from are a parameter.
- Demangler.Data.ReadType: productions other than builtins and the qualifiers P, R, C, G, r, V and K are not part
  of this model and reported as such; neither is the state after a template's argument list.
- The growth factor 1.618 is a real number in the model, and memory allocation does not fail, here as elsewhere.
- The string's non-const element access used as a write, element types wider than char, and leaked strings.
- CowString.Heap.BuffersInUseAreAlive: the count is a 32-bit int, so this stops at 2^31 users of one buffer.
- CaughtExceptions.Runtime.CountersAreExact: the handler count of an exception and the uncaught count of a thread are
  32 bits wide, so this stops at 2^31 handlers of one exception and 2^32 propagations of one thread.
- CowString.Heap.AppendChars: where the copy into the string's own buffer never ends, nothing is said about the
  state; the same holds for AppendText.
- TypeMatch.AgreesWithLanguage: the flags for incomplete types count as qualifiers, which the language does not know
  them as, functions are not distinguished from objects, and handlers of reference-to-pointer type are not told
  apart from pointer handlers.
- The `copy` of a sharable's payload is a pure virtual function; the model's makes an equal object, and none
  of none.
- Allocators of vectors are all equal, as stateless ones are.
- Vector.Vector.PushBackElement: what is constructed from a block that was returned is not modelled; the same holds for
  ResizeWithElement.
- `concurrent_circular_list::erase` racing with other operations, and the move assignments of both lists.
- StreamBuf.VectorStreambuf.Sputn: the source of the characters is not the buffer itself; and where the put pointer
  ends up elsewhere the model stops, while the source goes on and writes there.  The same holds for Overflow, Sputc
  and CopyStreambufs.
- Local time: the offset is a parameter, of which the source only ever passes its initial value 0.
- WordScan.StrNLen: the string starts inside or right behind one mapped stretch, and nothing behind that stretch is
  mapped; words of 32 bits are left out.
- MemOps.MemMove: what the source does after its index has overflowed is not modelled.
- SubstringSearch.Find: what the characters outside the text are is not modelled.
- Decimal.IntToStr: the smallest int, which has no negation.
- The instructions that save and load registers are the reading and writing of one register value; page directories
  and the start of tasking are left out.
- Bitset, heaps, filesystems, paging, drivers, shared_ptr and the plain string functions would add easy members
  or are not shown whole in the source.
