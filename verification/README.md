# Models of Shelter's small algorithms, with proofs

Shelter vendors libkrun (Rust and C) and mkosi (Python). Most of both is process and file
plumbing, but they rest on a few dense algorithms. This project models ten of them in
Dafny and proves what holds of every input, every reachable state or every run. Where a
law one would expect is false of the code, there is a concrete input that shows it and an
exact condition for when it holds.

Each model keeps the form of its source: records that are updated in place are classes,
loops are methods, and both are proved against specification functions; the laws are
lemmas about those functions. `dafny verify dfyconfig.toml` checks everything.

| file | source | subject |
|---|---|---|
| `JsmnSpec`, `JsmnParser` | `shelter_interface/init/jsmn.h` | the JSON tokenizer: one step as a function, the parser as a class over a token array |
| `JsmnInvariants`, `JsmnAcceptance`, `JsmnCapacity`, `JsmnChunks` | same | laws over all inputs and runs |
| `JsmnReference`, `JsmnLexical` | same | a reference tokenizer with a stack, and grammars for strings and primitives |
| `Json`, `JsmnRoundTrip` | same | the grammar of sections 2 to 7 of RFC 8259, and the round trip |
| `PyString`, `VersionCompare`, `VersionLaws`, `VersionOrder` | `libexec/mkosi/mkosi/versioncomp.py` | version comparison, what it says about characters, numbers and words, and when it is an order |
| `Hvf` | `shelter_interface/src/hvf/src/lib.rs` | the vCPU run call and its deferred work |
| `Mounts` | `libexec/mkosi/mkosi/sandbox.py` | mount minimisation and path resolution |
| `BrandString` | `shelter_interface/src/cpuid/src/brand_string.rs` | the frequency scanner against its regular expression |
| `ConfigMatch`, `ConfigText` | `libexec/mkosi/mkosi/config.py` | the INI scanner feeding the match evaluator, and the language by its spelling |
| `Kmod` | `libexec/mkosi/mkosi/kmod.py` | module dependency closure and deletion |
| `Bus` | `shelter_interface/src/devices/src/bus.rs` | the device interval map |
| `FdTable` | `libexec/mkosi/mkosi/run.py` | descriptor relocation and the pid pipe |
| `EventManager` | `shelter_interface/src/polly/src/event_manager.rs` | the epoll subscriber table and dispatch |

## How to read the tokenizer

A `State` is the parser record together with the tokens allocated so far. Every error exit
of the C code restores the parser to what it was before the offending character, so `Run`
returns a state and a result, and a run can be continued from any state it returns. The
non-strict variant without parent links is modelled, since neither macro is defined in
this repository; the input length fits an `int`.

## What turned out false, and when it holds

- Version comparison is not transitive on all strings: with `_` skipped, `._aaa` < `.a` <
  `.0aa` < `._aaa`. On the strings over an alphabet it is transitive exactly when the
  alphabet lacks a skipped character, a separator, a letter, or the digit 0
  (`VersionOrder.TransitiveExactly`). The code's `^` branch is the reverse of the comment
  above it; the model follows the code, and the proof needs that branch as it is.
- Feeding the tokenizer a prefix and then the whole text agrees with one call exactly when
  the prefix does not end inside a primitive that goes on (`JsmnChunks.ChunksAgreeExactly`);
  `1` and then `12` differs from `12` (`JsmnChunks.NumberCanBeCut`).
- Dropping subsumed mounts can change what a path resolves to, when a mount in between hides
  the one that subsumes (`Mounts.HiddenDrop`); the exact condition is a check over pairs of
  the given mounts (`Mounts.SameExactly`).
- A bus range that runs past the end of the address space is accepted whenever its first
  address is free, so ranges can overlap (`Bus.WrappedRangeCanSwallow`; `Bus.Bus.Insert`
  states exactly when).
- Descriptor relocation goes wrong exactly when a round replaces a descriptor still to be
  moved by one of a different file (`FdTable.PlacedExactly`), as for descriptors 0 and 3
  (`FdTable.StandardInputClobbers`); it needs one below 3 (`FdTable.NoClobberFromThree`).
- A refused epoll delete leaves a descriptor that can never be registered again, provided
  the kernel does not drop it by itself (`EventManager.DeleteCanLeak`,
  `EventManager.LeakIsForEver`). A descriptor without a subscriber can be registered exactly
  if no refused delete left it behind (`EventManager.RegistersExactly`).
- An MMIO load whose register write fails is not retried (`Hvf.LoadCanBeLost`); it is
  delivered exactly if the first hypervisor call after it succeeds (`Hvf.LoadIsDelivered`).
- A store whose register cannot be read is skipped although nothing was handed out
  (`Hvf.StoreCanBeLost`, `Hvf.StoreIsHandedOutExactly`).
- An emulated instruction is executed again if it is a wait or a trapped register read whose
  first hypervisor call fails (`Hvf.WaitCanBeRepeated`), and in no other case: otherwise the
  program counter advances once, over any number of failed calls (`Hvf.PcAdvancesOnce`).

## Model

| member | source | states |
|---|---|---|
| `JsmnParser.Parser.constructor` | shelter_interface/init/jsmn.h:457-461 | a new parser stands at offset 0 with no tokens and no superior token |
| `JsmnParser.Parser.AllocToken` | shelter_interface/init/jsmn.h:102-115 | hands out the next entry reset to an empty span and size 0, or fails exactly at capacity, touching nothing else |
| `JsmnParser.Parser.FillToken` | shelter_interface/init/jsmn.h:120-126 | replaces one entry and no other |
| `JsmnParser.Parser.ParsePrimitive` | shelter_interface/init/jsmn.h:131-186 | stops on the last character of the maximal primitive and records its span; at capacity restores the position |
| `JsmnParser.Parser.ParseString` | shelter_interface/init/jsmn.h:191-261 | follows the escape-aware scan to the closing quote; each of the three failures restores the position and leaves the array alone |
| `JsmnParser.Parser.OpenContainer` | shelter_interface/init/jsmn.h:279-305 | the opening bracket refines the step on values |
| `JsmnParser.Parser.CloseContainer` | shelter_interface/init/jsmn.h:306-358 | the two backward scans of a closing bracket refine the step on values |
| `JsmnParser.Parser.Comma` | shelter_interface/init/jsmn.h:377-394 | a comma returns to the innermost open container when the superior token is a key or value |
| `JsmnParser.Parser.Fill` | shelter_interface/init/jsmn.h:266-451 | the whole loop over a token array computes `Run`, its return code included, and writes nothing behind the allocated tokens |
| `JsmnParser.Parser.Count` | shelter_interface/init/jsmn.h:273-451 | the loop without an array computes `CountRun` and allocates nothing |
| `JsmnParser.Parser.Parse` | shelter_interface/init/jsmn.h:266-271 | one entry point, the null array selecting the counting mode |
| `JsmnReference.TokenizesLikeReference` | shelter_interface/init/jsmn.h:266-451 | on every input and at every capacity, the return code, the position and all tokens are those of a tokenizer that keeps open brackets on a stack and counts children by recorded parents |
| `JsmnLexical.ClosesExactly` | shelter_interface/init/jsmn.h:191-261 | a string closes at a quote exactly if what precedes it is a sequence of characters and escapes of RFC 8259, any unescaped character but NUL allowed |
| `JsmnLexical.RejectsExactly` | shelter_interface/init/jsmn.h:219-255 | it is invalid exactly if such a sequence is followed by a bad escape, and otherwise incomplete |
| `JsmnLexical.PrimitiveExactly` | shelter_interface/init/jsmn.h:139-160 | a primitive ends at the first of eight characters, NUL or the end |
| `JsmnInvariants.RunKeepsSpans` | shelter_interface/init/jsmn.h:279-358 | in every state of every run, intermediate ones included, each span is framed by the characters its kind calls for and any two spans are ordered or strictly nested |
| `JsmnInvariants.RunIsAfter` | shelter_interface/init/jsmn.h:273-451 | the last of these states is the one the run stops in |
| `JsmnInvariants.SpansNest` | shelter_interface/init/jsmn.h:102-358 | after any success, JSON or not: starts strictly increase, spans lie inside the input, and a later token is behind an earlier one or ends strictly before it |
| `JsmnInvariants.RunKeepsForest` | shelter_interface/init/jsmn.h:289-304 | along every run the superior tokens form a forest in which each size is a number of children |
| `JsmnInvariants.SizesAreConserved` | shelter_interface/init/jsmn.h:365-430 | sizes and roots add up to the number of tokens, on success and on failure |
| `JsmnAcceptance.LastOpenIsTop` | shelter_interface/init/jsmn.h:335-356 | the backward scan finds the innermost unclosed bracket, and closing that token pops it |
| `JsmnAcceptance.TokensMatchText` | shelter_interface/init/jsmn.h:279-358 | wherever a run stops, the unclosed tokens are the unmatched brackets of the text, by kind and position, and the spans of the closed containers are its matched pairs, both computed from the text alone |
| `JsmnAcceptance.BalancesIsWellMatched` | shelter_interface/init/jsmn.h:306-358 | the bracket stack accepts exactly the flattenings of trees matched by kind |
| `JsmnAcceptance.AcceptsExactly` | shelter_interface/init/jsmn.h:306-448 | with enough tokens, success is exactly: every string scan succeeds and the brackets are well matched |
| `JsmnCapacity.CountIsLex` | shelter_interface/init/jsmn.h:281-283 | the counting mode counts the lexemes that take a token, and fails exactly when a string scan does |
| `JsmnCapacity.CountIsTally` | shelter_interface/init/jsmn.h:273-451 | what counting returns, failing strings included, where it stops, and that only a colon moves the superior token |
| `JsmnCapacity.CountingIsAnOracle` | shelter_interface/init/jsmn.h:359-430 | its answer is the exact capacity: enough for no NOMEM, necessary for success, and the value every success returns |
| `JsmnCapacity.SucceedsExactly` | shelter_interface/init/jsmn.h:441-450 | success for every input and every capacity, as one equivalence |
| `JsmnCapacity.ResumeAfterNoMem` | shelter_interface/init/jsmn.h:175-213 | a run stopped by NOMEM and continued with a larger array ends as if it had had that array from the start |
| `JsmnChunks.ChunksAgree` | shelter_interface/init/jsmn.h:273-439 | parsing a prefix first makes no difference, from any state, unless it cuts a primitive |
| `JsmnChunks.ChunksAgreeExactly` | shelter_interface/init/jsmn.h:139-186 | from a new parser the two ways agree exactly when no primitive is cut |
| `JsmnChunks.NumberCanBeCut` | shelter_interface/init/jsmn.h:139-186 | a number handed over in two pieces ends in another state |
| `JsmnRoundTrip.RunValue` | shelter_interface/init/jsmn.h:273-439 | from any state, the text of a value appends exactly its tokens, counts it once in its parent, and leaves the superior token as it was or at the innermost open container |
| `JsmnRoundTrip.RoundTrip` | shelter_interface/init/jsmn.h:266-451 | any JSON value of RFC 8259, with any of its whitespace and escapes, parses to its nodes in preorder: kinds, child counts and texts |
| `VersionCompare.Iterate` | libexec/mkosi/mkosi/versioncomp.py:36-141 | one iteration returns what the pass on values decides, or the strings it leaves |
| `VersionCompare.CompareVersions` | libexec/mkosi/mkosi/versioncomp.py:20-141 | the loop terminates on all strings and returns `Compare` |
| `VersionCompare.CompareSwap` | libexec/mkosi/mkosi/versioncomp.py:47-141 | swapping the arguments negates the result, for all strings |
| `VersionCompare.CompareSelf` | libexec/mkosi/mkosi/versioncomp.py:58-59 | every string equals itself |
| `VersionLaws.OthersAreSkipped` | libexec/mkosi/mkosi/versioncomp.py:23-41 | a character that is no ASCII letter, digit or one of the four signs makes no difference in front |
| `VersionLaws.FirstCharacterDecides` | libexec/mkosi/mkosi/versioncomp.py:47-103 | `~` sorts below the end, then `-`, `^`, `.`, letters, and numbers that start with 1 to 9, whatever follows |
| `VersionLaws.NumbersDecide` | libexec/mkosi/mkosi/versioncomp.py:105-123 | two numbers in front decide by their digits, without leading zeros longer being bigger, or else leave it to what follows |
| `VersionLaws.WordsDecide` | libexec/mkosi/mkosi/versioncomp.py:125-141 | two words in front decide as text, or else leave it to what follows |
| `VersionLaws.ZerosAgainstWord` | libexec/mkosi/mkosi/versioncomp.py:113-123 | zeros against a word count for nothing |
| `VersionLaws.CommonBeginning` | libexec/mkosi/mkosi/versioncomp.py:36-141 | a common beginning that ends where a number, a word or a separator ends makes no difference |
| `VersionLaws.NumbersAnywhere` | libexec/mkosi/mkosi/versioncomp.py:113-123 | behind any common beginning, more digits are more, equally many compare as text, and a zero in front is nothing |
| `VersionLaws.TenIsAboveNine` | libexec/mkosi/mkosi/versioncomp.py:113-119 | 1.10 is above 1.9 |
| `VersionOrder.CompareIsLex` | libexec/mkosi/mkosi/versioncomp.py:36-141 | in three families of strings, comparing is comparing sort keys lexicographically |
| `VersionOrder.Cycle` | libexec/mkosi/mkosi/versioncomp.py:94-141 | a three-cycle for every choice of skipped character, separator and letter |
| `VersionOrder.TransitiveExactly` | libexec/mkosi/mkosi/versioncomp.py:36-141 | for every alphabet: transitive on its strings if and only if it lacks one of the four kinds of character |
| `VersionOrder.TotalPreorder` | libexec/mkosi/mkosi/versioncomp.py:143-155 | on versions without skipped characters the operators are total, transitive and respect equality |
| `Hvf.Vcpu.constructor` | shelter_interface/src/hvf/src/lib.rs:272-279 | nothing is pending in a new vCPU |
| `Hvf.Vcpu.Enter` | shelter_interface/src/hvf/src/lib.rs:346-376 | delivers the load, advances PC, then enters; a failing hypervisor call stops exactly there |
| `Hvf.Vcpu.Hvc` | shelter_interface/src/hvf/src/lib.rs:385-412 | the hypervisor calls and the register each writes |
| `Hvf.Vcpu.DataAbort` | shelter_interface/src/hvf/src/lib.rs:437-476 | a load becomes pending, a store fills the buffer, a two-byte store panics |
| `Hvf.Vcpu.Wfx` | shelter_interface/src/hvf/src/lib.rs:481-501 | the three ways to wait, from the timer registers, the timeout wrapping at 64 bits |
| `Hvf.Vcpu.Run` | shelter_interface/src/hvf/src/lib.rs:345-516 | one call refines `Call` for every guest behaviour and every failing hypervisor call |
| `Hvf.EntersExactly` | shelter_interface/src/hvf/src/lib.rs:346-376 | the guest is entered exactly if as many hypervisor calls succeed as the pending work needs |
| `Hvf.EntryOwes` | shelter_interface/src/hvf/src/lib.rs:378-516 | what every entry leaves pending, also when its handler then fails or panics |
| `Hvf.ExitOwes` | shelter_interface/src/hvf/src/lib.rs:413-501 | an advance is owed exactly after SMC, system-register, data-abort and WFX exits, a load exactly after a reading data abort |
| `Hvf.PcAdvancesOnce` | shelter_interface/src/hvf/src/lib.rs:363-367 | between any two successive entries of any run PC moves by 4 exactly once if the exit was emulated, and else not at all, however many calls fail in between; a wait or trapped read whose first hypervisor call fails counts as not emulated |
| `Hvf.LoadIsDelivered` | shelter_interface/src/hvf/src/lib.rs:346-361 | the guest re-enters with the registers its exit left, the zero-extended little-endian buffer in the load's register, and nothing else changed but PC |
| `Hvf.LoadIsForgotten` | shelter_interface/src/hvf/src/lib.rs:346-346 | no load is delivered twice |
| `Hvf.RegistersAtEntry` | shelter_interface/src/hvf/src/lib.rs:346-436 | every register the guest finds at its next entry: the answer to a hypervisor call, the zero of a trapped read, a delivered load, and else what it left |
| `Hvf.LoadCanBeLost` | shelter_interface/src/hvf/src/lib.rs:346-361 | three calls after which the guest goes on behind a load it never got |
| `Hvf.StoreHandsOutLowBytes` | shelter_interface/src/hvf/src/lib.rs:453-471 | a store hands out exactly the low 1, 4 or 8 bytes of its source, or zero for register 31 |
| `Hvf.StoreIsHandedOutExactly` | shelter_interface/src/hvf/src/lib.rs:451-471 | when a store is handed out, fails or panics; it is skipped in all three cases |
| `Hvf.StoreCanBeLost` | shelter_interface/src/hvf/src/lib.rs:451-455 | two calls after which the guest goes on behind a store nobody saw |
| `Hvf.WaitCanBeRepeated` | shelter_interface/src/hvf/src/lib.rs:481-485 | two calls after which the guest waits at the same place again |
| `Hvf.HvcReturns` | shelter_interface/src/hvf/src/lib.rs:385-412 | the guest re-enters after a hypervisor call with its answer in X0 and every other register, PC included, as it was |
| `Hvf.HvcExits` | shelter_interface/src/hvf/src/lib.rs:385-412 | which exit a hypervisor call takes, by its number; starting a CPU hands out the guest's X1, X2 and X3 |
| `Hvf.PlainExits` | shelter_interface/src/hvf/src/lib.rs:378-505 | the exits that reason and exception class decide |
| `Hvf.SystemRegisterExits` | shelter_interface/src/hvf/src/lib.rs:419-436 | a trapped register access exits unless its zero cannot be written |
| `Hvf.LoadExits` | shelter_interface/src/hvf/src/lib.rs:437-476 | a load asks for its address and width, and a store names its address |
| `Hvf.AbortFields` | shelter_interface/src/hvf/src/lib.rs:437-443 | class, width, register and direction of a data abort are read from their own bits of the syndrome |
| `Hvf.PanicsExactly` | shelter_interface/src/hvf/src/lib.rs:468-514 | a call panics exactly for a reason, class or width of store that is not supported |
| `Hvf.WaitExits` | shelter_interface/src/hvf/src/lib.rs:481-501 | which exit a wait takes, from the timer, and when it fails |
| `Hvf.WaitNeverOversleeps` | shelter_interface/src/hvf/src/lib.rs:492-499 | a timeout is 41 nanoseconds a tick below the wrap, and never outlasts the timer, wrapped or not |
| `Hvf.LeRoundTrip` | shelter_interface/src/hvf/src/lib.rs:348-467 | bytes written little endian read back as the value modulo their width |
| `Hvf.LeByte` | shelter_interface/src/hvf/src/lib.rs:348-352 | byte k of the buffer has weight 256 to the power k |
| `Mounts.FinalizeExactly` | libexec/mkosi/mkosi/sandbox.py:93-112 | the output is the given mounts that repeat no other, each once: by destination, there plain before device, read-only before writable, optional before required, then by source |
| `Mounts.OptionTells` | libexec/mkosi/mkosi/sandbox.py:33-41 | the option spells out the kind of mount |
| `Mounts.PathResolves` | libexec/mkosi/mkosi/sandbox.py:110-112 | a path resolves into the source of the kept mount above it that no other comes after |
| `Mounts.DestinationResolves` | libexec/mkosi/mkosi/sandbox.py:110-112 | of the kept mounts at one destination a device wins over a plain bind, writable over read-only, required over optional |
| `Mounts.DroppedIsSubsumed` | libexec/mkosi/mkosi/sandbox.py:96-108 | every dropped mount is subsumed by one that is kept, although the test is against all |
| `Mounts.SameExactly` | libexec/mkosi/mkosi/sandbox.py:93-112 | every path resolves as before if and only if, in the given list, each mount that is last at its destination but subsumed is covered by the last unsubsumed mount above it |
| `Mounts.SameIfWinnersSubsume` | libexec/mkosi/mkosi/sandbox.py:96-110 | enough: at each subsumed destination the last unsubsumed mount subsumes the dropped one |
| `Mounts.HiddenDrop` | libexec/mkosi/mkosi/sandbox.py:98-107 | a mount hidden in between makes dropping change a path |
| `Mounts.DroppingCanChangeAPath` | libexec/mkosi/mkosi/sandbox.py:98-107 | such mounts exist |
| `BrandString.FindFreq` | shelter_interface/src/cpuid/src/brand_string.rs:209-301 | for every buffer, nothing is returned exactly when no substring is in the language of the documented expression, and otherwise the leftmost match is |
| `BrandString.AdvanceKeepsAhead` | shelter_interface/src/cpuid/src/brand_string.rs:233-299 | every transition, restarts included, keeps all matches at or behind the recorded start |
| `BrandString.SubstringLanguage` | shelter_interface/src/cpuid/src/brand_string.rs:208-208 | the regular expression and the positions of its parts agree on every substring |
| `BrandString.FirstMatchIsUnique` | shelter_interface/src/cpuid/src/brand_string.rs:288-290 | the leftmost match is one slice |
| `ConfigMatch.MatchConfig` | libexec/mkosi/mkosi/config.py:3435-3501 | the two loops in step, early returns included, compute `Match`; a missing file matches |
| `ConfigMatch.ScanDocument` | libexec/mkosi/mkosi/config.py:1744-1811 | the scanner recovers sections, settings and continued values from every well-formed text |
| `ConfigText.PartFeeds` | libexec/mkosi/mkosi/config.py:3445-3499 | the flags after a section tell whether its conditions hold, a condition being a flag for alternatives, one for negation, a key and an operand |
| `ConfigText.MatchMeans` | libexec/mkosi/mkosi/config.py:3435-3501 | for every spelling of a document, with whitespace, comments and continued values: the file matches exactly when every [Match] section holds and, if there are [TriggerMatch] sections, one does |
| `ConfigText.UnknownMeansExit` | libexec/mkosi/mkosi/config.py:3468-3487 | the first condition that is reached and cannot be decided is an error |
| `ConfigText.RefusesExactly` | libexec/mkosi/mkosi/config.py:1755-1801 | for every line: it is refused exactly for a bad header, a setting outside of a section, or one without a name or sign |
| `ConfigText.NeedsASection` | libexec/mkosi/mkosi/config.py:1788-1789 | a file that starts with anything but a section is an error, whatever follows |
| `ConfigText.Dissect` | libexec/mkosi/mkosi/config.py:1755-1763 | every line is whitespace, text, whitespace and a comment |
| `Kmod.Resolve` | libexec/mkosi/mkosi/kmod.py:126-144 | the worklist terminates with exactly the names reachable from builtin and requested modules, and their firmware |
| `Kmod.DeleteOthers` | libexec/mkosi/mkosi/kmod.py:200-208 | the deletion loop keeps exactly the required files |
| `Kmod.Process` | libexec/mkosi/mkosi/kmod.py:186-208 | a file is kept exactly if its name is reachable and stands for it; with unique names no kept module depends on a deleted one |
| `Kmod.ModuleNameIs` | libexec/mkosi/mkosi/kmod.py:48-53 | the name of a module file is its last component up to the first dot, with `_` written `-` |
| `Bus.Bus.FirstBefore` | shelter_interface/src/devices/src/bus.rs:93-101 | the last entry that starts at or before the address |
| `Bus.Bus.GetDevice` | shelter_interface/src/devices/src/bus.rs:103-111 | finds a device exactly when some range holds the address, as a search over all ranges would |
| `Bus.Bus.Insert` | shelter_interface/src/devices/src/bus.rs:114-141 | succeeds exactly when the range is non-empty and free, keeps ranges disjoint, changes nothing on failure, never replaces a key; and what happens past the end of the address space |
| `Bus.WrappedRangeCanSwallow` | shelter_interface/src/devices/src/bus.rs:128-134 | a range past the end that shares addresses with a device above it |
| `Bus.InsertAll` | shelter_interface/src/devices/src/bus.rs:114-141 | along any sequence of insertions the bus holds exactly the accepted ranges, disjoint, and one is accepted exactly if it is not empty and meets none accepted before it |
| `FdTable.RelocateFds` | libexec/mkosi/mkosi/run.py:240-257 | the loop computes `Relocate`, and its assertion on the new number never fails |
| `FdTable.PlacedExactly` | libexec/mkosi/mkosi/run.py:240-257 | for any open descriptors, shared or not: each number from 3 on receives its file if and only if no round replaces a descriptor still to be moved by one of a different file |
| `FdTable.DistinctPlacedExactly` | libexec/mkosi/mkosi/run.py:240-257 | where the files are distinct, if and only if no round closes a descriptor still to be moved |
| `FdTable.RaisesExactly` | libexec/mkosi/mkosi/run.py:240-257 | an error is raised if and only if some descriptor is neither open nor a number filled by its turn |
| `FdTable.NoClobberFromThree` | libexec/mkosi/mkosi/run.py:195-250 | increasing descriptors from 3 up are never closed too early |
| `FdTable.PlacedFromThree` | libexec/mkosi/mkosi/run.py:195-257 | so their files arrive |
| `FdTable.StandardInputClobbers` | libexec/mkosi/mkosi/run.py:248-254 | passing descriptors 0 and 3 loses the file of 3 |
| `FdTable.ChildTable` | libexec/mkosi/mkosi/run.py:292-317 | for any open descriptors, the command finds the pipe's write end at its own number, the lowest free one above those used, the standard streams untouched and nothing else; the files at 3, 4, ... exactly if none is lost |
| `EventManager.Manager.DoRegister` | shelter_interface/src/polly/src/event_manager.rs:121-137 | adds to the kernel first, so a refusal changes nothing |
| `EventManager.Manager.DoUnregister` | shelter_interface/src/polly/src/event_manager.rs:140-156 | removes the subscriber even when the kernel refuses the delete |
| `EventManager.Manager.DoModify` | shelter_interface/src/polly/src/event_manager.rs:159-169 | changes neither table nor interest set |
| `EventManager.Manager.DoIsPollable` | shelter_interface/src/polly/src/event_manager.rs:172-189 | leaves the interest set as it was, unless the kernel refuses the delete: then it panics and leaves the descriptor behind |
| `EventManager.Manager.AddSubscriber` | shelter_interface/src/polly/src/event_manager.rs:108-117 | registers the list in order up to the first refusal; the registered prefix is all of it exactly on success |
| `EventManager.InterestIsAccounted` | shelter_interface/src/polly/src/event_manager.rs:121-189 | along any calls, every subscribed descriptor is in the interest set, and the rest of that set is exactly what refused deletes left |
| `EventManager.RegistersExactly` | shelter_interface/src/polly/src/event_manager.rs:121-137 | after any calls a descriptor without subscriber can be registered exactly if no refused delete left it behind |
| `EventManager.AnswersExactly` | shelter_interface/src/polly/src/event_manager.rs:140-189 | the answers of unregister, modify and is_pollable after any calls |
| `EventManager.SubscribedExactly` | shelter_interface/src/polly/src/event_manager.rs:121-156 | a descriptor belongs to whoever registered it, until it is unregistered, with or without success |
| `EventManager.DeleteCanLeak` | shelter_interface/src/polly/src/event_manager.rs:140-156 | two calls that leave a descriptor behind |
| `EventManager.LeakIsForEver` | shelter_interface/src/polly/src/event_manager.rs:140-156 | a descriptor left behind can never be registered again |
| `EventManager.Manager.Dispatch` | shelter_interface/src/polly/src/event_manager.rs:213-230 | each ready event is delivered at most once, in order, to whoever is registered when its turn comes, and none is missed |
| `EventManager.DispatchAccounts` | shelter_interface/src/polly/src/event_manager.rs:213-230 | callbacks that register and unregister keep the account of the interest set |

## Left out

- mkosi's image building, its configuration table, command lines and installers; libkrun's
  devices, attestation and kernel interfaces: file-system and process plumbing.
- The strict and parent-link variants of the tokenizer: neither macro is defined here.
- Inputs longer than an `int` can index in the tokenizer.
- Python's limit on the number of digits `int()` converts; versions are compared without it.
- `functools.total_ordering`'s comparisons with values that are not versions.
- Hvf.Vcpu.Run: sums and products wrap at 64 bits, as in a release build; a debug build panics instead.
- The logging, the interrupt line and the guest's own execution in the vCPU model; the guest is an arbitrary value.
- Mounts.SameExactly: whether a source exists is not modelled, so `-try` options resolve like the others.
- The textual form of paths in the mount options; equality of mounts is structural, not by hash.
- ConfigMatch.MatchConfig: `textwrap.dedent` and the splitting into lines are taken as done, and a condition's outcome is a function of its key and value.
- Kmod.Process: module patterns, `modinfo` output, parent directories and the deletion of firmware are inputs or omitted.
- Bus.Bus.GetDevice: the locks around devices and what a device does with an access.
- FdTable.RelocateFds: errors of `close` other than a bad descriptor, and the descriptors Python itself opens.
- EventManager.Manager.DoUnregister: the kernel never drops a descriptor by itself, as it does when one is closed.
