# Nexus Move: a verified model

This project models the first-party logic of Nexus Move in Dafny and proves what its callers
rely on. `dafny verify dfyconfig.toml` checks all of it.

| Modules | What they model |
|---|---|
| `AbiTokens`, `AbiRows`, `AbiLayout`, `AbiModule`, `AbiPackage`, `AbiStream`, `AbiResolved`, `AbiExamples` | the ABI preimage of a compiled module and of a package: type tokens, entries sorted by name, struct layouts, and a decoder for the stream; what the handle numbers in it stand for |
| `Utf8`, `Strings` | UTF-8 as sections 3 and 4 of RFC 3629 define it, the string natives, and the `string` module over them |
| `Events`, `EventStreams`, `EventProgress` | GUID generators, event handles, the event store, the emitter example, gas charging, and the commit or abort of transactions, over whole runs |
| `Publishing`, `PublishRuns`, `PublishNames`, `PublishExamples`, `Planner` | publishing and upgrading modules, looking them up, and what the upgrade policies guarantee over whole runs, for an address and for a name; the planning publisher |
| `StateChanges`, `Sessions`, `Gas` | change lists and write sets, the execute session with its overlay and meter, and the cost estimates |
| `FixedPoint`, `Vectors`, `BitVectors`, `HexAddress` | fixed-point numbers, in-place vectors and bit vectors, and hexadecimal addresses |
| `Base` | bytes, machine integers, little-endian numbers, lexicographic order |

Where the source updates something in place, the model has a class or a method with loops
(`ByteBuffer`, `MoveString`, `MoveSession`, `WriteLog`, `ExecuteSession`, `ResourceStore`,
`SimpleGasMeter`, `Vector`, `BitVector`, and the loops of the ABI encoder, the publishers and the
address parser). Each is proved against a function on values, and the theorems are about that
function.

What the project takes from outside:

- BLAKE3, the module deserializer, the bytecode verifier and the metadata codec are function
  parameters (`Host`, `Config`, `blake3`). Two facts are assumed about them (`ValidHost`):
  deserialized modules are within the limits of the Move binary format (`AbiModule.WellFormed`),
  and decoding undoes encoding. No hash is assumed to be free of collisions: results say "or
  here is a collision".
- `AbiModule.WellFormed` says: indices are in bounds; identifiers have 1 to 255 bytes, none below
  `$`; ability bytes are at most 0x0F; token lists have at most 255 entries; u32 lengths fit;
  public function names are distinct, and so are struct names. Visibility bytes are 0, 1 and 3.
- Function calls and scripts write resource keys, never code or metadata keys (`LegalStep`).

Where the code and its comments disagree, the model follows the code: the comment in abi.rs
(lines 18 to 20) says that function type parameters are hashed, but they are not
(`TypeParametersAreNotHashed`); docs/ARCHITECTURE.md says a `Compatible` upgrade is allowed, but
the code also requires equal ABI hashes and aborts with code 22. A struct token is a handle
number, so a `PublicSurface` holds handle numbers and a `ResolvedSurface` holds struct names. `create_with_capability` does not look
at its capability, and neither does the model.

Some properties that one might expect do not hold. The model keeps the code as it is, gives an
input, and gives the exact condition:

- Under `Compatible`, a module found by its name should keep its public surface. The package
  stores one ABI hash for all its names, and module names are not hashed, so a successful upgrade
  can replace a module by one with another surface (`NamedSurfaceCanChange`). It keeps the surface
  if and only if the old module's ABI hash is the stored one (`UpgradeKeepsNamedSurfaceIff`,
  `NamedSurfaceInEveryRun`).
- A `Compatible` bundle that could be published should be publishable again. A bundle of several
  modules aborts with code 22 (`BundleOnlyOnce`), unless they all have the last one's ABI hash or
  that hash is zero (`RedeployIffOneAbi`).
- The gas of a publish should stay within its limit. A publish that the upgrade check turns away
  is charged the base fee in any case (`BundleOnlyOnce`, `FrozenRejectionOverLimit`); the gas stays
  within the limit if and only if the limit covers that fee or no module is turned away
  (`PublishGasWithinLimit`).
- The gas of a planned publish should stay within its limit. A taken address is charged the base
  fee in any case, and a limit of zero is no limit; the last clause of `PublishVerifiedModules` is
  the exact condition.
- A dependency that passes the check should exist. The check looks at the address only, because the
  lookup falls back to the legacy key (`MissingDependencyAccepted`); a dependency that does not
  exist passes if and only if its address has code and its name has no entry
  (`DependencyCheckIgnoresName`, `LookupFindsNameIff`).
- The package hash should identify its modules. Names are not delimited, so packages with different
  names can have one hash (`StreamIsAmbiguous`, `AmbiguousExample`, `PackagesConfused`). With one
  preimage, the modules are the same if and only if the sorted names have the same lengths
  (`SameModulesIff`); for packages with the same names the hash is good (`PackageHashIffSurfaces`).
- Equal ABI hashes should mean equal parameter types. Struct types are hashed as handle numbers and
  the handles are not hashed (`ForeignStructsAreNotHashed`); the types agree if and only if the
  numbers that the surface mentions stand for the same structs (`ResolvedSurfaceIff`).
- Internal changes should keep the ABI hash, as abi.rs says in lines 22 and 23. A new private
  function can move the handle numbers of the public ones (`PrivateFunctionChangesPreimage`), and
  then a `Compatible` upgrade aborts (`PrivateFunctionBlocksUpgrade`). The preimage stays if and only
  if the public entries use the same numbers (`InternalChangeKeepsPreimageIff`,
  `InternalUpgradePassesIff`); tables that only grow at their ends suffice
  (`HashIgnoresOrderAndPrivates`).

## Model

| member | source | states |
|---|---|---|
| AbiTokens.EncodeToken | crates/nexus-move-runtime/src/abi.rs:185-237 | appending one token to the buffer leaves what was there and adds exactly the token's code |
| AbiTokens.SignatureTokensToBytes | crates/nexus-move-runtime/src/abi.rs:170-176 | a signature is written as the codes of its tokens, in order |
| AbiTokens.TokenRoundTrip | crates/nexus-move-runtime/src/abi.rs:185-237 | the code is a prefix code: for every token tree and every suffix the decoder gives back that token and that suffix |
| AbiTokens.TokensRoundTrip | crates/nexus-move-runtime/src/abi.rs:208-210 | reading as many tokens as were written gives them back with the suffix |
| AbiTokens.TokensInjective | crates/nexus-move-runtime/src/abi.rs:170-176 | different token lists are written differently although no count is written |
| AbiTokens.LongListCollides | crates/nexus-move-runtime/src/abi.rs:207 | the 255-entry bound of the round trip is needed: past it the one-byte count is lost and two lists have the same bytes |
| AbiStream.TokenWireFormat | crates/nexus-move-runtime/src/abi.rs:185-237 | the bytes of all sixteen tokens, with tags, little-endian indices, counts, and parameters before results |
| AbiRows.NameLengthStops | crates/nexus-move-runtime/src/abi.rs:57-58 | an undelimited name ends where the first byte below 0x24 comes, whatever follows |
| AbiRows.SectionRoundTrip | crates/nexus-move-runtime/src/abi.rs:54-64 | a section of entries can be read back entry by entry, whatever follows it |
| AbiRows.SortSorts | crates/nexus-move-runtime/src/abi.rs:52 | sorting keeps the entries and orders them strictly when names are distinct |
| AbiRows.SortedUnique | crates/nexus-move-runtime/src/abi.rs:112 | the sorted list depends only on the set of entries |
| AbiLayout.EncodeLayout | crates/nexus-move-runtime/src/abi.rs:74-107 | the nested loops over fields and variants write the layout's bytes, markers included |
| AbiLayout.EncodeVariants | crates/nexus-move-runtime/src/abi.rs:92-104 | the loop over variants and their uncounted fields writes them in order |
| AbiLayout.GroupInvertsFlatten | crates/nexus-move-runtime/src/abi.rs:92-104 | the flat stream of variant headings and fields can be cut back into its variants |
| AbiLayout.MemberRoundTrip | crates/nexus-move-runtime/src/abi.rs:96-103 | a field with its name and type can be read back, whatever follows it |
| AbiLayout.ItemsRoundTrip | crates/nexus-move-runtime/src/abi.rs:92-104 | headings and fields are told apart by one look-ahead byte, for any uncounted list of them |
| AbiLayout.LayoutRoundTrip | crates/nexus-move-runtime/src/abi.rs:74-107 | native, declared and variant layouts decode to themselves, also when a field name of 254 or 255 bytes imitates a marker |
| AbiModule.CollectFunctions | crates/nexus-move-runtime/src/abi.rs:28-50 | the loop collects one entry per non-private function, in definition order |
| AbiModule.CollectStructs | crates/nexus-move-runtime/src/abi.rs:67-110 | the loop collects one entry per struct definition, in order |
| AbiModule.UpdateSection | crates/nexus-move-runtime/src/abi.rs:54-64 | the hasher receives tag, count, and every entry |
| AbiModule.ComputeModuleAbiHash | crates/nexus-move-runtime/src/abi.rs:24-124 | filtering, encoding, sorting and hashing in loops yields the hash of the preimage of the module |
| AbiModule.StreamRoundTrip | crates/nexus-move-runtime/src/abi.rs:54-121 | the hashed stream splits back into its function table and its struct table |
| AbiStream.FunctionInPreimage | crates/nexus-move-runtime/src/abi.rs:28-64 | every public or friend function is in the stream as name, visibility 1 or 3, entry flag, parameter types and then result types with their lengths, read off the tables |
| AbiStream.StructInPreimage | crates/nexus-move-runtime/src/abi.rs:67-121 | every struct is in the stream as name, abilities and its layout with its length: FF, the fields, or FE and the variants |
| AbiStream.PreimageWrittenOut | crates/nexus-move-runtime/src/abi.rs:24-121 | the whole stream byte by byte: `functions:`, count, all public functions by increasing name, `structs:`, count, all structs by increasing name |
| Base.LexLeIs | crates/nexus-move-runtime/src/abi.rs:52 | names are ordered like strings: a prefix first, else by the first byte that differs |
| Base.LittleEndian | crates/nexus-move-runtime/src/abi.rs:55 | u16 and u32 numbers are written least significant byte first |
| AbiModule.FunctionRowInjective | crates/nexus-move-runtime/src/abi.rs:43-49 | an entry determines name, visibility, entry flag, parameters and results |
| AbiModule.StructRowInjective | crates/nexus-move-runtime/src/abi.rs:109 | an entry determines name, abilities and the whole layout |
| AbiModule.EqualPreimagesEqualSurfaces | crates/nexus-move-runtime/src/abi.rs:54-121 | modules with the same preimage have the same public functions and structs |
| AbiModule.EqualSurfacesEqualPreimages | crates/nexus-move-runtime/src/abi.rs:28-64 | modules with the same public functions and structs, as sets, have the same preimage |
| AbiModule.PreimageIffSurface | crates/nexus-move-runtime/src/abi.rs:15-124 | the preimage names the public surface exactly: equal preimages if and only if equal surfaces |
| AbiModule.HashIgnoresOrderAndPrivates | crates/nexus-move-runtime/src/abi.rs:22-35 | reordering definitions and adding private functions leaves the hash unchanged when the identifier, signature and handle tables keep their old entries in place |
| AbiResolved.InternalChangeKeepsPreimageIff | crates/nexus-move-runtime/src/abi.rs:22-23 | for two modules with the same surface by struct names, the preimage stays if and only if entries of one name mention the same handle numbers in the same order |
| AbiResolved.NumbersFixType | crates/nexus-move-runtime/src/abi.rs:200-210 | types that resolve alike are equal if and only if they mention the same handle numbers in the same order |
| AbiExamples.PrivateFunctionChangesPreimage | crates/nexus-move-runtime/src/abi.rs:22-23 | a well-formed module that gains a private function, keeps its surface by struct names, and changes its preimage |
| AbiModule.TypeParametersAreNotHashed | crates/nexus-move-runtime/src/abi.rs:17-50 | changing function type parameters leaves the preimage unchanged, against the comment |
| AbiModule.NameIsNotHashed | crates/nexus-move-runtime/src/abi.rs:24-124 | renaming a module leaves surface and preimage unchanged |
| AbiResolved.ResolvedIffAgree | crates/nexus-move-runtime/src/abi.rs:200-210 | a type resolves to the same named type in two modules if and only if every handle number it mentions names the same struct |
| AbiResolved.ResolvedSurfaceIff | crates/nexus-move-runtime/src/abi.rs:24-124 | modules with one preimage have the same surface by struct names if and only if every handle number that the surface mentions names the same struct |
| AbiExamples.ForeignStructsAreNotHashed | crates/nexus-move-runtime/src/abi.rs:200-203 | two well-formed modules with one preimage whose entry functions take structs of different modules |
| AbiPackage.ComputePackageAbiHash | crates/nexus-move-runtime/src/abi.rs:130-154 | the loop yields the hash of the sorted name and hash list, or zero for no modules |
| AbiStream.PackageWrittenOut | crates/nexus-move-runtime/src/abi.rs:144-154 | the package stream byte by byte: `package_abi:`, count, and name and hash of every module by increasing name |
| AbiPackage.PackageHashIgnoresOrder | crates/nexus-move-runtime/src/abi.rs:128-154 | listing the modules in another order does not change the package preimage |
| AbiPackage.KnownLengthsKnownRows | crates/nexus-move-runtime/src/abi.rs:149-152 | with the lengths of the names known the stream determines every name and module hash |
| AbiPackage.SameModulesIff | crates/nexus-move-runtime/src/abi.rs:128-154 | two packages list the same modules with the same hashes if and only if they have one preimage and their sorted names have the same lengths |
| AbiPackage.StreamIsAmbiguous | crates/nexus-move-runtime/src/abi.rs:128-154 | without the lengths two packages with distinct valid names list different modules and have one preimage, whenever two module hashes consist of identifier bytes |
| AbiPackage.PackagesConfused | crates/nexus-move-runtime/src/abi.rs:128-154 | for every hash function, packages of well-formed modules with different module names and one package preimage, given two digests of identifier bytes |
| AbiPackage.PackageHashIffSurfaces | crates/nexus-move-runtime/src/abi.rs:128-154 | for packages with the same module names, equal surfaces give equal package hashes, and equal hashes give equal surfaces module by module or a BLAKE3 collision |
| Utf8.Concat | crates/nexus-move-stdlib/src/lib.rs:352-358 | behind well-formed bytes a string is well-formed exactly when its rest is |
| Utf8.BoundarySplits | crates/nexus-move-stdlib/src/lib.rs:362-372 | cutting a well-formed string where a character starts leaves two well-formed pieces |
| Utf8.BoundaryIffPrefixWellFormed | crates/nexus-move-stdlib/src/lib.rs:362-372 | a cut is a character boundary if and only if the front is well-formed |
| Utf8.EncodeInvertsDecode | crates/nexus-move-stdlib/src/lib.rs:352-358 | every well-formed string is the encoding of its scalar values |
| Utf8.DecodeInvertsEncode | crates/nexus-move-stdlib/src/lib.rs:352-358 | encodings of scalar values are well-formed and decode to those values |
| Utf8.DecodeConcat | crates/nexus-move-stdlib/src/lib.rs:352-358 | decoding a concatenation concatenates the scalar values |
| Utf8.GrammarIsEncoding | crates/nexus-move-stdlib/src/lib.rs:352-358 | the grammar of section 4 and the encoding of section 3 of RFC 3629 describe the same strings |
| Strings.BoundaryTest | crates/nexus-move-stdlib/src/lib.rs:362-372 | on UTF-8 the one-byte boundary test finds exactly the places where characters start |
| Strings.MatchAtBoundaries | crates/nexus-move-stdlib/src/lib.rs:406-414 | a byte match of one UTF-8 string in another starts and ends at character boundaries |
| Strings.IndexOfFinds | crates/nexus-move-stdlib/src/lib.rs:398-417 | a hit of a non-empty pattern is its first occurrence, cutting it out never aborts and gives the pattern, and the length comes back if and only if there is none; an empty pattern gives 0 |
| Strings.ByteMatchIsScalarMatch | crates/nexus-move-stdlib/src/lib.rs:406-414 | the byte search is `str::find`: byte occurrences are occurrences of the scalar values, at the offset their prefix encodes to |
| Strings.SubStringWellFormed | stdlib/audit_sources/string.move:70-81 | slicing gives the bytes in between exactly between boundaries, well-formed again, and aborts with 2 elsewhere |
| Strings.MoveString.FromUtf8 | stdlib/audit_sources/string.move:17-21 | a string is made exactly from well-formed bytes, else abort 1 |
| Strings.MoveString.Append | stdlib/audit_sources/string.move:47-50 | appending concatenates and stays well-formed |
| Strings.MoveString.AppendUtf8 | stdlib/audit_sources/string.move:52-55 | bytes are appended exactly when well-formed; else abort 1 and no change |
| Strings.MoveString.Insert | stdlib/audit_sources/string.move:57-68 | insertion splices at a boundary in range, aborts with 2 exactly elsewhere, and its inner slices never abort |
| Strings.InsertSplices | stdlib/audit_sources/string.move:57-68 | on values: the result is front, insertion, end, and is well-formed; the abort condition is exact |
| Strings.ReachableStringsWellFormed | stdlib/audit_sources/string.move:12-15 | every string any program can build with the API is well-formed UTF-8 |
| Events.GuidBytesInjective | stdlib/nursery/sources/event.move:47-48 | the serialized key of a stream determines its GUID |
| Events.U64LittleEndian | stdlib/nursery/sources/event.move:47-48 | creation numbers and ping counts are written as eight bytes, least significant first |
| Events.MoveSession.EnsureGenerator | stdlib/nursery/sources/guid.move:34-40 | a generator starting at zero is published where there is none, and no existing one is touched |
| Events.MoveSession.CreateImplementation | stdlib/nursery/sources/guid.move:62-67 | hands out the counter and advances it, aborting only on overflow |
| Events.MoveSession.NewHandleAt | stdlib/nursery/sources/event.move:36-44 | a new handle counts from zero under a GUID created for it |
| Events.MoveSession.EmitEvent | stdlib/nursery/sources/event.move:46-50 | pushes the event before advancing the counter, also when the advance then overflows |
| Events.MoveSession.PingEmitterOf | examples/emitter/sources/emitter.move:24-31 | counts the ping, then emits an event carrying the new count |
| Events.MoveSession.ChargeGas | crates/nexus-move-runtime/src/move_gas_meter.rs:108-118 | a charge is taken if it fits the limit and changes nothing otherwise |
| Events.MoveSession.Apply | stdlib/nursery/sources/guid.move:32-72 | every operation moves the session object as the step function says, aborts included |
| Events.ExecuteFunction | crates/nexus-move-runtime/src/vm_backend.rs:85-230 | interprets until the first abort and puts out effects, events and return values, or none of them |
| EventStreams.NextGuidIsFresh | stdlib/nursery/sources/guid.move:62-67 | the GUID a generator hands out next has never been issued |
| EventStreams.StepKeepsInv | stdlib/nursery/sources/event.move:36-63 | every operation that does not abort keeps generators, handles, numbering and emitters consistent |
| EventStreams.RunKeepsInv | crates/nexus-move-runtime/src/vm_backend.rs:166-228 | every run of committed and aborted transactions keeps them consistent |
| EventStreams.NumberedStreams | stdlib/nursery/sources/event.move:57-58 | if each event is numbered by the events of its stream before it, a stream reads 0, 1, ..., k-1 |
| EventStreams.EventStreamsInEveryRun | stdlib/nursery/sources/event.move:46-50 | in every run the events under any GUID are numbered exactly 0 to k-1 in order, k being the live handle's counter |
| EventStreams.GuidsInEveryRun | stdlib/nursery/sources/guid.move:11-22 | in every run GUIDs are distinct, creation numbers lie below their generator, and the next creation number is the number issued |
| EventStreams.GeneratorsNeverShrink | stdlib/nursery/sources/guid.move:5-9 | no run removes a generator or lowers its counter |
| EventStreams.EmittersInEveryRun | examples/emitter/sources/emitter.move:14-31 | in every run an emitter's ping count is the length of its stream, and event n carries count n+1 |
| EventStreams.OutputOfEveryTransaction | crates/nexus-move-runtime/src/vm_backend.rs:193-228 | for any estimates, gas lies between consumed gas and the limit; anything but success leaves no effects, events or return values |
| EventStreams.OverflowDropsTheEvent | stdlib/nursery/sources/event.move:47-50 | an event pushed before its counter overflows is dropped with its transaction |
| EventProgress.AbortsAsRefused | stdlib/nursery/sources/event.move:36-63 | every operation aborts exactly when the session calls for it, and with that reason: no number left, a taken or missing place, a full counter, no gas |
| EventProgress.GuidEffects | stdlib/nursery/sources/guid.move:32-72 | publishing, handing out a capability and creating set the generator to zero if new, and creating issues the next number |
| EventProgress.CapabilityCanCreate | stdlib/nursery/sources/guid.move:32-50 | after a capability is handed out, creating with it succeeds unless the numbers are used up |
| EventProgress.HandleEffects | stdlib/nursery/sources/event.move:36-63 | a new handle counts from zero under the next GUID, an emitter starts with no pings, and destroying a handle leaves all others |
| EventProgress.EmitEffect | stdlib/nursery/sources/event.move:46-50 | an event carries its type tag and payload, the GUID as number and address, and the old counter, which advances by one |
| EventProgress.EmitsSucceedIff | stdlib/nursery/sources/event.move:46-50 | n events from a live handle go out, numbered from its counter on, if and only if the counter has room for n; else the overflow aborts |
| EventProgress.PingsSucceedIff | examples/emitter/sources/emitter.move:24-31 | n pings go out if and only if the ping count has room for n, and each event carries its own count |
| EventProgress.PingsInEveryRun | examples/emitter/sources/emitter.move:14-31 | after any run a transaction of pings succeeds if and only if the account has an emitter with room for them, and its events are the next of the stream |
| EventProgress.GasOfEveryTransaction | crates/nexus-move-runtime/src/vm_backend.rs:193-228 | reported gas is the larger of the true charges and the estimate if that fits the limit, else the limit, for a success, an abort and a load failure; a success returns its values |
| StateChanges.ReplayIsOverlay | crates/nexus-move-runtime/src/types.rs:14-26 | replaying any change list on any state is laying its last writes over that state |
| StateChanges.ReplayConcat | crates/nexus-move-runtime/src/types.rs:14-26 | replaying two lists one after the other is replaying their concatenation |
| StateChanges.LastWritesCoherent | crates/nexus-move-runtime/src/types.rs:21-31 | a change list and the map of its last writes give the same next state from every state |
| StateChanges.WriteLog.PushWrite | crates/nexus-move-runtime/src/publisher.rs:123-136 | pushing to both outputs keeps the map the last writes of the list |
| StateChanges.ChangeSetToNexus | crates/nexus-move-runtime/src/vm_backend.rs:723-759 | every VM operation becomes one change, in order, and both outputs agree on every base state, even if tags share a key |
| StateChanges.ChangeSetMeaning | crates/nexus-move-runtime/src/vm_backend.rs:736-755 | replaying the conversion has the effect of the VM operations themselves: created, replaced or gone |
| Sessions.ResourceStore.Lookup | crates/nexus-move-runtime/src/resources.rs:30-36 | reading gives what the plain map holds |
| Sessions.ResourceStore.Set | crates/nexus-move-runtime/src/resources.rs:38-41 | writing changes the plain map at that key alone |
| Sessions.ResourceStore.Remove | crates/nexus-move-runtime/src/resources.rs:43-46 | removing takes that key out of the plain map |
| Sessions.ResourceStore.IntoChanges | crates/nexus-move-runtime/src/resources.rs:48-58 | one change per overlay entry, strictly sorted by account and key, agreeing with the write set, and replaying to the plain map |
| Sessions.ChangesByAccountThenKey | crates/nexus-move-runtime/src/resources.rs:48-58 | the changes come account by account in order, and key by key in order within an account |
| Sessions.SimpleGasMeter.Charge | crates/nexus-move-runtime/src/gas.rs:40-52 | a charge is taken exactly when the saturated sum fits |
| Sessions.ExecuteSession.ChargeOn | crates/nexus-move-runtime/src/session.rs:59-72 | the amount is booked in the summary in any case, and on the meter only if it fits |
| Sessions.ExecuteSession.Perform | crates/nexus-move-runtime/src/session.rs:59-102 | charges, reads and writes move the session object as the step function says |
| Sessions.ExecuteSession.Commit | crates/nexus-move-runtime/src/session.rs:104-114 | the given status, the metered gas and no events; both outputs agree and move the base state to the overlaid one |
| Sessions.ExecuteSession.Abort | crates/nexus-move-runtime/src/session.rs:116-125 | the given status and the metered gas; an abort changes no state |
| Sessions.ChargeTracksGas | crates/nexus-move-runtime/src/session.rs:59-72 | saturating counters accept and refuse as unbounded sums would, and keep standing for them |
| Sessions.CostsAreProducts | crates/nexus-move-runtime/src/session.rs:80-98 | the saturating costs are the true products of length and rate, cut off once |
| Sessions.GasOfEverySession | crates/nexus-move-runtime/src/session.rs:11-102 | over every sequence of calls: the session answers as a reference that counts with unbounded numbers, a read at length times read rate and a write at length times write rate; its summary holds those three sums up to the top u64 value; consumed <= limit, exact whenever limit < u64::MAX; total > limit if and only if some charge failed, and equals consumed otherwise |
| Sessions.CommitOfEverySession | crates/nexus-move-runtime/src/session.rs:74-114 | after any calls, direct sets and removals on the public store included, the overlay stands for the plain map of a machine without cache |
| Sessions.ReadOnlyCommitsNothing | crates/nexus-move-runtime/src/session.rs:88-102 | a read-only session has nothing to commit if and only if its store was not written past its methods |
| Sessions.DeniedWriteChangesNothing | crates/nexus-move-runtime/src/session.rs:94-101 | a refused write changes neither overlay nor consumed gas |
| Sessions.WritesDoNotInterfere | crates/nexus-move-runtime/src/resources.rs:10-14 | a write is seen under its own type tag and under no other |
| Gas.PublishEstimateExact | crates/nexus-move-runtime/src/gas.rs:147-155 | the folded saturating estimate is the true cost, cut off once at the top |
| Gas.CallEstimateExact | crates/nexus-move-runtime/src/gas.rs:134-145 | the same for calls |
| Gas.ScriptEstimateExact | crates/nexus-move-runtime/src/gas.rs:157-169 | the same for scripts |
| Publishing.KeysApart | crates/nexus-move-runtime/src/state.rs:5-20 | per-module keys differ from the fixed keys and from each other |
| Publishing.KeyStrings | crates/nexus-move-runtime/src/state.rs:5-20 | the storage keys as strings |
| PublishRuns.SucceedsIffAllAcceptable | crates/nexus-move-runtime/src/vm_backend.rs:246-375 | a bundle succeeds if and only if every module deserializes at the sender's address, may go there by stored policy and ABI hash, passes the verifier, has encodable metadata, and has only dependencies of the sender, of `0x1`, or with code, all against the state before the bundle |
| PublishNames.SucceedsInEveryRunIff | crates/nexus-move-runtime/src/vm_backend.rs:246-375 | the same on top of any run, where a dependency of another address passes if and only if that address has code |
| PublishNames.DependenciesInEveryRun | crates/nexus-move-runtime/src/vm_backend.rs:341-349 | in every run the dependencies of a module pass if and only if each is at the sender's address, at `0x1`, or at an address with code |
| PublishRuns.FirstBundleSucceeds | crates/nexus-move-runtime/src/vm_backend.rs:341-349 | at an address without code a bundle of sound modules that depend on each other, on the framework or on coded addresses succeeds |
| PublishRuns.UpgradeCheckIs | crates/nexus-move-runtime/src/vm_backend.rs:263-325 | when a module may go to an address, by what is stored there, and the code of the refusal otherwise |
| PublishRuns.MetadataAfterPublish | crates/nexus-move-runtime/src/vm_backend.rs:355-375 | every field of the metadata that a successful bundle leaves, those of its last module |
| PublishRuns.FirstObjectionDecides | crates/nexus-move-runtime/src/vm_backend.rs:246-375 | otherwise the first module that does not pass decides the outcome of the whole bundle: which error, or which abort code at which gas, in the order of the checks |
| Publishing.PushModule | crates/nexus-move-runtime/src/vm_backend.rs:377-414 | a module's four writes go to both outputs in step |
| Publishing.PublishModules | crates/nexus-move-runtime/src/vm_backend.rs:232-428 | the loop with its early returns puts out the first module's objection or both outputs of the whole bundle |
| PublishRuns.BundleEffect | crates/nexus-move-runtime/src/vm_backend.rs:377-414 | replaying a bundle leaves the last module under the legacy keys, the last of each name under its own key, and all else alone |
| PublishRuns.PublishOutputsCoherent | crates/nexus-move-runtime/src/vm_backend.rs:377-427 | change list and write set agree on every base state despite repeated legacy keys; aborts have neither |
| PublishRuns.SuccessIffNoneTurnedAway | crates/nexus-move-runtime/src/vm_backend.rs:263-325 | an outcome that is not an error is a success if and only if the upgrade check turns no module away |
| PublishRuns.PublishGasWithinLimit | crates/nexus-move-runtime/src/vm_backend.rs:270-294 | reported gas stays within the limit if and only if the limit covers the base fee or the upgrade check turns no module away |
| PublishRuns.PublishGasExact | crates/nexus-move-runtime/src/vm_backend.rs:417-427 | a success costs base fee plus bundle bytes plus written bytes at their rates, in true numbers, or the limit if that is less |
| PublishRuns.FrozenRejectionOverLimit | crates/nexus-move-runtime/src/vm_backend.rs:269-296 | a bundle for a frozen package reports more gas than any limit below the base fee |
| PublishRuns.PublishTouchesOnlySender | crates/nexus-move-runtime/src/vm_backend.rs:252-258 | a publish changes no other address, and at its own only code and metadata keys |
| PublishRuns.LookupAfterPublish | crates/nexus-move-runtime/src/state.rs:53-68 | a name looks up the last module of that name in the bundle, else its earlier entry, else the bundle's last module |
| PublishRuns.CodeHasMetadataInEveryRun | crates/nexus-move-runtime/src/vm_backend.rs:351-414 | in every run an address has code if and only if it has readable metadata, and names, hashes, ABI hash, deployer and version in it are those of that code |
| PublishRuns.StepOnPackage | crates/nexus-move-runtime/src/vm_backend.rs:232-428 | a step leaves an address's package alone, or is a successful bundle by its owner |
| PublishRuns.PolicyAsRequested | crates/nexus-move-runtime/src/vm_backend.rs:364-370 | after a success the policy in force is the requested one, immutable by default |
| PublishRuns.PolicyDecidesAbort | crates/nexus-move-runtime/src/vm_backend.rs:263-325 | an owner is turned away with 20, 21 or 22 as policy and ABI hash say, at the base fee and without changes |
| PublishRuns.FrozenForever | crates/nexus-move-runtime/src/vm_backend.rs:263-296 | once immutable or under governance, a package keeps every key over every run |
| PublishRuns.FrozenAddressUntouched | crates/nexus-move-runtime/src/vm_backend.rs:263-296 | no publish by anyone changes any key at the address of such a package |
| PublishRuns.AbiHashForever | crates/nexus-move-runtime/src/vm_backend.rs:297-325 | a stored non-zero ABI hash never changes, for bundles of any size |
| PublishRuns.PublicSurfaceForever | crates/nexus-move-runtime/src/vm_backend.rs:297-325 | over every run the module under the legacy code key keeps its public surface, unless BLAKE3 collides on the two preimages |
| PublishNames.StepOnName | crates/nexus-move-runtime/src/vm_backend.rs:377-384 | a step leaves the entry of a name alone, or stores a module of that name and address that has passed the upgrade check |
| PublishNames.RunKeepsNames | crates/nexus-move-runtime/src/vm_backend.rs:377-384 | over every run, what is stored under a name is a module of that name and address |
| PublishNames.EntryForever | crates/nexus-move-runtime/src/vm_backend.rs:297-325 | where a package tracks an ABI hash, over every run the entry of a name is the old one or has that hash |
| PublishNames.NamedSurfaceInEveryRun | crates/nexus-move-runtime/src/state.rs:57-68 | over every run, the module found under a name keeps its surface (or BLAKE3 collides) if and only if its bytes did not change or the old one had the stored ABI hash |
| PublishNames.UpgradeKeepsNamedSurfaceIff | crates/nexus-move-runtime/src/vm_backend.rs:297-325 | a successful upgrade of a name keeps its surface (or BLAKE3 collides) if and only if the old module had the stored ABI hash |
| PublishExamples.NamedSurfaceCanChange | crates/nexus-move-runtime/src/vm_backend.rs:297-325 | a concrete compatible upgrade that succeeds and changes the surface found under a name, without a collision |
| PublishNames.InternalUpgradePassesIff | crates/nexus-move-runtime/src/vm_backend.rs:297-325 | a new version with the same surface by struct names passes the upgrade check if and only if it uses the same handle numbers or BLAKE3 collides; else abort 22 |
| PublishExamples.PrivateFunctionBlocksUpgrade | crates/nexus-move-runtime/src/vm_backend.rs:297-325 | an upgrade that only adds a private function aborts with 22, or BLAKE3 collides |
| PublishRuns.StillNotMissing | crates/nexus-move-runtime/src/vm_backend.rs:341-349 | dependencies that were found before a publish are found after it |
| PublishRuns.LookupForever | crates/nexus-move-runtime/src/state.rs:57-68 | code is never removed: a lookup that finds some module goes on finding one, which may be of another name |
| PublishNames.LookupFindsNameIff | crates/nexus-move-runtime/src/state.rs:57-68 | in every run a lookup finds a module if and only if the address has code, and one of the wanted name if and only if that name has an entry |
| PublishNames.EntryNeverRemoved | crates/nexus-move-runtime/src/vm_backend.rs:377-384 | an entry once stored is never removed |
| PublishNames.PublishedForever | crates/nexus-move-runtime/src/state.rs:57-68 | a module once published under a name can be found under that name for ever |
| PublishNames.DependencyCheckIgnoresName | crates/nexus-move-runtime/src/vm_backend.rs:341-349 | a dependency passes if and only if its address has code; one that does not exist passes if and only if also its name has no entry |
| PublishExamples.MissingDependencyAccepted | crates/nexus-move-runtime/src/vm_backend.rs:341-349 | a concrete module that is published although its dependency does not exist |
| PublishRuns.RedeployIffOneAbi | crates/nexus-move-runtime/src/vm_backend.rs:297-325 | publishing a compatible bundle again succeeds if and only if all its modules share the last one's ABI hash or that hash is zero; else abort 22 |
| PublishExamples.BundleOnlyOnce | crates/nexus-move-runtime/src/vm_backend.rs:297-325 | a concrete bundle that is published once and then aborts with 22, charged more than its gas limit |
| Planner.PublishVerifiedModules | crates/nexus-move-runtime/src/publisher.rs:25-121 | refuses bad bundles, taken addresses and true costs that reach a non-zero limit; otherwise charges the true cost, and both outputs agree and put the bundle under the address hashed from sender and code hash; and when the reported gas is within the limit |
| Planner.PlannedEffect | crates/nexus-move-runtime/src/publisher.rs:78-108 | replaying a planned publish writes code, code hash, deployer and module count, and nothing else |
| Planner.ConcatenatedAppend | crates/nexus-move-runtime/src/publisher.rs:34-38 | the code of a bundle is its modules one after the other |
| Planner.AddressesApart | crates/nexus-move-runtime/src/publisher.rs:14-23 | two bundles share an address only with the same sender and code hash, or on a BLAKE3 collision |
| FixedPoint.CeilIsCeiling | stdlib/audit_sources/fixed_point32.move:238-246 | rounding up never aborts and gives the least integer not below the number |
| FixedPoint.RoundIsNearest | stdlib/audit_sources/fixed_point32.move:263-272 | rounding never aborts and gives the nearest integer, the larger one on a tie |
| FixedPoint.RoundingOrder | stdlib/audit_sources/fixed_point32.move:220-272 | floor, round and ceil come in this order and span at most one |
| FixedPoint.MultiplyExact | stdlib/audit_sources/fixed_point32.move:34-45 | a product aborts exactly when the truncated value is too large, never in the 128-bit step |
| FixedPoint.DivideExact | stdlib/audit_sources/fixed_point32.move:63-75 | a quotient aborts exactly on a zero divisor or a value too large; the shift drops nothing |
| FixedPoint.RationalExact | stdlib/audit_sources/fixed_point32.move:101-115 | the ratio is floor(n * 2^32 / d), with exactly the documented aborts |
| FixedPoint.FromU64Exact | stdlib/audit_sources/fixed_point32.move:201-205 | integers convert exactly below 2^32, and floor gives them back |
| FixedPoint.DivideUndoesMultiply | stdlib/audit_sources/fixed_point32.move:34-75 | dividing a product by its multiplier succeeds and loses at most ceil((2^32 - 1) / m) |
| FixedPoint.RatioTimesDenominator | stdlib/audit_sources/fixed_point32.move:34-115 | multiplying d <= 2^32 by n/d gives n or n-1, and n exactly when the ratio is representable |
| Vectors.ReversedAt | stdlib/audit_sources/vector.move:64-76 | reversal puts every element at its mirror place |
| Vectors.ReversedInvolution | stdlib/audit_sources/vector.move:64-76 | reversing twice gives the vector back |
| Vectors.Vector.Reverse | stdlib/audit_sources/vector.move:64-76 | the two-ended swap loop reverses |
| Vectors.Vector.Append | stdlib/audit_sources/vector.move:82-87 | reversing the other vector and popping it concatenates |
| Vectors.Vector.Contains | stdlib/audit_sources/vector.move:101-111 | membership, both ways |
| Vectors.Vector.IndexOf | stdlib/audit_sources/vector.move:116-126 | the first index if and only if present, else (false, 0) |
| Vectors.Vector.Remove | stdlib/audit_sources/vector.move:131-142 | the chain of swaps takes out that element and keeps the order of the others; out of range aborts |
| Vectors.Vector.SwapRemove | stdlib/audit_sources/vector.move:147-155 | the last element takes the removed one's place; the two ways to abort |
| BitVectors.BitVector.New | stdlib/audit_sources/bit_vector.move:18-40 | all zeros, for lengths 1 to 1023 and no others |
| BitVectors.BitVector.Set | stdlib/audit_sources/bit_vector.move:52-57 | sets that bit and no other; aborts with EINDEX exactly out of range |
| BitVectors.BitVector.Unset | stdlib/audit_sources/bit_vector.move:68-73 | clears that bit and no other; aborts with EINDEX exactly out of range |
| BitVectors.BitVector.IsIndexSet | stdlib/audit_sources/bit_vector.move:113-118 | reads that bit; aborts exactly out of range |
| BitVectors.SetRun | stdlib/audit_sources/bit_vector.move:141-155 | all bits of the run are set, and it ends at a clear bit or the end |
| BitVectors.BitVector.ShiftLeft | stdlib/audit_sources/bit_vector.move:84-111 | never aborts, keeps the length, and bit i becomes bit i + amount or zero |
| BitVectors.BitVector.LongestSetSequenceStartingAt | stdlib/audit_sources/bit_vector.move:144-155 | the length of the gapless run of set bits from the start index, which is bounded by a clear bit or the end |
| BitVectors.ShiftAdds | stdlib/audit_sources/bit_vector.move:84-111 | shifting by x and then y is shifting by x + y |
| BitVectors.RunAfterShift | stdlib/audit_sources/bit_vector.move:84-155 | the run from k is the run from the start once k bits are shifted out |
| HexAddress.DecodeHex | crates/nexus-move-types/src/lib.rs:121-134 | the loop decodes pairs and reports the first bad character |
| HexAddress.DecodeNibble | crates/nexus-move-types/src/lib.rs:136-143 | a character has a value exactly when it is a hex digit of either case; else it is reported with its index |
| HexAddress.ParseHexLiteral | crates/nexus-move-types/src/lib.rs:32-65 | strips one prefix, pads odd digits, and fills the address from the right |
| HexAddress.Format | crates/nexus-move-types/src/lib.rs:72-80 | the printing loop writes the prefix and two digits a byte |
| HexAddress.DisplayIs | crates/nexus-move-types/src/lib.rs:72-80 | the printed form is `0x` and 64 lower-case digits that denote the number of the address |
| HexAddress.AcceptedIffHex | crates/nexus-move-types/src/lib.rs:32-65 | a literal is accepted if and only if 1 to 64 hex digits follow its prefix, and the address is their value |
| HexAddress.AcceptedLiterals | crates/nexus-move-types/src/lib.rs:32-65 | accepted are exactly 1 to 64 hex digits, alone or behind `0x` or `0X`, and the address is the number they denote |
| HexAddress.DigitsMean | crates/nexus-move-types/src/lib.rs:136-143 | the value of every hex digit in both cases |
| HexAddress.SameAddressIffSameNumber | crates/nexus-move-types/src/lib.rs:32-65 | two accepted literals give the same address if and only if they denote the same number |
| HexAddress.ParseInvertsDisplay | crates/nexus-move-types/src/lib.rs:32-80 | parsing the printed form of any address gives it back |
| HexAddress.RejectedLiterals | crates/nexus-move-types/src/lib.rs:94-99 | which error a rejected literal gets, with its index, byte or length |

## Left out

- The Move VM, its verifier and compiler: an interpreted program appears as an arbitrary sequence of operations with an abort anywhere; bytecode verification is a predicate.
- Storage errors: state reads succeed, so the `Storage` error paths of `get_raw`, `has_module` and `ResourceStore::get` do not appear; failures of `into_effects` and of type-argument decoding do not appear either.
- The per-instruction prices of `NexusGasMeter`: every charge method goes through one `charge`, and the model charges arbitrary amounts.
- Events.ExecuteFunction: return values are a parameter, and an abort carries its reason without location and VM code. A function name that does not parse counts as code that does not load; effects are the new global storage rather than serialized resources. `query_view` discards its effects and is left out.
- Vectors.Vector.Reverse: `vector<T>` is a field of type `seq`, so aliasing between borrowed elements does not appear; `for_each`, `map`, `fold` and `filter` take function arguments and are left out.
- AbiRows.SortSorts: the library sort is modelled as a stable insertion sort on values.
- Publishing.PublishModules: error messages are reduced to their kinds; the embedded framework modules are a predicate on names.
- PublishNames.DependencyCheckIgnoresName: the dependency check is `get_module_by_name` on the stored bytes; what the VM's module storage checks beyond that is not part of this model.
- BCS beyond GUIDs and `u64`, JSON, SHA-2, SHA-3, file access, packaging and the compile backends.
- `option`, `ascii`, `error`, `signer`, `inspect_move_toml`, `verify_publish_bundle` and the counter example: they would only add easy members.
