# A verified model of certificate-transparency-go

This project models the parts of the Certificate Transparency Go libraries whose behaviour comes from
state, interleavings, loops and codecs, and proves what those parts are for. Everything is in Dafny;
`dafny verify dfyconfig.toml` checks it all.

The main results:

- **SCT submission races** (`Races`, `RaceRuns`, `RaceProgress`, `RaceSchedules`, `RaceTheorems`,
  `RaceStarvation`, `RaceFamilies`, `RaceConverse`, `RaceBlame`, `RaceState`, `Policies`). GetSCTs is a
  transition system with one step for each critical section of each goroutine; a statement about runs
  covers every interleaving. If no group is reported as failed, the returned SCTs satisfy the policy,
  for any policy. GetSCTs never gets stuck and returns after a bounded number of steps. No log is
  submitted to twice, nothing kept is overwritten, and a request is cancelled exactly when nobody awaits
  it any more. When the base group covers all logs and reserves a slot for every other need, no run
  keeps more SCTs than the base group asks for.
  - Do enough answers complete every group? Not for every policy: a dumped answer can be missing later.
    For every policy whose base group covers all logs it is decided exactly which ones allow that, by a
    condition on sets of logs; where it holds, a run over sessions as the races draw them ends with the
    base group blamed although enough logs answered. It becomes a comparison of sizes for two groups
    besides the base group; for disjoint groups and for Chrome's grouping it never holds.
  - Does a reported failure mean that the policy is not met? In runs without a deadline exactly when no
    log belongs to two groups that ask for something, or the policy cannot be met at all; for every
    other policy, and whatever sessions the races draw, a run is built that blames a group wrongly. With
    deadlines only the empty policy and those that cannot be met are safe: on any other a deadline can
    blame every group although all are complete.
  - The mutable object is a class whose methods compute the steps.
- **TLS codec** (`Tls`, `TlsRoundTrip`, `TlsCanonical`, `TlsSchemas`, `TlsCoder`, `TlsReference`). For
  every schema and value: Unmarshal undoes Marshal exactly on the values called faithful, whatever
  follows; what is read is written back to the same octets. The code reads a uint24 from the start of
  its buffer instead of the current offset, so both laws are stated against the reading that RFC 5246
  asks for and against the code, with the exact difference. A condition on the schema alone is given
  under which both laws hold for every value, and parsing terminates. A vector loop can run for ever; it
  is stated exactly for which elements and tags it does. A definition of the encoding that does not
  mention the encoder is given, and Marshal writes exactly that.
- **RFC 6962 structures** (`CtTypes`, `Serialization`, `Layouts`, `RawEntries`, `LeafLayouts`).
  Signature inputs, leaf hash inputs and chains octet by octet, with the exact condition for their
  existence; they are injective and the two kinds never collide; leaf hashes never start from equal
  octets for different leaves; raw log entries are accepted exactly when they are the encodings of what
  is returned.
- **DER codec** (`DerBase`, `DerIntegers`, `DerStrings`, `Der`, `DerRoundTrip`, `DerNormal`,
  `DerCanonical`, `DerWire`, `DerReference`, `DerReading`, `DerCoder`). Headers, base-128 numbers,
  INTEGER, OBJECT IDENTIFIER and BIT STRING each have a round trip and a canonicity statement with their
  exact conditions. For nested schemas every encoder writes exactly the octets it announces, and
  Unmarshal undoes Marshal exactly on the values whose tags, classes, lengths and numbers fit. Unmarshal
  is more tolerant than Marshal: it is stated exactly for which accepted inputs Marshal gives the input
  back, which of the values read can be written, and which of those come back from an encoding under
  2^31 octets: the ones whose tags both sides put in the same class. Both are also proved equal to
  definitions after ITU-T X.690 that mention neither encoder nor parser: which octets are the element of
  a value, and which inputs are read as it.
- **Log fetcher** (`FetchRuns`, `FetchLoops`). The generator and the workers are a transition system
  with short answers, failures, growing trees, Stop and cancellation. In every reachable state each
  entry is in exactly one place. Runs that end by themselves deliver everything up to the last tree head
  once, stopped runs an initial part of it, and runs that are not continuous end. A requested start is
  respected exactly when it is not beyond the tree or the fetcher is not continuous.
- **Chain pruning, certificate pool, temporal shards** (`Chains`, `CertPools`, `TemporalShards`).
  removeSuperChains returns exactly the prefix-minimal chains, and the pass stays within bounds because
  of the sort; the pool's two indexes, maps of slices with backing arrays, refine a plain list and a
  copy shares none of them; accepted shard configurations partition their span.

How the Go code appears here: reflection over struct types and tags becomes schema datatypes; maps
become `map`, goroutines become events, in-place updates become classes and arrays; network answers,
random draws and clocks become parameters or events. Loops of the source are methods, each proved equal
to a function or to a stated property. Errors are kept as values by kind; their texts are not.

Where code and documentation differ, the code is followed: `satisfyMinimalInclusion` asks for one
positive weight even when the minimum is zero; a private tag combined with `explicit` or `application`
is written and read with different classes; ENUMERATED is written from 64 bits and read into 32;
updateSTH promises an error only when the context is cancelled, but a failed request for a tree head
ends it, and with it a continuous fetch.

## Model

| member | source | states |
|---|---|---|
| Races.PositiveSumSplit | submission/races.go:128-133 | the total of the other groups' needs does not depend on the order in which the map is walked |
| Races.DecrementedSum | submission/races.go:111-133 | one answer lowers the total of positive needs by the number of groups it helps |
| RaceRuns.Run | submission/races.go:195-314 | every state reachable by any interleaving satisfies the invariant: thread and history consistency, books of every group, cancel functions, reports |
| RaceRuns.StepInv | submission/races.go:77-244 | every event of every goroutine keeps the invariant |
| RaceRuns.AnswerSettles | submission/races.go:103-158 | what one successful answer does to needs, results and cancel functions |
| RaceTheorems.NoErrorMeansPolicyMet | submission/races.go:287-314 | in every run, when no group is reported failed the returned SCTs hold at least the minimum from distinct logs of every group, each SCT as its log gave it |
| RaceTheorems.SubmittedOnce | submission/races.go:77-98 | across all races no log is submitted to twice |
| RaceTheorems.LaterKeeps | submission/races.go:103-141 | from any point of a run on, kept SCTs stay unchanged and needs only fall |
| RaceTheorems.NeverAwaitedAgain | submission/races.go:143-158 | a log that stops being awaited is never awaited again |
| RaceTheorems.CancelledExactlyWhenIdle | submission/races.go:143-158 | a request that was sent has been cancelled exactly when nobody awaits its log, and until then its cancel function is held |
| RaceTheorems.AnswerStored | submission/races.go:110-141 | an answer is stored exactly when another group wants it or an unreserved base slot is left |
| RaceTheorems.AnswerStoredElsewhere | submission/races.go:110-120 | outside the base group an answer is stored exactly when some group of its log has a need |
| RaceTheorems.RequestExactly | submission/races.go:77-98 | a caller is to submit exactly when it asks first and some group of the log has a need; a cancel function is held for submissions only |
| RaceProgress.NeverStuck | submission/races.go:195-314 | until GetSCTs has returned some goroutine, race or GetSCTs itself can move |
| RaceProgress.AlwaysReturns | submission/races.go:195-314 | a run has at most three moves for each goroutine, two for each race and one more, so GetSCTs returns |
| RaceTheorems.AnswerReserves | submission/races.go:122-141 | an answer keeps the reservation, and a dumped one leaves it tight |
| RaceTheorems.RunsReserve | submission/races.go:122-141 | the reservation holds in every reachable state |
| RaceTheorems.NeverOvercollects | submission/races.go:103-181 | base need covers the other needs, kept SCTs never exceed the base minimum, base completion implies completion of all groups |
| RaceStarvation.FirstDump | submission/races.go:110-141 | as long as all answers were kept, the next is dumped exactly when no other group wants it and all open base slots are reserved |
| RaceStarvation.RunTracked | submission/races.go:103-141 | in every run all answers are kept, or one was dumped after a set of kept answers that satisfies that condition |
| RaceStarvation.StarvingRun | submission/races.go:195-314 | every starving set of logs gives a run without a deadline, over sessions that list every log of their group once, in which exactly these logs answer and GetSCTs returns with only the base group blamed |
| RaceStarvation.CollectsExactly | submission/races.go:103-181 | for every policy whose base group covers all logs: enough answers complete every group in every run exactly when the policy is not starvable; and when it is, such a run over drawn sessions exists |
| RaceStarvation.CollectsExactlyEnough | submission/races.go:103-181 | when it is not and slots are reserved, exactly the base minimum is kept once there are enough answers |
| RaceFamilies.DisjointNeverStarves | submission/races.go:110-141 | policies whose groups with a positive minimum are disjoint are not starvable |
| RaceFamilies.TwoGroupsExactly | submission/races.go:110-141 | for two groups besides the base group: enough answers complete every group in every run exactly when a comparison of sizes holds, and a run over drawn sessions ends short exactly when it does not |
| RaceFamilies.TwoSinglesExactly | submission/races.go:110-141 | for two groups of minimum one: exactly when they share no log or at most the base minimum less two logs lie outside both, and otherwise a run over drawn sessions ends short |
| RaceFamilies.OverlapStarvesBase | submission/races.go:110-141 | a run of an overlapping policy over drawn sessions in which all logs answer, enough for every group, and GetSCTs blames the base group |
| RaceConverse.SeparateSound | submission/races.go:231-244 | if no log belongs to two groups that ask for something, then in every run without a deadline a blamed group is done and still short, and the outcome names no failed group exactly when the policy is met |
| RaceBlame.WronglyBlamed | submission/races.go:208-244 | for any drawn sessions of a policy that can be met and any group that shares a log with another, a run without a deadline that reports exactly this group as failed and returns SCTs that satisfy the policy |
| RaceBlame.DeadlineBlames | submission/races.go:287-314 | for any drawn sessions of a policy that can be met, a run with a deadline that reports every group as failed and returns SCTs that satisfy the policy |
| RaceBlame.TruthfulExactly | submission/races.go:287-314 | in every run without a deadline no group is named failed exactly when the policy is met, if and only if groups that ask for something share no log or the policy cannot be met; otherwise a run over drawn sessions misleads |
| RaceBlame.TruthfulWithDeadlines | submission/races.go:287-314 | over all runs, deadlines included, this holds if and only if the policy is empty or cannot be met |
| RaceState.SubmissionState.constructor | submission/races.go:63-73 | the initial state |
| RaceState.SubmissionState.Request | submission/races.go:77-98 | computes the request step on the shared object |
| RaceState.SubmissionState.IsAwaited | submission/races.go:85-91 | true exactly when some group of the log still has a need |
| RaceState.SubmissionState.OthersTotal | submission/races.go:128-133 | sums the positive needs of the other groups, in any map order |
| RaceState.SubmissionState.ServeOthers | submission/races.go:110-120 | the loop over the other groups, in any map order |
| RaceState.SubmissionState.CancelIdle | submission/races.go:143-157 | cancels exactly the requests of logs nobody awaits |
| RaceState.SubmissionState.SetResult | submission/races.go:103-158 | computes the answer step on the shared object |
| RaceState.SubmissionState.GroupComplete | submission/races.go:161-169 | completeness of a group |
| RaceState.SubmissionState.CollectSCTs | submission/races.go:171-181 | exactly the kept SCTs |
| Policies.WeightedRandomSample | ctpolicy/tools.go:26-45 | for every draw and map order: succeeds exactly when no weight is negative and one is positive, and picks the item on whose stretch of the total weight the draw falls |
| Policies.LogGroupInfo.SetMinInclusions | ctpolicy/ctpolicy.go:41-51 | the number is stored even when too big for the group, never when negative |
| Policies.LogGroupInfo.Populate | ctpolicy/ctpolicy.go:53-64 | members are exactly the logs of the included operators, each of weight one |
| Policies.LogGroupInfo.SatisfyMinimalInclusion | ctpolicy/ctpolicy.go:68-79 | true exactly when at least max(1, minimum) members have positive weight |
| Policies.LogGroupInfo.SetLogWeights | ctpolicy/ctpolicy.go:84-105 | replaces all weights and keeps the group valid, or changes nothing; exact condition |
| Policies.LogGroupInfo.SetLogWeight | ctpolicy/ctpolicy.go:110-129 | replaces one weight and keeps the group valid, or changes nothing; exact condition |
| Policies.LogGroupInfo.GetSubmissionSession | ctpolicy/ctpolicy.go:133-157 | for all draws a duplicate-free listing of exactly the logs of positive weight |
| Policies.NewGroup | ctpolicy/ctpolicy.go:188-193 | a valid group of the given logs, or an error exactly when it is too small |
| Policies.LifetimeExactly | ctpolicy/ctpolicy.go:195-206 | the lifetime is the greatest number of months after which the certificate is still valid, by year, month and day |
| Policies.RequiredExactly | ctpolicy/chromepolicy.go:42-52 | two SCTs, three from 15 months on, four from 28 and five from 40 |
| Policies.GoogleExactly | loglist3/loglist3.go:220-228 | Google-operated means that the list address stands in one of the operator's addresses |
| Policies.ChromeLogsByGroup | ctpolicy/chromepolicy.go:29-62 | the three named groups with minima 1, 1 and that number, or an error exactly when one is too small |
| Policies.ChromeMeetsHypotheses | ctpolicy/chromepolicy.go:29-62 | Chrome's grouping meets the hypotheses of every theorem on reservations, even when a log is listed by both kinds of operators |
| Policies.ChromeCollects | submission/races.go:103-181 | under Chrome's policy no run keeps too many SCTs, and once a Google log, another log and enough logs in all have answered, in any order, exactly the required number is kept and every group is complete |
| Policies.ReverseGroups | ctpolicy/ctpolicy.go:213-224 | the map from logs to the groups that hold them |
| Tls.ReadVarUint | tls/tls.go:294-309 | a length that is read is within the buffer and the declared bounds |
| Tls.ParseField | tls/tls.go:314-502 | reading never passes the end of the buffer |
| TlsRoundTrip.RoundTripExactly | tls/tls.go:314-711 | Unmarshal of Marshal(v) and any tail gives v and the tail exactly for faithful values; for any other value it never gives v |
| TlsCanonical.FieldRewrites | tls/tls.go:314-711 | what is read is typed, can be written and takes as many octets as were read |
| TlsCanonical.RfcCanonical | tls/tls.go:314-711 | under the reading of RFC 5246, Marshal of what was read, and the rest, are the input |
| TlsCanonical.CodeCanonicalExactly | tls/tls.go:335-341 | the code accepts the same inputs with the same rest, and agrees on the value exactly when the value is faithful for the code |
| TlsSchemas.RoundTrip | tls/tls.go:314-711 | for well-formed schemas with leading uint24 only, Unmarshal undoes Marshal for every value and tail |
| TlsSchemas.Canonical | tls/tls.go:314-711 | for schemas with leading uint24 only, Marshal undoes Unmarshal for every input |
| TlsSchemas.MarshalInjective | tls/tls.go:525-711 | two values of a well-formed schema never have the same encoding |
| TlsSchemas.FieldTerminates | tls/tls.go:314-502 | parsing of a well-formed schema never loops for ever |
| TlsSchemas.ItemsTerminate | tls/tls.go:487-496 | every turn of the vector loop moves forward when elements cannot be empty |
| TlsSchemas.NothingAnywhere | tls/tls.go:314-502 | a type is read from no octets at one place exactly when it is read so everywhere, with the same value |
| TlsSchemas.BlankDiverges | tls/tls.go:463-497 | a non-empty vector of elements that can be read from no octets is read for ever, whatever its octets |
| TlsSchemas.VectorTerminatesExactly | tls/tls.go:463-497 | a vector of elements that are read to an end is itself read to an end on every input exactly when its elements cannot be read from no octets or its tag admits only length zero |
| TlsSchemas.EmptyArraysDiverge | tls/tls.go:463-497 | a struct with a vector of empty arrays is read for ever on every input with a length other than zero |
| TlsSchemas.MisplacedUint24 | tls/tls.go:335-341 | after an octet, a uint24 comes back exactly when it repeats the first octets of the message |
| TlsSchemas.UntaggedEnum | tls/tls.go:294-297 | an enum without size is written exactly when it is zero, as nothing, and is never read from any input |
| TlsSchemas.WidthEight | tls/tls.go:277-290 | a length or enum of eight octets is refused on both sides |
| TlsReference.EncodedExactly | tls/tls.go:525-711 | against a definition after RFC 5246 without the encoder: Marshal succeeds exactly on the values that have an encoding, and writes it |
| TlsReference.PartsExactly | tls/tls.go:576-640 | structs: exactly one variant of every selector is set, the one that its value names; tags and pointers as required; parts in order |
| TlsReference.ReadIsEncoded | tls/tls.go:314-502 | whatever is read, as RFC 5246 reads it, is the encoding of what is returned |
| TlsReference.ReadExactly | tls/tls.go:314-502 | for well-formed schemas with leading uint24 only, the code reads a value exactly from the inputs that begin with its encoding |
| TlsCoder.ReadLength | tls/tls.go:294-309 | the accumulating loop computes the big-endian length with its checks |
| TlsCoder.ReadField | tls/tls.go:314-502 | the parser with its offsets computes the parse function |
| TlsCoder.ReadItems | tls/tls.go:487-497 | the vector loop |
| TlsCoder.ReadStruct | tls/tls.go:370-447 | the struct loop with its selector maps |
| TlsCoder.WriteField | tls/tls.go:525-711 | the writer with its buffer computes the marshalling function |
| TlsCoder.WriteItems | tls/tls.go:688-693 | the vector loop of the writer |
| TlsCoder.WriteStruct | tls/tls.go:576-647 | the struct loop of the writer with its selector maps |
| CtTypes.ChainsLawful | types.go:240-249 | the chain structures are well formed and have no uint24, so all codec laws apply |
| CtTypes.EntriesLawful | types.go:342-377 | likewise the entry, SCT input and Merkle leaf structures |
| CtTypes.TreeHeadLawful | types.go:321-327 | likewise the tree head input |
| CtTypes.ByteCountExactly | tls/tls.go:169-188 | the fewest octets that hold a number |
| Serialization.SctInputInjective | serialization.go:29-54 | equal SCT inputs come from equal timestamps, entry types, entries and extensions |
| Serialization.SthInputInjective | serialization.go:58-76 | equal STH inputs come from equal timestamps, sizes and roots |
| Serialization.DomainsSeparated | serialization.go:29-76 | no SCT input equals an STH input |
| Layouts.SctInputLayout | serialization.go:29-54 | for every version: the SCT input is version, type, time, entry type, framed entry and framed extensions, and exists exactly for version 1 with the entry present and lengths that fit |
| Layouts.SthInputLayout | serialization.go:58-76 | for every version: the STH input is version, type, time, size and root, and exists exactly for version 1 |
| LeafLayouts.LeafLayout | types.go:342-377 | a leaf is version, type, time, entry type, framed entry and framed extensions, and exists exactly when the version fits an octet and the entry has just the part of its type with lengths that fit |
| LeafLayouts.LeafPreimageLayout | serialization.go:199-208 | what is hashed is a zero octet and then those octets |
| LeafLayouts.ChainLayout | types.go:247-249 | a chain is its certificates with three octets of length each, after three octets for all |
| LeafLayouts.PrecertChainLayout | types.go:240-243 | the extra data of a precertificate is the framed precertificate and its chain |
| LeafLayouts.RawEntryOctets | serialization.go:223-259 | leaf and extra data are accepted with a given result exactly when they are those octets of it |
| RawEntries.LeafPreimageInjective | serialization.go:199-208 | different leaves never have the same hash input |
| RawEntries.RawLogEntryFromLeaf | serialization.go:223-259 | on success the dereferenced variant is present |
| RawEntries.LeafChosen | types.go:362-377 | a leaf that can be written is a timestamped entry with the variant of its type |
| RawEntries.RawEntryExactly | serialization.go:223-259 | leaf and extra data are accepted with a given result exactly when they are its encodings |
| DerBase.Base128RoundTrip | asn1/marshal.go:137-151 | a base-128 number is read back exactly when it has at most 31 bits, and larger ones are refused |
| DerBase.Base128Canonical | asn1/asn1.go:340-365 | what is read is written back in the same octets exactly when there was no leading zero digit |
| DerBase.LengthRoundTrip | asn1/marshal.go:187-229 | a length is read back exactly when it has at most 31 bits |
| DerBase.LengthCanonical | asn1/asn1.go:600-642 | accepted lengths have at most 31 bits and are in their one shortest form |
| DerBase.HeaderRoundTrip | asn1/marshal.go:206-229 | a header is read back exactly when tag and length have at most 31 bits, and refused otherwise |
| DerBase.HeaderCanonical | asn1/asn1.go:572-645 | an accepted header is written back in the same octets exactly when a long tag has no leading zero digit |
| DerIntegers.MinimalUnique | asn1/asn1.go:108-122 | a number has one encoding that passes the strict check |
| DerIntegers.MakeBigIntCorrect | asn1/marshal.go:153-185 | makeBigInt writes every number in two's complement and passes the strict check |
| DerIntegers.BigIntRoundTrip | asn1/marshal.go:153-185 | every number is read back, strictly or laxly |
| DerIntegers.BigIntCanonical | asn1/asn1.go:167-185 | accepted octets are written back unchanged exactly when they are minimal, so always when strict |
| DerIntegers.Int64Exactly | asn1/asn1.go:126-146 | up to eight octets parseInt64 and parseBigInt agree; minimal octets are refused exactly when the number needs more than 64 bits |
| DerIntegers.EncodersAgree | asn1/marshal.go:98-122 | int64Encoder writes the octets of makeBigInt |
| DerIntegers.Int64Length | asn1/marshal.go:100-114 | the length loops |
| DerIntegers.EncodeInt64 | asn1/marshal.go:116-122 | fills the front of the buffer with the number and leaves the rest |
| DerIntegers.ParseInt64 | asn1/asn1.go:126-146 | the loop of 64-bit shifts, up and down again, computes the two's complement value |
| DerIntegers.ParseBigInt | asn1/asn1.go:167-185 | inverting the octets of a negative number computes the two's complement value |
| DerStrings.OidRoundTrip | asn1/marshal.go:244-267 | an OID that can be written is read back exactly when no component is negative and every number has at most 31 bits |
| DerStrings.OidCanonical | asn1/asn1.go:287-326 | an accepted OID can be written, in the same octets exactly when no component had a leading zero digit |
| DerStrings.ParseOid | asn1/asn1.go:287-326 | there are never more components than octets plus one |
| DerStrings.BitsRoundTrip | asn1/marshal.go:231-242 | a bit string is read back exactly when octets and length match and the padding is zero |
| DerStrings.BitsCanonical | asn1/asn1.go:227-242 | accepted contents are the one encoding of what was read |
| Der.OutputLength | asn1/marshal.go:21-122 | every encoder writes exactly as many octets as Len announces |
| Der.BigIntOutput | asn1/marshal.go:153-185 | the encoder tree of makeBigInt writes padding and magnitude |
| Der.ParseField | asn1/asn1.go:765-1098 | parsing moves forward and stays in the buffer |
| DerRoundTrip.TagsBack | asn1/marshal.go:624-662 | the headers around contents are read back exactly when the tag, its class and the lengths are faithful, and refused otherwise |
| DerRoundTrip.CountBack | asn1/asn1.go:657-687 | the counting pass finds exactly the elements written |
| DerRoundTrip.RoundTripExactly | asn1/marshal.go:417-691 | Unmarshal of Marshal(v) and any tail gives v and the tail exactly on faithful values, for encodings whose size is a Go int |
| DerRoundTrip.MarshalInjective | asn1/marshal.go:532-664 | two faithful values never have the same encoding |
| DerRoundTrip.NotSymmetric | asn1/asn1.go:830-846 | a private explicit tag and an enumerated number beyond 32 bits are written and not read back |
| DerNormal.Normalizes | asn1/asn1.go:765-1098 | what Unmarshal returns is typed; it can be marshalled exactly when sets and object identifiers allow it; reading its encoding under 2^31 octets gives it again exactly when both sides agree on the tags it uses |
| DerCanonical.TagsCanonical | asn1/asn1.go:830-960 | the headers of an accepted element are written back exactly when their tag numbers have no leading zero digit, the class is the one written and an explicit tag covers just its element |
| DerCanonical.CanonicalExactly | asn1/asn1.go:765-1098 | Marshal gives an accepted input back exactly when the input is tidy: headers as above, minimal integers, no leading zero digits in object identifiers, no octets left in sequences |
| DerWire.IdentifierExactly | asn1/marshal.go:206-217 | the identifier octets written are the only ones that section 8.1.2 of ITU-T X.690 allows, for every tag number |
| DerWire.LengthExactly | asn1/marshal.go:187-229 | the length octets written are the only ones that sections 8.1.3 and 10.1 allow, for every length |
| DerWire.FramedExactly | asn1/marshal.go:532-664 | the headers written are the only ones that the standard allows: the identifier octet of the type, given as a table of octets, or a tag of class application, context or private; explicit tags in front |
| DerWire.ElementWire | asn1/marshal.go:532-664 | every element is contents framed so |
| DerReference.ElementExactly | asn1/marshal.go:423-664 | against a definition after ITU-T X.690 without the encoder: Marshal succeeds exactly on the values that have an element, and writes it |
| DerReference.FieldsExactly | asn1/marshal.go:443-490 | a struct is written as the elements of its fields, in order |
| DerReference.ItemsExactly | asn1/marshal.go:491-515 | a slice is written as its elements, in order |
| DerReference.OidExactly | asn1/marshal.go:246-267 | arcs are packed and written as the standard says, and refused exactly when the first two are out of range |
| DerReading.IntegerRead | asn1/asn1.go:108-185 | an INTEGER is read from its shortest form, and when lax also after superfluous sign octets; limits of 32 and 64 bits |
| DerReading.OidRead | asn1/asn1.go:287-326 | which octets are read as which object identifier |
| DerReading.HeaderRead | asn1/asn1.go:572-645 | which octets are read as which identifier and length |
| DerReading.TagsRead | asn1/asn1.go:829-940 | exactly which headers are accepted before the contents of a type |
| DerReading.ContentRead | asn1/asn1.go:940-1098 | for primitive types exactly which contents are accepted, as which value |
| DerReading.UnmarshalExactly | asn1/asn1.go:765-1098 | for all types: Unmarshal accepts exactly the inputs that begin with an element as defined from those parts, returns its value and leaves the rest |
| DerCoder.Base128IntLength | asn1/marshal.go:124-135 | the length loop |
| DerCoder.AppendBase128Int | asn1/marshal.go:137-151 | the digit loop appends the base-128 form |
| DerCoder.ParseBase128Int | asn1/asn1.go:340-365 | the parsing loop |
| DerCoder.AppendTagAndLength | asn1/marshal.go:187-229 | header and length loops append the header |
| DerCoder.ParseTagAndLength | asn1/asn1.go:572-645 | the header parser |
| DerCoder.ParseObjectIdentifier | asn1/asn1.go:287-326 | the loop stays within its array and computes the OID |
| DerCoder.Encode | asn1/marshal.go:21-122 | an encoder fills exactly its Len octets of the shared buffer and touches nothing else |
| DerCoder.MarshalInto | asn1/marshal.go:683-691 | a buffer of the announced length is filled completely |
| DerCoder.ParseSequenceOf | asn1/asn1.go:650-698 | the two passes compute the list of elements |
| FetchRuns.Run | scanner/fetcher.go:133-301 | in every reachable state every entry is delivered, held, given up or not yet generated, exactly one of these |
| FetchRuns.StepConserved | scanner/fetcher.go:180-301 | every event keeps that account for every entry |
| FetchRuns.AtMostOnce | scanner/fetcher.go:263-301 | no entry is delivered twice or outside the range, even when cancelled |
| FetchRuns.StoppedPrefix | scanner/fetcher.go:168-214 | when the workers have returned without cancellation, the delivered entries are exactly those up to the generator's position |
| FetchRuns.CompleteRun | scanner/fetcher.go:133-214 | a run that ends without being stopped delivers exactly the entries up to the last tree head, each once, and these are the requested range unless it is continuous |
| FetchRuns.StoppedExactly | scanner/fetcher.go:168-175 | a run is stopped exactly when Stop was called or the context cancelled |
| FetchRuns.NotStuck | scanner/fetcher.go:180-301 | until all workers have returned some productive step is possible |
| FetchRuns.Terminates | scanner/fetcher.go:190-301 | a run that is not continuous has a bounded number of productive steps |
| FetchRuns.NeverBehindExactly | scanner/fetcher.go:188-210 | no entry before the requested start is delivered exactly when the start is not beyond the end or the fetcher is not continuous |
| FetchRuns.FallsBack | scanner/fetcher.go:188-210 | a run that delivers an entry before the start otherwise |
| FetchLoops.Fetcher.Prepare | scanner/fetcher.go:110-128 | only the first tree head is used; an end that is zero or beyond the tree becomes its size, any other is kept |
| FetchLoops.Fetcher.UpdateSTH | scanner/fetcher.go:222-257 | takes the first tree head that is bigger, and by a batch in the quick phase, unless a failed request comes before it; then nothing changes |
| FetchLoops.GenRanges | scanner/fetcher.go:180-214 | ranges sent and range left tile the whole, with no range over a batch; with a worker that fetches at once they are what a run of the transition system delivers |
| FetchLoops.RunWorker | scanner/fetcher.go:263-301 | the callback gets the range up to the answered amount, each entry once, however the answers are cut; the loop is a sequence of steps of the transition system |
| Chains.Less | fixchain/fixer.go:134-143 | the lexicographic order of chains |
| Chains.BytesLessExactly | fixchain/fixer.go:134-143 | certificates are compared at their first difference |
| Chains.ChainLessExactly | fixchain/fixer.go:134-143 | and chains at the first certificate in which they differ |
| Chains.Between | fixchain/fixer.go:179-186 | whatever sorts between a chain and its extension extends it |
| Chains.NotShorter | fixchain/fixer.go:197-206 | the pass never reads past the end of the later chain |
| Chains.PrunesExactly | fixchain/fixer.go:152-178 | what remains is exactly the chains that extend no other |
| Chains.Prune | fixchain/fixer.go:187-210 | the pass returns an antichain of input chains that covers the input |
| Chains.Sort | fixchain/fixer.go:185-186 | a sorted permutation, by Less and Swap |
| Chains.RemoveSuperChains | fixchain/fixer.go:179-211 | the prefix-minimal chains of the input, each once; the argument is left sorted |
| CertPools.PositionsExactly | x509/cert_pool.go:100-120 | an index lists exactly the positions with a key, in increasing order |
| CertPools.StoredIsScanned | x509/cert_pool.go:85-98 | for parsed certificates the look-up by subject agrees with a linear scan |
| CertPools.PotentialExactly | x509/cert_pool.go:70-83 | candidate parents are exactly those with the wanted key identifier, or by name when there is none |
| CertPools.CertPool.Contains | x509/cert_pool.go:85-98 | true exactly when an equal certificate is stored under the subject |
| CertPools.CertPool.AddCert | x509/cert_pool.go:100-120 | appends the certificate unless stored and keeps both indexes right |
| CertPools.CertPool.FindPotentialParents | x509/cert_pool.go:70-83 | the candidates, from the indexes |
| CertPools.StoredOnce | x509/cert_pool.go:100-110 | no two stored certificates are equal, when encodings determine subjects |
| CertPools.KeyIndex.Append | x509/cert_pool.go:114-119 | append to the slice of a key, in place or into a bigger backing array, changes that key only |
| CertPools.KeyIndex.Copy | x509/cert_pool.go:34-43 | the same slices in backing arrays of their own |
| CertPools.CertPool.Copy | x509/cert_pool.go:28-46 | a new pool with the same list and right indexes that shares no map and no backing array |
| CertPools.CopyThenAdd | x509/cert_pool.go:28-46 | however additions to a pool and to a copy of it alternate, each ends with its own additions only |
| TemporalShards.ShardExactly | client/multilog.go:202-223 | a shard is refused exactly when a stamp is malformed or the start is not before the limit; otherwise its interval holds exactly the dates from the start on and before the limit |
| TemporalShards.BuildIntervals | client/multilog.go:81-108 | accepts exactly the non-empty configurations of such shards in which each start is the limit before it |
| TemporalShards.Monotone | client/multilog.go:189-200 | later dates are in the same shard or a later one, and no date is in two |
| TemporalShards.SpanExactly | client/multilog.go:86-108 | a date is in some shard exactly when it is in the span of the log |
| TemporalShards.IndexByDate | client/multilog.go:189-200 | finds the only shard whose stamps cover the date, and one exactly between the first start and the last limit |

## Left out

- Timers, post intervals and parallelNums of the races: they only choose among the interleavings, all of which are covered. A race whose group is complete may report before any of its own goroutines is done, which changes nothing in what it reports.
- RaceStarvation.CollectsExactly: asks that the base group covers all logs, as every policy of the repository does.
- Rounding of float32 weights: weights are reals, and a draw is any number in [0, 1).
- RaceState.SubmissionState.constructor: takes the policy as a value, with groups named by their keys.
- TlsSchemas.RoundTrip: its condition on the schema is sufficient; which values of any schema survive is stated exactly by RoundTripExactly.
- TlsSchemas.FieldTerminates: its condition on the schema is sufficient; for one vector VectorTerminatesExactly is exact. Whether a bad vector deep in a schema can be reached depends on the selectors and lengths around it.
- TLS: a size above eight on a byte-slice variant panics in Go and is an error here; nil and empty slices are one value; parsing of tag strings is represented by its result.
- DerRoundTrip.RoundTripExactly: assumes that an encoding has fewer than 2^63 octets, the range of a Go int; so do ElementWire, DerReference.ElementExactly and CanonicalExactly of their octets.
- ASN.1 strings, times, ANY, RawValue, RawContent, Flag, OPTIONAL and DEFAULT, nil big integers, int8 and int16, negative tag numbers: library-dependent, or they would only add further cases of the same laws.
- Texts of errors and field names in errors.
- FetchRuns.CompleteRun: answers longer than the request are excluded, as section 4.6 of RFC 6962 demands of logs; a negative BatchSize and 64-bit overflow of indices are not modelled.
- FetchRuns.Terminates: counts productive steps; that time passes and that requests succeed at last is not modelled.
- Chains.Sort: the sort of the Go library is replaced by insertion with the same Less and Swap; nil certificates are not modelled.
- CertPools.CertPool.AddCert: the list of certificates is a value; backing arrays are modelled for the indexes.
- Cryptography, HTTP, JSON, protobuf, log lists, X.509 parsing and verification, CRLs, root stores: plumbing or foreign calls.
