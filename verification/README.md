# Camblet verification

Camblet identifies processes by labels. An agent compiles policy files into label maps for a
kernel module, keeps a registry of service addresses, answers the kernel's questions about a
process's labels from a cache, issues certificates from a CA bundle, and streams traces to
clients. This project models the parts of that agent where a wrong step would be hard to see
from one function, and proves what they keep over all inputs, all map iteration orders and all
runs. `dafny verify dfyconfig.toml` checks everything.

The shape of each module follows the source. Loops over slices and maps are methods with
invariants; `Policy`, `Registry`/`Service`, `CA` and `AugmentCommand` are classes whose methods
change their fields; the odometer and the policy sort work in place on arrays. Each such method
is proved equal to (or related to) a function on values, and the theorems are lemmas about that
function. A Go `range` over a map picks an arbitrary remaining key, so every result about such a
loop holds for all orders (`Common.IsOrder`).

| modules | what they model |
|---|---|
| `StructValues`, `MixedRadix`, `Selectors`, `CrossProduct`, `Conversion`, `Extension` | a raw selector (an AND over fields of an OR over nested lists) becomes a list of label maps by an odometer over all combinations; meaning is preserved, map order does not matter, and what one field more does to the ranking |
| `PolicyOrder`, `OrderTheorems`, `OrganizeSpec`, `SecondRun`, `Counterexamples`, `Policies`, `PolicyLoader` | the "more specific first" comparator, the stable sort, and `Organize` on the heap tree of policies, at every egress depth; running it twice; loading all files |
| `GeneratePolicy` | a policy generated from a process's labels matches that process |
| `X509`, `Authority`, `Loading`, `Issuing`, `Bundles` | PEM bundles, loading a CA, issuing, and any number of `create-intermediate` runs; path validation after section 6.1 of RFC 5280 |
| `Addresses`, `AddressReader`, `Services`, `ServiceLoader`, `FileContents` | printed address keys, the in-place registry merge, loading all files |
| `ContextKey`, `AugmentCache` | the printed cache key and the TTL cache in front of the metadata collector |
| `Trace` | any interleaving of trace sessions on the event bus |

What was found to fail, and exactly when it does not:

- Sorting does not always put more specific policies first (`OrderTheorems.OrderCanFail`), and
  the comparator is not even asymmetric (`AsymmetryCanFail`). It does so for every list short
  enough to be sorted by insertion, and for every arrangement, exactly when the comparator is a
  weak order on the policies (`ShortListsOrderedIff`, `OrderedIffWeakOrder`); for lists of any
  length and any sort that meets what the standard library promises, likewise (`LikeGoOrdersIff`).
  `Counterexamples` shows policy files on which it goes wrong.
- `Organize` runs once in the loader and again in the agent, and the second run can change the
  order (`SecondRun.SecondRunCanChange`). It leaves all short lists alone exactly when no two
  different policies are each less than the other (`ShortListsStayIff`).
- A field more does not always make a policy rank first. With '='-free keys before, it does, and
  never the reverse, exactly when some label of the new field is not one that another field
  always demands (`Extension.ExtensionComesFirstIff`); `ExtensionComesFirstExactly` says when for
  all keys, and `EqualsSignHidesExtension` shows a field that says nothing.
- A bundle can load and still issue nothing that verifies (`Bundles.LoadableButUseless`), and a
  root that is asked for a leaf in its own name and with its own key issues one that never does
  (`RootCannotIssueToItself`). A leaf verifies exactly when it is valid and a search from one of
  the authority's certificates reaches the anchor with room for the leaf below it
  (`LeafVerifiesIff`); without path length limits and for a stranger's request, exactly when such
  a certificate verifies itself (`LeafVerifiesIffSignerDoes`).
- Two addresses share a service key exactly when a zone ends in what reads like a port
  (`Addresses.KeysCollideIff`, `ZonesCollide`); zone-free addresses never do. One of the two has no
  port then, so it takes a loader without validation: the agent's own demands a port from 1 to
  65535, and with ports keys tell all addresses apart (`PortsTellApart`).
- Two commands can share a cache key. A context has its key to itself among all contexts exactly
  when its command name and path contain no '-', its user ID is not negative, and no '-' in its
  cgroup path is followed by what reads as IDs (`ContextKey.OwnsKeyIff`); among the commands of
  its cgroup, exactly when name and path contain no '-' (`OwnsKeyInCgroupIff`).
- The cached augment handler answers as the uncached one would, under every timing and however
  expired items are removed in between, exactly when what the collector finds depends only on
  the key (`AugmentCache.RefinesIffKeyDetermined`).
- An answer of the augment handler is never older than the lifetime of a cache item exactly when
  hits do not renew items (`AugmentCache.AnswersAreFreshIff`). The cache library renews by default,
  and then an answer may be any number of lifetimes old (`RenewalKeepsOldAnswers`); what is bounded
  is the time since the key was last asked for (`HitsFollowClosely`).

## Model

| member | source | states |
|---|---|---|
| StructValues.RoundIsNearest | internal/policy/convert.go:72 | the number printed for a leaf is a nearest integer, and on a tie the even one; no other integer is either |
| StructValues.WholeNumbersPrint | internal/policy/convert.go:72 | a whole number is printed as itself |
| StructValues.PrintsNearest | internal/policy/convert.go:72 | the text of any number reads as a nearest integer, on a tie as the even one, and starts with '-' iff the number is negative |
| StructValues.LeavesAreTheLeaves | internal/policy/convert.go:67-82 | a text is collected exactly if it is the text of a number or string at some depth of list nesting; bool, null and struct values give nothing |
| StructValues.LeavesInOrder | internal/policy/convert.go:67-82 | a number or text has one leaf, bool, null and struct values none, and lists are read from left to right with repetitions |
| StructValues.GetValueForKind | internal/policy/convert.go:67-82 | the recursive loop returns those leaves, in order and with repetitions |
| MixedRadix.DigitsOfEval | internal/policy/convert.go:103-137 | every valid odometer position is reached, after as many steps as its mixed-radix value |
| MixedRadix.EvalOfDigits | internal/policy/convert.go:103-137 | the step count is recovered from the position, so no position comes up twice |
| MixedRadix.Step | internal/policy/convert.go:120-133 | advancing the last wheel that can turn and resetting those after it adds exactly one to the reading |
| MixedRadix.LastPosition | internal/policy/convert.go:125-127 | the odometer stops exactly when it has counted the whole product |
| Selectors.RowsAreTheChoices | internal/policy/convert.go:103-137 | the rows are exactly the ways of taking one entry from every array; with no arrays, the one empty row |
| Selectors.RowPositionsDistinct | internal/policy/convert.go:103-137 | two different rows stand on different index tuples |
| Selectors.CurrentRow | internal/policy/convert.go:113-117 | one entry from every array, at the odometer's position |
| Selectors.Advance | internal/policy/convert.go:120-133 | one in-place step of `indicies`: the reading grows by one, or it was the last |
| Selectors.MakeArrayPermutations | internal/policy/convert.go:103-137 | the loop ends after product-of-the-lengths rows; row k is the mixed-radix expansion of k, last array least significant |
| Selectors.ConvertStringArraysSelectorsToMap | internal/policy/convert.go:139-153 | each row becomes the map of its entries to true, in row order |
| Selectors.FlattenAndStringifySelectors | internal/policy/convert.go:84-101 | for the field order it happened to meet, one non-empty list of "key=leaf" per field with a leaf, and none for the others |
| Selectors.ConvertSelectors | internal/policy/convert.go:54-56 | flatten, permute, convert, under some field order |
| Selectors.ExpandPreservesMeaning | internal/policy/convert.go:54-56 | some map of the result is contained in a label set iff every field with a leaf has a leaf v with "key=v" among the labels, for every field order |
| CrossProduct.CrossIsTheRows | internal/policy/convert.go:103-153 | the odometer's rows, made maps, are the fold that extends every map by every entry of one more factor |
| CrossProduct.CrossPermuted | internal/policy/convert.go:103-153 | permuting the factors permutes the maps and changes nothing else |
| CrossProduct.ExpandIgnoresOrder | internal/policy/convert.go:84-153 | any two visiting orders of a selector's fields give the same multiset of label maps |
| Conversion.ConversionPreservesMeaning | internal/policy/convert.go:38-40 | a converted policy matches a label set iff one of its raw selectors does |
| Conversion.ConvertsToBag | internal/policy/convert.go:30-52 | a converted policy tree has the shape and data of the raw one and, whatever the field orders, the same multisets of label maps at every depth |
| Conversion.DataAlongPath | internal/policy/convert.go:30-52 | along every egress path a converted policy exists iff the raw one does, and has its certificate, its connection and the ID of its certificate |
| Conversion.LoadHandsOnAll | internal/policy/file_loader.go:73-94 | whatever the file and field orders and whatever the sort makes of the comparator, the policies handed on are all policies of the files, as multisets at every depth |
| Conversion.LoadBagMember | internal/policy/file_loader.go:96-127 | and these are the valid entries of the files that are lists, no others |
| Conversion.LoadIgnoresOrder | internal/policy/file_loader.go:73-94 | two loads of the same files hand on the same multiset of policies at every depth |
| Extension.MapOfExtension | internal/policy/convert.go:84-153 | a label map of a selector with one field more is one of the old maps, with one label of the new field if that has any |
| Extension.ExtensionIsAboveIff | internal/policy/policy.go:54-68 | for all keys, the comparator ranks the extended policy first iff some label of the new field is new, or the policy has a map above another of its own |
| Extension.ExtensionIsBelowIff | internal/policy/policy.go:54-68 | for all keys, it ranks the old policy first iff one of its maps is above another even with a label of the new field added |
| Extension.ExtensionComesFirstExactly | internal/policy/policy.go:54-68 | for all keys, the exact condition for first and never the reverse, in terms of the policy without the field |
| Extension.PlainKeysAreIncomparable | internal/policy/convert.go:84-153 | the maps of a selector with '='-free keys never contain one another |
| Extension.ExtensionComesFirstIff | internal/policy/policy.go:54-68 | with '='-free keys before, and any new key: first and never the reverse iff some label of the new field is not the only label of another field |
| Extension.ExtensionComesFirst | internal/policy/policy.go:54-68 | in particular whenever the new field has a leaf and its key contains no '=' either |
| Extension.NothingNewMatchesTheSame | internal/policy/convert.go:84-153 | a field without a new label changes no match |
| Extension.EqualsSignHidesExtension | internal/policy/convert.go:92 | with '=' in a key, a field that prints another's label: the comparator does not rank the policy first, and no match changes |
| PolicyOrder.SubsetIsSmaller | internal/policy/policy.go:78-81 | a contained map is never larger, so the length exit rejects no subset |
| PolicyOrder.MutualSubset | internal/policy/policy.go:78-90 | mutual inclusion is equality |
| PolicyOrder.IsMapSubset | internal/policy/policy.go:78-90 | true iff every entry of the second map is in the first with the same value, early exits included |
| PolicyOrder.Less | internal/policy/policy.go:54-68 | the comparator holds iff some selector of the first policy is a proper superset of some selector of the second |
| PolicyOrder.SingleSelectorsAreStrictlyOrdered | internal/policy/policy.go:54-68 | on single-selector policies the comparator is proper superset: irreflexive, asymmetric, transitive |
| PolicyOrder.SortOrders | internal/policy/policy.go:54-68 | under a weak order the sort puts no policy before a strictly more specific one |
| OrderTheorems.OrderedIffWeakOrder | internal/policy/policy.go:53-68 | it does so for every arrangement of the policies iff the comparator is a weak order on them |
| OrderTheorems.ShortListsOrderedIff | internal/policy/policy.go:53-68 | every list of at most 20 of the policies, which Go sorts by insertion, comes out in order iff the comparator is a weak order on all of them |
| OrderTheorems.InsertionSortsLikeGo | internal/policy/policy.go:54-68 | the insertion sort meets what is used of `sort.SliceStable`: insertion up to 20 elements, ordered and stable where the comparator is a weak order |
| OrderTheorems.LikeGoOrdersIff | internal/policy/policy.go:53-68 | by any sort that meets it, lists of any length of the policies come out in order iff the comparator is a weak order on them |
| OrderTheorems.NestedSelectorsAreWeaklyOrdered | internal/policy/policy.go:53-68 | single-selector policies with pairwise nested or equal maps meet that condition |
| OrderTheorems.OrderCanFail | internal/policy/policy.go:53-68 | three single-selector policies that stay in the wrong order |
| OrderTheorems.AsymmetryCanFail | internal/policy/policy.go:54-68 | two two-selector policies that are each less than the other |
| OrderTheorems.SortIsStable | internal/policy/policy.go:54-68 | policies tied with any given one keep their order |
| OrderTheorems.StableSortIsUnique | internal/policy/policy.go:54-68 | an ordered, stable permutation is determined, so the choice of stable sort is immaterial |
| OrganizeSpec.OrganizeRearranges | internal/policy/policy.go:53-76 | with no assumption on the comparator, every sibling list at every depth is permuted, Positions become 0..n-1 and nothing else changes |
| OrganizeSpec.OrganizedPositions | internal/policy/policy.go:70-75 | at every depth the Position of each policy is its index |
| OrganizeSpec.OrganizeOrders | internal/policy/policy.go:53-76 | where the comparator is a weak order on every sibling list, each list is also ordered and stable, at every depth |
| OrganizeSpec.OrganizeIsDetermined | internal/policy/policy.go:53-76 | that promise has exactly one outcome, whichever stable sort is used |
| SecondRun.SecondRunChangesNothing | internal/cli/cmd/agent/agent.go:257 | organizing organized policies again, by any stable sort, changes neither order nor Position at any depth |
| SecondRun.ShortListsStayIff | internal/cli/cmd/agent/agent.go:257 | sorting the lists of at most 20 of the policies a second time changes none of them iff no two different policies are each less than the other |
| SecondRun.LikeGoStays | internal/cli/cmd/agent/agent.go:257 | by any such sort, and for any length, a second sort changes no list only if there are no such pairs, and changes none under a weak order |
| SecondRun.MutualPairsSwap | internal/policy/policy.go:54-68 | two policies that are each less than the other change places in every run |
| SecondRun.MutualPairIsReported | internal/cli/cmd/agent/agent.go:257 | so the loader hands on one order and the agent reports the other |
| SecondRun.SecondRunCanChange | internal/cli/cmd/agent/agent.go:257 | two such policies |
| Counterexamples.TextFieldConverts | internal/policy/convert.go:84-153 | a further field with one text adds its "key=value" to the one map of a selector |
| Counterexamples.OnlyConversion | internal/policy/convert.go:84-153 | a selector that converts to one map converts to nothing else |
| Counterexamples.LoadedOutOfOrder | internal/policy/file_loader.go:73-94 | three raw policies whose every conversion stays in the wrong order |
| Counterexamples.ReportedInOtherOrder | internal/policy/file_loader.go:90 | two raw policies whose every conversion the loader hands on in one order and the agent reports in the other |
| SecondRun.OrganizeIsIdempotent | internal/cli/cmd/agent/agent.go:257 | without such pairs among siblings, and without a weak order, a second run changes nothing at any depth |
| SecondRun.SingleSelectorsHaveNoMutualPairs | internal/policy/policy.go:54-68 | single-selector policies have no such pairs |
| OrganizeSpec.RearrangingKeepsBags | internal/policy/policy.go:53-76 | no policy, selector or egress policy is lost or gained at any depth |
| Policies.Policy.constructor | internal/policy/policy.go:43-51 | a new policy over egress policies that share no object, at position 0 |
| Policies.InsertAt | internal/policy/policy.go:54-68 | in place, one policy moves left past neighbours it is less than and no further; the siblings' trees stay intact |
| Policies.SortStable | internal/policy/policy.go:54-68 | the in-place sort leaves the same policy objects, in the order the sort on values gives |
| Policies.Settle | internal/policy/policy.go:70-75 | one policy gets its index as Position and its egress is organized, through the pointer, changing only its own objects |
| Policies.SettleAll | internal/policy/policy.go:70-75 | the loop settles every sibling and disturbs none of the others |
| Policies.Organize | internal/policy/policy.go:53-76 | on the heap tree: the list is a permutation of the same objects, their trees are the organized old trees, and at every depth the Position field of each object is its index |
| PolicyLoader.ConvertSelectorList | internal/policy/convert.go:38-40 | the appended selectors match exactly when some raw selector does |
| PolicyLoader.ConvertPolicy | internal/policy/convert.go:30-43 | a fresh tree of policy objects, no object shared, that converts the raw tree; certificate and connection copied, the ID that of the certificate |
| PolicyLoader.ConvertPolicies | internal/policy/convert.go:45-52 | the same for a list, in order |
| PolicyLoader.Unmarshal | internal/policy/file_loader.go:96-127 | an error exactly for a file that is not a list; otherwise the valid entries, converted, in order |
| PolicyLoader.Collect | internal/policy/file_loader.go:74-88 | every file is visited once in some order; bad files are skipped, the others' policies appended |
| PolicyLoader.Run | internal/policy/file_loader.go:73-94 | what is handed on is the collected policies organized: all policies of the files, as multisets, whatever order was met |
| FileContents.Decode | internal/policy/file_loader.go:102-124 | the valid entries in order; an invalid one is skipped alone |
| FileContents.KeptInOrder | internal/policy/file_loader.go:102-124 | a valid entry is kept once, where it stands between those before and after it; an invalid one leaves nothing |
| GeneratePolicy.MatchLabel | internal/cli/cmd/agent/generate_policy.go:176-187 | true iff some pattern equals the name or ends in '*' and its rest is a prefix of the name |
| GeneratePolicy.StarAcceptsContinuations | internal/cli/cmd/agent/generate_policy.go:176-187 | a pattern with a star accepts exactly the continuations of what stands before it, any other itself alone |
| GeneratePolicy.Generate | internal/cli/cmd/agent/generate_policy.go:149-159 | an error iff no label name is accepted; otherwise each accepted name with its last value |
| GeneratePolicy.FieldsAreLabels | internal/cli/cmd/agent/generate_policy.go:149-155 | the fields are exactly the accepted names, each with the value of one of the labels |
| GeneratePolicy.LastValueCounts | internal/cli/cmd/agent/generate_policy.go:149-155 | of a repeated accepted name the last value is taken |
| GeneratePolicy.AugmentLabelsAre | pkg/agent/commands/augment.go:86-93 | the labels reported are exactly "name=value" of the collected ones, each true |
| GeneratePolicy.GeneratedMatchesItself | internal/cli/cmd/agent/generate_policy.go:149-155 | the generated selector asks only for labels the process has |
| GeneratePolicy.GeneratedPolicyMatchesItsProcess | pkg/agent/commands/augment.go:86-93 | converting it gives exactly one map, contained in the augment labels of the same label list, repeated names included |
| X509.SearchFindsChain | pkg/tls/authority.go:213-218 | what the search accepts has a chain to the anchor in which no two certificates have the same name, key and alternative names |
| X509.ChainIsFound | pkg/tls/authority.go:213-218 | the search, which never takes an entity twice, misses no such chain |
| X509.SearchDecides | pkg/tls/authority.go:213-218 | the search accepts exactly the certificates that have such a chain |
| X509.ChainIff | pkg/tls/authority.go:213-218 | a chain, place by place: validity, server use, path length, issuer name, signing key, authority, pool, anchor |
| X509.Splice | pkg/tls/authority.go:213-218 | between two certificates of one entity a chain can be cut out and stays a chain |
| X509.VerifiesIffChain | pkg/tls/authority.go:213-218 | so a certificate verifies iff some chain of signatures leads from it to the anchor past none of its own twins, whatever other entities repeat |
| Authority.ParsePEMs | pkg/tls/parser.go:263-291 | all blocks are read in order; an error is reported iff some block does not parse, and only that one is skipped |
| Loading.ParsedOne | pkg/tls/parser.go:293-326 | a block of a known kind with a supported key is read as what it holds, any other as nothing |
| Loading.ParsedAppend | pkg/tls/parser.go:263-291 | blocks are read independently and in order |
| Authority.CreateCACertificate | pkg/tls/util.go:49-106 | self-issued under its own new key without a parent, issued by the parent's name and the given key otherwise, an authority for the given time or ten years; fails iff the parent's key is not the given one |
| Authority.CA.GetIntermediates | pkg/tls/authority.go:135-145 | the intermediates of the bundle, in bundle order |
| Authority.CA.GetTrustAnchor | pkg/tls/authority.go:147-155 | the first root of the bundle, or none |
| Authority.CA.Init | pkg/tls/authority.go:157-221 | the three fields of the state and each error case are those of loading the bundle: first key, first CA certificate, key match, anchor, verification, in this order |
| Loading.LoadsOrIsRefusedIff | pkg/tls/authority.go:157-221 | over the blocks of any bundle: it loads iff all parse, the earliest private key is that of the earliest authority, and that one verifies to the earliest root through the other authorities; and the exact condition of each error |
| Loading.DecidedByVerification | pkg/tls/authority.go:170-218 | and it loads as that key, that authority, and all certificates in their order |
| Authority.CA.SignCertificateRequest | pkg/tls/authority.go:92-125 | a leaf with the request's names and key, signed by the loaded key in the signing certificate's name, no authority, for the given time or one day; and the intermediates |
| Authority.CA.CreateIntermediate | pkg/tls/authority.go:127-133 | a CA certificate over a new RSA key issued by the signing certificate, its key, and the intermediates |
| Authority.NewCertificateAuthority | pkg/tls/authority.go:72-90 | an error without a bundle; otherwise the loaded authority or the loading error |
| Issuing.RootSignerIsTheAnchor | pkg/tls/authority.go:147-155 | if the signing certificate is a root, it is the trust anchor itself |
| Issuing.SignerIsReachable | pkg/tls/authority.go:181-218 | in every loaded authority the signing certificate carries the key, verifies, and is the anchor or among the returned intermediates |
| Issuing.IntermediatesAppend | pkg/tls/authority.go:135-145 | intermediates are taken one by one in bundle order |
| Issuing.LeafVerifiesIff | pkg/tls/authority.go:92-125 | a leaf verifies to the trust anchor through the returned chain alone iff it is valid and a search from a certificate with the authority's name and key, which may sign, reaches the anchor with room for the leaf below |
| Issuing.LeafVerifiesIffSignerDoes | pkg/tls/authority.go:92-125 | without path length limits and for a request that is none of the authorities': iff it is valid and such a certificate verifies itself |
| Bundles.OwnNameNeverVerifies | pkg/tls/authority.go:92-125 | a request with the name, key and alternative names of all that may issue gets a leaf that never verifies |
| Bundles.RootCannotIssueToItself | pkg/tls/authority.go:92-125 | for a bundle of one root that loads, such a request |
| Issuing.LeafVerifies | pkg/tls/authority.go:92-125 | in a loaded authority without path length limits, a signing certificate that may sign and still verifies issues leaves that verify, to strangers |
| Bundles.LoadableButUseless | pkg/tls/authority.go:213-218 | a bundle that loads and issues no leaf that ever verifies |
| Bundles.DumpLoads | internal/cli/cmd/ca/intermediate.go:98-107 | a printed hierarchy loads as itself iff its newest certificate verifies |
| Bundles.HistoryReloads | pkg/tls/authority.go:157-221 | after any number of created intermediates the bundle reloads while all are valid: newest certificate and key selected, original root as anchor, exactly the created intermediates, newest first |
| Bundles.FreshKeysAreNewEntities | pkg/tls/util.go:77-80 | pairwise different keys are enough for no two certificates of a history to be taken for one another |
| Bundles.CreateRoot | internal/cli/cmd/ca/root.go:69-85 | prints a self-signed root and its key |
| Bundles.CreateIntermediate | internal/cli/cmd/ca/intermediate.go:72-110 | prints new certificate, its key, the loaded intermediates, the trust anchor; fails iff loading does |
| Bundles.PrintingKeepsOrder | internal/cli/cmd/ca/intermediate.go:98-107 | block by block: the new certificate with its names, issuer and lifetime, its key, each loaded intermediate in order, the anchor last |
| Bundles.PrintedExtendsHistory | internal/cli/cmd/ca/intermediate.go:98-107 | what one run prints is the bundle of the history extended by that run |
| Bundles.EveryRunSucceeds | internal/cli/cmd/ca/intermediate.go:72-110 | create-root and then any number of create-intermediate runs, each on the previous output, all succeed and print the whole history |
| Bundles.LeavesOfHistoryVerify | pkg/tls/authority.go:92-125 | leaves signed with such a bundle, for anyone but its authorities, verify to the original root through the returned intermediates |
| Addresses.V4KeysDistinct | internal/service/convert.go:96-102 | dotted IPv4 addresses, with or without port, decode uniquely |
| Addresses.V4IsNotV6 | internal/service/convert.go:96-102 | no IPv4 key is an IPv6 key |
| Addresses.V6KeysCollideIff | internal/service/convert.go:96-102 | two expanded IPv6 keys agree iff address and port do, or a zone ends in what reads like the other's port |
| Addresses.KeysCollideIff | internal/service/convert.go:96-102 | the same over all addresses: zone-free (address, port) pairs never share a key |
| AddressReader.ReadInverts | internal/service/convert.go:96-102 | a reader that cuts at '.' and ':' and reads decimal bytes, hexadecimal groups and the port in written order gives back every zone-free address and its port |
| AddressReader.ZoneInKey | internal/service/convert.go:96-102 | a zone stands behind the groups and a '%', before the port |
| Addresses.ZonesCollide | internal/service/convert.go:96-102 | for every zone and port two such addresses that collide, as in [fe80::1%eth0:80] without a port |
| Addresses.PortsTellApart | internal/service/convert.go:96-102 | with a port, as the agent's validation demands, keys are equal iff address and port are |
| Services.MergeIsAssociative | internal/service/convert.go:74-84 | merging registries is associative |
| Services.MergeEntries | internal/service/convert.go:74-84 | in place: keys are the union, the second's labels follow the first's; the second registry is unchanged and no Service is filed twice |
| Services.FilterAddressByTag | internal/service/convert.go:36-49 | kept iff untagged, or no tags are asked for, or one of its tags is |
| Services.FlattenLabels | internal/service/convert.go:86-94 | each label once, as "key=value", in some order |
| Services.FlatteningHolds | internal/service/convert.go:86-94 | as many texts as labels, and exactly "key=value" of each |
| Services.FileOne | internal/service/convert.go:61-67 | one resolved address is merged in under its key with all the service's labels |
| Services.FileAddress | internal/service/convert.go:60-67 | every resolved address of one address entry is filed, in order |
| Services.FileService | internal/service/convert.go:51-69 | the kept addresses of one service are filed; without labels or addresses, nothing |
| Services.ConvertEntries | internal/service/convert.go:33-72 | the registry holds what filing every kept (service, address, resolved address) triple in order gives, in fresh unshared objects |
| Services.TriplesMember | internal/service/convert.go:51-69 | a triple is filed iff its service has labels, its address is one of the service's with no tags, none asked for or one that is, and its key prints a resolved address |
| Services.TriplesAppend | internal/service/convert.go:51-69 | services are filed one after the other |
| ServiceLoader.FiledAppend | internal/service/file_loader.go:94 | merging two registries is filing one's triples after the other's |
| ServiceLoader.FiledAt | internal/service/convert.go:74-84 | a key is filed iff a triple has it, and holds the in-order concatenation of their labels |
| ServiceLoader.FilesTriplesMember | internal/service/file_loader.go:102-133 | a load files the triples of the valid entries of the files that are lists, and no others |
| ServiceLoader.LabelsAreConserved | internal/service/convert.go:74-84 | over all keys the registry holds exactly as many labels as the kept triples bring |
| ServiceLoader.LoadIgnoresOrder | internal/service/file_loader.go:85-100 | any two orders of the files, the labels and the resolver's answers give the same keys and, per key, the same multiset of labels |
| ServiceLoader.Unmarshal | internal/service/file_loader.go:102-133 | an error exactly for a file that is not a list; otherwise a fresh registry of its valid entries |
| ServiceLoader.Run | internal/service/file_loader.go:85-100 | every file is visited once; the result files the triples of all readable files, unshared |
| ContextKey.DecodeInverts | pkg/agent/messenger/command_msg.go:63-71 | a decoder reads all five fields back, negative numbers included, if cgroup path and command name contain no '-' |
| ContextKey.FieldsInOrder | pkg/agent/messenger/command_msg.go:63-71 | the key is cgroup path, user ID, group ID, command name and command path, in this order, joined by '-' |
| ContextKey.KeyDeterminesFields | pkg/agent/messenger/command_msg.go:63-71 | between such contexts, same key iff same fields |
| ContextKey.KeyDeterminesFieldsWithinCgroup | pkg/agent/messenger/command_msg.go:63-71 | within one cgroup, whatever its path, dash-free command names suffice |
| ContextKey.OwnsKeyIff | pkg/agent/messenger/command_msg.go:63-71 | a context shares its key with no other iff name and path contain no '-', the user ID is not negative and no '-' of the cgroup path is followed by what reads as IDs |
| ContextKey.OwnsKeyInCgroupIff | pkg/agent/messenger/command_msg.go:63-71 | with no other of its cgroup iff neither its command name nor its command path contains '-' |
| ContextKey.CgroupDashCollides | pkg/agent/messenger/command_msg.go:63-71 | every '-' of a cgroup path followed by what reads as IDs gives a context of a shorter cgroup path with the same key |
| ContextKey.ShorterCgroupReadsAsIds | pkg/agent/messenger/command_msg.go:63-71 | and a context of a shorter cgroup path shares the key only so |
| ContextKey.NegativeUidCollides | pkg/agent/messenger/command_msg.go:63-71 | the sign of a negative user ID may as well end the cgroup path |
| ContextKey.DashesCollide | pkg/agent/messenger/command_msg.go:63-71 | every '-' in a command name gives a second, different context with the same key |
| ContextKey.CgroupDashesCollide | pkg/agent/messenger/command_msg.go:63-71 | two literal contexts of different cgroups, with dash-free commands, that share a key |
| AugmentCache.AugmentCommand.HandleCommand | pkg/agent/commands/augment.go:66-105 | expired items go and others stay as they are; an item not expired gives the answer; otherwise the answer is the map of exactly the labels collected, filed for five minutes |
| AugmentCache.AugmentCommand.Warm | pkg/agent/commands/augment.go:107-126 | every process is asked for once except those that fail for another reason than being gone, forbidden or not running |
| AugmentCache.RequestsAre | pkg/agent/commands/augment.go:113-125 | asked for are exactly the probes with no error or one of the three tolerated ones |
| AugmentCache.AnswersComeFromMisses | pkg/agent/commands/augment.go:73-101 | in every run, warming included, each answer is the one computed by the latest miss on the same key |
| AugmentCache.AnswersAreRecent | pkg/agent/commands/augment.go:50-52 | without renewal on hit no answer is older than the lifetime |
| AugmentCache.RenewalKeepsOldAnswers | pkg/agent/commands/augment.go:73-77 | with renewal on hit there is, for every n, a run in which a hit n lifetimes later still gets the first answer |
| AugmentCache.AnswersAreFreshIff | pkg/agent/commands/augment.go:50-52 | no answer of any run is older than the lifetime iff hits do not renew |
| AugmentCache.HitsFollowClosely | pkg/agent/commands/augment.go:50-77 | with renewal on hit, every hit comes within the lifetime of the last request for its key |
| AugmentCache.KeyDeterminedRefines | pkg/agent/commands/augment.go:66-105 | if what is collected depends only on the key, every answer of the run is the uncached one, background removals included |
| AugmentCache.RefinesIffKeyDetermined | pkg/agent/commands/augment.go:66-105 | and it is so in every run that asks for the same things, whatever the times and removals, only then |
| AugmentCache.FieldDeterminedIsKeyDetermined | pkg/agent/messenger/command_msg.go:63-71 | a collector that looks only at the printed fields meets that condition on contexts whose key can be read back or that have it to themselves |
| Trace.MatchesIffFactsHold | pkg/agent/api/v1/trace/trace.go:83-99 | a response matches iff it has every fact the request's set filters ask for |
| Trace.SessionsFollowTheCall | pkg/agent/api/v1/trace/trace.go:45-81 | in every interleaving each session's own steps are those of the call, in its order, stopping after a failed announcement |
| Trace.CalledAfterSubscribing | pkg/agent/api/v1/trace/trace.go:64-70 | only subscribed sessions are called, and one that has subscribed can be until someone unsubscribes |
| Trace.MatchedCallsAreSent | pkg/agent/api/v1/trace/trace.go:56-62 | in every run exactly the calls with a response its request matches are sent on, once each and in order |
| Trace.StepKeepsBalance | pkg/agent/api/v1/trace/trace.go:45-81 | each step keeps: per request, adds minus removes published are the outstanding sessions, failed removals included |
| Trace.StepKeepsSentMatches | pkg/agent/api/v1/trace/trace.go:56-70 | each step keeps: sessions are sent only what their own request matches, and only after announcing it |
| Trace.EveryRunIsSafe | pkg/agent/api/v1/trace/trace.go:45-81 | both hold after every interleaving of any number of sessions |
| Trace.NothingLeftBehind | pkg/agent/api/v1/trace/trace.go:72-78 | adds and removes of a request are equally many iff no session with it is outstanding |

## Left out

- YAML, JSON, protojson and validation: files start as decoded entries, an invalid entry as `None` and a file that is not a list as `Unparsable`; text templating is not modelled.
- Policy ID: a function parameter of the certificate, since it is a hash of its JSON form.
- Numbers in selectors are reals; NaN, infinities and negative zero are not modelled.
- SortStable: `sort.SliceStable` is an in-place insertion sort here, which is what Go runs on up to 20 elements; its merging of blocks in longer lists is not modelled. For those, what holds under a weak order is stated for any stable sort (`OrganizeIsDetermined`, `SecondRunChangesNothing`, `LikeGoOrdersIff`), and what holds without one for any reordering (`LoadHandsOnAll`).
- OrderedIffWeakOrder: is about insertion sort; `LikeGoOrdersIff` is about any sort like Go's.
- OrganizeIsIdempotent: without a weak order it is about insertion sort.
- Slices that are only appended to are sequences; a policy list becomes an array when it is sorted in place. Selectors, certificate data and the egress array of a policy never change after construction and are constant fields.
- OwnsKeyIff: user and group IDs are unbounded integers; in the source's 64 bits the smallest one has no positive counterpart to collide with.
- Cryptography, ASN.1 and PEM text: a signature is the key that made it, a bundle is a list of typed blocks, equal keys have equal identities, and the alternative names of a certificate are one text; serial numbers and other extensions are not carried.
- Verification: name constraints, authority key identifiers, critical extensions and the library's limit on signature checks are not modelled.
- CA.SignCertificateRequest: the source's type assertion to an RSA key is a precondition; so it is for CA.CreateIntermediate and Bundles.CreateIntermediate.
- HistoryReloads: needs every new key to differ from the key that signs it, no two certificates with the same name, key and alternative names, and all certificates to be valid at the time of loading.
- Reading the bundle file and `ParsePEMFromFile`'s joining of several files.
- Services.MergeEntries: requires the two registries to share no Service, as at both of its call sites.
- DNS and address parsing: what the resolver answers for an address is part of the input.
- The cache library beyond a map with expiry times: renewal on hit is a parameter, background cleanup an event, the clock is read once per request, and concurrent requests are atomic.
- AugmentCommand.HandleCommand: the answer is the label map, without its JSON rendering; collector errors only shrink the label list.
- The event bus: publishing and subscribing are atomic steps, which handlers it calls or forgets is left open, and nothing is claimed about complete delivery to a session.
- Command dispatch, kernel device I/O, gRPC serving, file watching, CLI and configuration: plumbing or easy members.
