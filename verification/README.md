# NovaVPN in Dafny

NovaVPN is a VPN client: a Windows service that owns routes, firewall filters, configuration, logs and a
local pipe protocol. This project models the parts of it that are algorithms or state machines in their own
right, and proves what they promise on all inputs and all runs.

- **Addresses and ranges** (`IpText`, `IpV6Text`, `IpV6Format`, `IpRange`, `RangeMath`, `RangeMasks`,
  `RangeText`, `TextLaws`, `HostName`): parsers and printers against the grammar of section 2.2 of RFC 4291 and the canonical form of
  section 4.2 of RFC 5952; byte-wise masking against numbers and 32-bit masks.
- **Policy evaluation** (`RoutingRules`, `RoutingLaws`, `Glob`): which rule decides, and why it is the most specific
  one; the last-star matcher against the meaning of a pattern.
- **Routes** (`RouteLedger`, `RouteSteps`, `RouteMachine`, `RouteManager`, `RouteTable`,
  `RouteDefaults`, `RouteSession`): a crash-safe ledger as steps over live table, memory and disk; pin, capture and teardown
  on a longest-prefix table.
- **Configuration** (`Json`, `JsonLaws`, `Config`, `ConfigStore`): deep merge and delta, and whole runs of the store.
- **OpenVPN profiles** (`OvpnLexer`, `OvpnGrammar`, `OvpnParser`, `OvpnLaws`, `OvpnShape`, `OvpnExport`, `OvpnRoundTrip`,
  `OvpnExact`): a quoting tokenizer and the written form of a line, the directive reader, the exporter and their round trip.
- **Concurrency** (`Cancellation`, `Logger`, `IpcFraming`, `IpcProtocol`, `IpcClient`, `IpcServer`): each protocol as a
  state machine over its atomic steps, beside classes whose methods do the steps.
- **Firewall** (`FirewallFilters`, `FirewallEngine`): a policy compiled to weighted filters, and the transactions that
  install it.
- **Log files** (`Sink`): rotation and the ring buffer.

Code that changes things in place is a class or a loop proved against a specification function; the promises are
lemmas about those functions. Answers of the operating system (a refused call, a partial read, a failed write, what
an enumeration shows) are parameters or arbitrary choices. Machine integers and a few shared notions are in `Types`.

Where the code and its own words part, the model follows the code and states exactly when the words hold:

- a `*` in the matched text can hide a match (`Glob.GlobExact`);
- a prefix text of 256 or more wraps (`RangeText.PrefixWraps`);
- an exact path is not always the most specific (`RoutingRules.ExactAgainstWildcard`);
- a configuration that dropped default keys is not reproduced (`Config.SaveThenLoad`);
- a route key leaves out the next hop (`RouteSteps.AddIsSafeExactly`, `RouteSteps.RemoveIsSafeExactly`, `RouteMachine.TwoGatewaysAreUnsafe`);
- teardown also deletes recorded rows that stood before (`RouteSession.TeardownRestores`, `RouteSession.RestoredExactly`);
- the parser cannot turn redirection off (`OvpnRoundTrip.RecoveredExactly`, `OvpnRoundTrip.RedirectionComesOn`);
- a callback may fire after its registration was reset (`Cancellation.ResetStopsExactly`);
- with capacity 0 drops are never reported (`Logger.DropsAreReportedExactly`, `Logger.UnreportedDrop`);
- filters past the 512th table entry escape the sweep, and a refused deletion or a failed enumeration goes unnoticed
  (`FirewallEngine.ApplyAlwaysFaithfulExactly`, `FirewallEngine.SweepIsFaithfulExactly`, `FirewallEngine.LeftoversLeak`);
- a method number or protocol version of more than 32 bits, or `true`, passes for one in range (`IpcProtocol.MethodIsCheckedExactly`,
  `IpcProtocol.ProtocolIsCheckedExactly`, `IpcProtocol.MethodWraps`, `IpcProtocol.TrueIsHello`);
- a host or name that would need quotes is exported without them (`OvpnExact.RoundTripExactly`);
- reconciling the firewall under a policy leaves a stale record (`FirewallEngine.ReconcileIsFaithfulExactly`).

`dafny verify dfyconfig.toml` checks the whole project.

## Model

| member | source | states |
|---|---|---|
| Glob.GlobMatch | Core/src/StringUtil.cpp:29-56 | the last-star loop returns what trying every position for every star would, except that a star facing a literal star is committed to it, and takes at most (text+1)*(pattern+1)-bounded steps |
| Glob.NewStarSuffices | Core/src/StringUtil.cpp:41-43 | on reaching a star, whatever any earlier star could still achieve the new one achieves too, so forgetting the earlier one loses nothing |
| Glob.BudgetIsProduct | Core/src/StringUtil.cpp:36-50 | the step bound is the product of the two lengths, each plus one |
| Glob.GlobIsSound | Core/src/StringUtil.cpp:29-56 | a reported match is a match of the pattern: * any run, ? any one character, ASCII case folded |
| Glob.GlobIsComplete | Core/src/StringUtil.cpp:29-56 | on a text without * every match of the pattern is reported |
| Glob.GlobExact | Core/src/StringUtil.cpp:37-41 | for a given text the matcher is right on every pattern if and only if the text holds no * |
| Glob.MissedPattern | Core/src/StringUtil.cpp:37-41 | for every text that holds a * there is a pattern that matches it and is not reported |
| Glob.LiteralPattern | Core/src/StringUtil.cpp:29-56 | a pattern without wildcards matches exactly its own text, letter case aside |
| StringUtil.SplitPieces | Core/src/StringUtil.cpp:126-144 | the cutting loop yields the pieces between consecutive delimiters, all of them or only those that are not empty |
| StringUtil.SplitOfJoin | Core/src/StringUtil.cpp:126-144 | splitting undoes joining for any pieces free of the delimiter |
| StringUtil.JoinOfSplit | Core/src/StringUtil.cpp:126-144 | joining undoes splitting, and no piece holds the delimiter |
| StringUtil.TrimExactly | Core/src/StringUtil.cpp:103-124 | trimming takes the space off both ends of a text and nothing else |
| IpText.ParseOctet | Networking/src/IpAddress.cpp:16-36 | accepts exactly the shortest decimal numerals of 0 to 255 |
| IpText.ParseV4 | Networking/src/IpAddress.cpp:38-55 | the loop accepts exactly four dot-separated octets |
| IpText.QuadText | Networking/src/IpAddress.cpp:38-55 | a text is read as given octets if and only if it is their printed form, so no second spelling exists |
| IpV6Text.ParseV6 | Networking/src/IpAddress.cpp:81-190 | the word loop with its compression marker reads what the scanning specification reads and yields the sixteen bytes |
| IpV6Text.ParserIsComplete | Networking/src/IpAddress.cpp:81-190 | every textual form of section 2.2 of RFC 4291 (hex groups, one ::, an IPv4 tail) is accepted with its value |
| IpV6Text.ParserIsSound | Networking/src/IpAddress.cpp:81-190 | everything accepted is such a form, with that value |
| IpV6Format.FindRun | Networking/src/IpAddress.cpp:209-228 | the run loop finds the leftmost of the longest runs of zero groups |
| IpV6Format.FormatV6 | Networking/src/IpAddress.cpp:201-251 | the printing loop produces the specified text |
| IpV6Format.CanonicalForm | Networking/src/IpAddress.cpp:201-251 | exactly the leftmost longest run of two or more zero groups is shortened, and nothing when there is none (section 4.2 of RFC 5952) |
| IpV6Format.AddressRoundTrip | Networking/src/IpAddress.cpp:280-311 | parsing the printed form of any IPv4 or IPv6 address gives the address back |
| IpV6Format.AddressTextInjective | Networking/src/IpAddress.cpp:373-376 | different addresses never print alike |
| IpV6Format.TryParse | Networking/src/IpAddress.cpp:280-302 | surrounding space is dropped and a colon selects the IPv6 parser; the result is what the grammar says |
| TextLaws.AddressExactly | Networking/src/IpAddress.cpp:280-302 | with surrounding space dropped, a text is read as an address if and only if it is its dotted quad, or an RFC 4291 form whose words are its bytes, the high byte first |
| HostNames.IsValidHostName | Networking/src/IpAddress.cpp:629-667 | the scan over the characters accepts a name if and only if it has 1 to 253 characters and every label has 1 to 63 permitted ones and neither begins nor ends in - |
| IpRanges.Make | Networking/src/IpAddress.cpp:406-438 | masks host bits byte by byte; refuses a prefix wider than the address; the result is always masked |
| TextLaws.MadeExactly | Networking/src/IpAddress.cpp:406-438 | a range is made if and only if the prefix fits the family, and it is the one of that prefix that covers the address |
| IpRanges.Contains | Networking/src/IpAddress.cpp:467-492 | the early-exit loop agrees with comparing the masked bytes |
| IpRanges.LastAddress | Networking/src/IpAddress.cpp:500-519 | fills host bits byte by byte |
| IpRanges.ByteMeaning | Networking/src/IpAddress.cpp:424-427 | masking a byte rounds it down to a power of two, filling rounds it up less one |
| RangeMath.MaskValue | Networking/src/IpAddress.cpp:406-438 | masking the bytes is rounding the whole address down to the block, filling is going to the end of the block (section 3.1 of RFC 4632) |
| RangeMath.CoversNumerically | Networking/src/IpAddress.cpp:467-519 | containment holds exactly when the quotients by the block size agree, exactly when the address lies between the network and the last address |
| RangeMath.Nested | Networking/src/IpAddress.cpp:467-492 | of two ranges sharing an address the one with the longer prefix lies inside the other |
| RangeMath.CoversRangeMeaning | Networking/src/IpAddress.cpp:494-498 | a range is reported to contain another exactly when it contains every address of it |
| RangeMasks.FilterAgrees | Firewall/src/WfpEngine.cpp:441-449 | the 32-bit address and mask handed to the platform match exactly the addresses the range contains, prefix 0 included |
| RangeMasks.NetmaskV4 | Networking/src/IpAddress.cpp:521-538 | none for IPv6; for IPv4 the dotted mask is, as a word, the very mask of the filter |
| RangeText.RangeRoundTrip | Networking/src/IpAddress.cpp:440-465 | parsing the text of any masked range gives the range back |
| RangeText.RangeTextInjective | Networking/src/IpAddress.cpp:540-543 | different ranges never print alike |
| TextLaws.RangeExactly | Networking/src/IpAddress.cpp:440-465 | any text at all is read as a range if and only if it is an address, or an address, a slash and one to three digits, and the range is the one of that length, modulo 256, that covers the address |
| RangeText.BareAddress | Networking/src/IpAddress.cpp:445-448 | a bare address is read as the range of that address alone |
| RangeText.PrefixWraps | Networking/src/IpAddress.cpp:452-464 | the prefix is taken modulo 256, so acceptance is right if and only if the text does not name a prefix of 256 or more that wraps to one within the width |
| RangeText.WrappedPrefixExample | Networking/src/IpAddress.cpp:464 | an IPv4 address followed by /264 is read as its /8 range |
| RangeText.EndpointRoundTrip | Networking/src/IpAddress.cpp:552-598 | an endpoint is read back from its text, brackets around IPv6 included, exactly when its port is not 0 |
| TextLaws.EndpointExactly | Networking/src/IpAddress.cpp:552-589 | any text at all is read as an endpoint if and only if it is an address, bracketed or not, a colon and digits that give a port from 1 to 65535 |
| RoutingRules.PolicyEvaluator.EvaluateAddress | Routing/src/RoutingRules.cpp:185-218 | returns the decision of the first-inserted maximum by prefix length, then priority, among the enabled rules matching address, port and transport; the default when none matches |
| RoutingRules.PolicyEvaluator.EvaluateDomain | Routing/src/RoutingRules.cpp:220-238 | the same by pinned suffix length, then priority |
| RoutingRules.PolicyEvaluator.EvaluateApplication | Routing/src/RoutingRules.cpp:240-258 | the same by path specificity, then priority |
| RoutingLaws.DisabledAddressRules | Routing/src/RoutingRules.cpp:193 | deleting the disabled rules changes no decision for an address |
| RoutingLaws.OtherConnections | Routing/src/RoutingRules.cpp:196-202 | nor does deleting the rules for a port or a transport other than the query's |
| RoutingLaws.OtherRanges | Routing/src/RoutingRules.cpp:193-195 | nor does deleting the rules whose range the address is not in |
| RoutingLaws.SameConnection | Routing/src/RoutingRules.cpp:196-202 | a rule for the very port or transport of the query decides as if it named none |
| RoutingLaws.MatchedAddresses | Networking/src/IpAddress.cpp:378-389 | such a rule matches exactly the addresses its range covers, and only an address under ::ffff:0:0/96 counts as its IPv4 form |
| RoutingLaws.AddressWinner | Routing/src/RoutingRules.cpp:185-218 | with all those gone, the decision carries disposition, tunnel and id of the rule of longest prefix, then highest priority, then first inserted; the policy's default without rules |
| RoutingLaws.IdleDomainRules | Routing/src/RoutingRules.cpp:220-238 | deleting the disabled rules, and those whose pattern does not match the host, changes no decision for a host |
| RoutingLaws.DomainWinner | Routing/src/RoutingRules.cpp:220-238 | of the rest the one that pins the longest name decides, then priority, then insertion, with its own disposition, tunnel and id |
| RoutingLaws.HostSpelling | Routing/src/RoutingRules.cpp:16-42 | letter case and one trailing dot of the host change no decision |
| RoutingLaws.IdleApplicationRules | Routing/src/RoutingRules.cpp:240-258 | deleting the disabled rules, those without a path and those that do not match changes no decision for a program |
| RoutingLaws.ApplicationWinner | Routing/src/RoutingRules.cpp:240-258 | of the rest the longest path decides, 4096 added for one without wildcards, then priority, then insertion, with its own disposition, tunnel and id |
| RoutingRules.WinnerIsMostSpecific | Routing/src/RoutingRules.cpp:209-214 | the winner's range lies inside the range of every other matching rule, and equals it at equal prefix |
| RoutingRules.MappedDecidesAlike | Networking/src/IpAddress.cpp:378-389 | an IPv4-mapped IPv6 address is matched by exactly the rules that match its IPv4 form, and by no IPv6 rule |
| RoutingRules.DomainByLabels | Routing/src/RoutingRules.cpp:16-42 | a domain rule matches whole labels: the labels it pins are the last labels of the host, with more before them where the pattern asks for a sub-domain |
| RoutingRules.MatchingSuffixesNest | Routing/src/RoutingRules.cpp:45-52 | of two rules matching a host the less specific pins a suffix of the other's name; at equal specificity the same name |
| RoutingRules.ExactAgainstWildcard | Routing/src/RoutingRules.cpp:63-69 | an exact path, meant to be maximally specific, beats a wildcard path if and only if that path is less than 4096 characters longer, or just that much with lower priority |
| RoutingRules.ExactPathDecides | Routing/src/RoutingRules.cpp:240-258 | with shorter wildcard paths a program named exactly is decided by a rule naming it, of highest priority among those |
| RoutingRules.LongWildcardWins | Routing/src/RoutingRules.cpp:63-69 | a pattern of enough stars outranks the rule that names the program |
| JsonDocs.Merge | Core/src/Json.cpp:55-69 | the recursive loop over the overlay's keys, in any order, computes the deep merge |
| JsonDocs.MergeIsNeutral | Core/src/Json.cpp:55-69 | merging changes nothing if and only if the overlay restates what is there |
| JsonDocs.MergeContainsOverlay | Core/src/Json.cpp:55-69 | what was merged in is there afterwards |
| JsonDocs.MergeIsIdempotent | Core/src/Json.cpp:55-69 | merging twice is merging once |
| JsonDocs.GetAfterSet | Core/src/Json.cpp:43-53 | what was set through any path is what is read back, at the place the path named when it was set: - at an array is the index after its last item |
| JsonLaws.SetFrame | Core/src/Json.cpp:43-53 | what stands neither above nor below the place that is set reads as it did before |
| JsonLaws.SetAddsOnly | Core/src/Json.cpp:43-53 | what is there only afterwards lies above or below that place, or is a null that fills an array up to it |
| JsonLaws.SetKeepsKinds | Core/src/Json.cpp:43-53 | above that place objects stay objects and arrays stay arrays |
| JsonLaws.SetSucceedsExactly | Core/src/Json.cpp:43-53 | an assignment succeeds if and only if no node on the way blocks the next token: a scalar blocks every one, an array all but indices and -, a null an all-digit one with a leading zero |
| JsonLaws.MergeFrame | Core/src/Json.cpp:55-69 | what the overlay says nothing about reads as before, along any path of objects |
| JsonDocs.PlainPathIsResolved | Core/src/Json.cpp:43-53 | a path without - names its own place |
| Config.ComputeDelta | Core/src/Config.cpp:227-251 | the recursive loop over the effective document's keys computes the delta |
| Config.DeltaRoundTrip | Core/src/Config.cpp:227-251 | merging the delta over the defaults gives the effective document back if and only if that document keeps the default keys at every level |
| Config.DeltaIsMinimal | Core/src/Config.cpp:227-251 | every overlay that yields the effective document contains the delta |
| Config.StepFits | Core/src/Config.cpp:103-192 | one load, set, apply or reset keeps default objects as objects with their keys if and only if it replaces none of them by something less |
| Config.RunFits | Core/src/Config.cpp:103-192 | so does every run of such operations |
| Config.SaveThenLoad | Core/src/Config.cpp:103-132 | a save survives a restart if and only if the effective document keeps the default keys |
| Config.RunSurvivesRestart | Core/src/Config.cpp:98-192 | after any run that respects the defaults, saving and loading into a fresh store reproduces the effective document |
| Config.LostKeyExample | Core/src/Config.cpp:227-251 | replacing a default object by a scalar and later by a smaller object loses the change at the next start |
| ConfigStores.ConfigStore.LoadFile | Core/src/Config.cpp:103-122 | missing file: defaults and success; corrupt file: defaults and failure; else the file over the defaults |
| ConfigStores.ConfigStore.SaveFile | Core/src/Config.cpp:124-132 | writes exactly the delta, or leaves the old file when the write fails |
| ConfigStores.ConfigStore.SetValue | Core/src/Config.cpp:134-142 | assigns at the path, where the value is then read back and, by JsonLaws.SetFrame, nothing else changes, and tells every handler; or reports, changes nothing and tells no one |
| ConfigStores.ConfigStore.ApplyOverlay | Core/src/Config.cpp:144-178 | merges the overlay in one step; tells every handler once of each announced key, and those are exactly the plain top-level keys whose value changed; changes nothing and tells no one when a key is a malformed JSON path |
| ConfigStores.PointerRoundTrip | Core/src/Config.cpp:153 | any path can be written as a key, ~0 for ~ and ~1 for /, and is read back from it |
| ConfigStores.MalformedExactly | Core/src/Config.cpp:153 | a key stands for no path if and only if it holds a ~ that neither 0 nor 1 follows |
| ConfigStores.ConfigStore.ResetValue | Core/src/Config.cpp:180-192 | afterwards the value at the path is the default one and every handler is told; without a default it reports, and where the effective document cannot be followed an exception gets out: nothing changes then and no one is told |
| ConfigStores.AnnouncedExactly | Core/src/Config.cpp:153-170 | a plain key is announced if and only if its value changes |
| RouteLedger.RouteKeyInjective | Routing/src/RouteManager.cpp:53-56 | a ledger key determines destination and interface |
| RouteLedger.EntryRoundTrip | Routing/src/RouteManager.cpp:381-418 | an entry is read back from its JSON if and only if it names an interface |
| RouteLedger.EntryReadExactly | Routing/src/RouteManager.cpp:396-418 | any item at all is an entry if and only if it has a readable destination, an interface other than 0 and, if any, a readable next hop; a missing metric is 0 and an entry is ours unless it says otherwise |
| RouteLedger.OtherFieldsAreIgnored | Routing/src/RouteManager.cpp:396-418 | no other field makes a difference |
| RouteLedger.LastItemWins | Routing/src/RouteManager.cpp:293-310 | whatever the array holds, the ledger has for every key that a readable item has the entry of the last such item, and nothing else |
| RouteLedger.LedgerRoundTrip | Routing/src/RouteManager.cpp:293-319 | loading undoes saving, in whatever order the table was written, for all entries that name an interface |
| RouteSteps.AddIsSafe | Routing/src/RouteManager.cpp:142-163 | from a safe state, with the key unclaimed, an add keeps every live created route in both ledgers, whatever the writes and the system answer |
| RouteSteps.AddIsSafeExactly | Routing/src/RouteManager.cpp:142-163 | an add is safe for all answers if and only if no live created route has its key, which leaves out the next hop |
| RouteSteps.RemoveIsSafeExactly | Routing/src/RouteManager.cpp:165-175 | a remove is safe for all answers if and only if its key does not stand for another next hop's live route |
| RouteMachine.SharedKeyIsUnsafe | Routing/src/RouteManager.cpp:142-175 | for any two entries of one key with different next hops there is a run after which neither adding nor removing the second is safe |
| RouteMachine.TwoGatewaysAreUnsafe | Routing/src/RouteManager.cpp:53-56 | such entries: one destination on one interface through two gateways |
| RouteSteps.OwnEntryIsOnlyRow | Routing/src/RouteManager.cpp:228-250 | removing the ledger's own entries always meets that condition |
| RouteMachine.NextKeeps | Routing/src/RouteManager.cpp:142-175 | every single step of interleaved calls, every crash and restart, and every change by others keeps the safety invariant |
| RouteMachine.AddIsItsSteps | Routing/src/RouteManager.cpp:142-163 | the steps of an add, alone from start to end, are the call |
| RouteMachine.RemoveIsItsSteps | Routing/src/RouteManager.cpp:165-175 | and so are those of a remove |
| RouteMachine.NoRouteIsForgotten | Routing/src/RouteManager.cpp:142-175 | in every reachable state every live route the program created is in the ledger on disk and, while it runs, in memory |
| RouteMachine.RecoveryIsExact | Routing/src/RouteManager.cpp:252-279 | after reconciling, exactly the routes whose delete failed are live, and they are still recorded |
| RouteMachine.CrashIsRecovered | Routing/src/RouteManager.cpp:252-310 | crash anywhere in any run, restart, reconcile: of the created routes exactly those remain whose deletion is refused, exactly those are recorded in memory, and on disk too when disk and memory agree |
| RouteMachine.RestartSyncs | Routing/src/RouteManager.cpp:293-310 | after a restart the ledger on disk and the one in memory agree |
| RouteManagers.RouteManager.ReadRecord | Routing/src/RouteManager.cpp:293-310 | the loading loop: later items win, unreadable ones are skipped, a non-array is an empty ledger |
| RouteManagers.RouteManager.SaveRecord | Routing/src/RouteManager.cpp:312-319 | writes a document holding exactly the entries of the ledger, or nothing |
| RouteManagers.RouteManager.AddRoute | Routing/src/RouteManager.cpp:142-163 | records, then creates, then takes back on refusal: what is in table, memory and on disk afterwards and what is returned, told from the answers; an existing row counts as success |
| RouteManagers.RouteManager.RemoveRoute | Routing/src/RouteManager.cpp:165-175 | deletes, then takes back, told from the answers: a missing row counts as deleted, a refused one changes nothing |
| RouteManagers.RouteManager.RemoveAllOwnedRoutes | Routing/src/RouteManager.cpp:228-279 | the loop over the ledger, for teardown and for reconciling: every entry goes whose deletion is not refused, in the table and in the ledger; failures do not stop it; while the writes land, disk and memory keep agreeing |
| RouteManagers.RouteManager.PinGatewayRoute | Routing/src/RouteManager.cpp:88-121 | one add of the pin entry, with all it does to table, memory and disk; succeeds if and only if a route to the gateway was found, the record is written and the system does not refuse the row (interface 0 it refuses), and then adds exactly the host row to the gateway's present next hop |
| RouteManagers.RouteManager.CaptureDefaultRoute | Routing/src/RouteManager.cpp:123-138 | succeeds if and only if for every entry of the mode the record is written and the system does not refuse the row; otherwise the adds stop with the first for which that fails; the table gains exactly the rows of the entries before, and table, memory and disk are those of that sequence of adds |
| RouteTable.OneHalf | Routing/src/RouteManager.cpp:361-372 | every address of the family lies in exactly one of the two half routes, by its first bit |
| RouteDefaults.V4DefaultsFromText | Routing/src/RouteManager.cpp:361-376 | the IPv4 texts of the capture are read as exactly those halves and the whole range |
| RouteDefaults.V6DefaultsFromText | Routing/src/RouteManager.cpp:361-376 | the IPv6 texts likewise |
| RouteTable.PinKeepsNextHop | Routing/src/RouteManager.cpp:104-113 | the pinned row has the next hop of the route that reached the gateway before, on-link included |
| RouteTable.GatewayStaysPinned | Routing/src/RouteManager.cpp:88-138 | after pin and capture the gateway is routed by the pin alone, unless another host route for it stood before |
| RouteTable.DefaultTrafficIsCaptured | Routing/src/RouteManager.cpp:123-138 | every other address that only a default route or none covered goes into the tunnel |
| RouteTable.SpecificTrafficIsUntouched | Routing/src/RouteManager.cpp:123-138 | every other address with a route longer than /1, and the other family, is routed as before |
| RouteTable.HalfTrafficGoesByCost | Routing/src/RouteManager.cpp:123-138 | where a /1 route stood, the tunnel's half is used if and only if it costs no more |
| RouteTable.ReplaceGoesByCost | Routing/src/RouteManager.cpp:374-376 | replacing the default captures default traffic alone if and only if the tunnel costs less |
| RouteSession.TeardownRestores | Routing/src/RouteManager.cpp:228-250 | from an empty ledger, any additions and an unrefused teardown restore the table if and only if no recorded row stood there before |
| RouteSession.NewRowsAreRestored | Routing/src/RouteManager.cpp:142-250 | when no row asked for stands in the table before, any additions and an unrefused teardown restore it, whatever disk and system answered |
| RouteSession.RestoredExactly | Routing/src/RouteManager.cpp:142-250 | for entries on different keys that check is exact: restored for all answers if and only if none of their rows stood before |
| RouteSession.SessionLeavesNoTrace | Routing/src/RouteManager.cpp:88-250 | gateway pin, capture of both families as far as it got, and an unrefused teardown: when none of the rows stood before, the table and the forwarding of every address are as before |
| OvpnLexer.Tokenize | Profiles/src/OvpnParser.cpp:278-344 | the quoting loop yields the tokens of the line |
| OvpnGrammar.TokensOfLine | Profiles/src/OvpnParser.cpp:278-344 | a line is read as its written form says: breaks separate tokens, what touches belongs together, quotes and escapes give the characters inside, a comment ends the line, an open quote runs to its end |
| OvpnGrammar.EveryLineIsWritten | Profiles/src/OvpnParser.cpp:278-344 | every line at all has such a form |
| OvpnLexer.TokensOfQuoted | Profiles/src/OvpnParser.cpp:278-344 | any tokens at all, double-quoted with escapes, are read back |
| OvpnLexer.TokensOfSpaced | Profiles/src/OvpnParser.cpp:278-344 | plain tokens separated by spaces are read back |
| OvpnLexer.UnquotedExactly | Profiles/src/OvpnParser.cpp:278-344 | a text written without quotes is read back as one token if and only if it holds no separator, quote or comment character and is not empty |
| OvpnParser.ReadInlineBlock | Profiles/src/OvpnParser.cpp:81-97 | the body is the right-trimmed lines up to the first closing tag; an unterminated block is reported |
| OvpnParser.ParseOvpn | Profiles/src/OvpnParser.cpp:346-435 | the line loop computes the specified outcome: report, or the first error |
| OvpnLaws.AcceptedExactly | Profiles/src/OvpnParser.cpp:346-435 | a text is accepted if and only if its blocks end, it names a server and, when strict, no directive is dangerous |
| OvpnLaws.ReportByItems | Profiles/src/OvpnParser.cpp:99-275 | every field of an accepted profile, told from the directives and blocks in order: each server with the port and transport it names, else those of the last port or proto before it, else 1194 and UDP; for every other setting the last directive that counts; the method, the texts and the warnings |
| OvpnLaws.BlockIsItem | Profiles/src/OvpnParser.cpp:81-97 | a block goes from its opening line to the first line that closes it, in any case and with space around |
| OvpnLaws.NumberIsLeadingDigits | Profiles/src/OvpnParser.cpp:123 | a number is its leading digits, after space and a sign; it stops at 2^32 - 1 and counts from there below zero |
| OvpnParser.DisallowedHaveNoEffect | Profiles/src/OvpnParser.cpp:136-151 | outside strict mode, deleting every disallowed line outside inline blocks changes nothing but the rejected list, which is the deleted keywords in order |
| OvpnParser.DisallowedTextHasNoEffect | Profiles/src/OvpnParser.cpp:346-435 | the same for texts |
| OvpnParser.StrictIsNothingRejected | Profiles/src/OvpnParser.cpp:144-151 | strict mode accepts if and only if the other mode accepts with nothing rejected, and then agrees |
| OvpnShape.ParsedProfileShape | Profiles/src/OvpnParser.cpp:346-435 | every accepted file yields a remote, a valid MTU or none, both keep-alive times or neither, redirected traffic, one of three methods, and a warning exactly when compression is on |
| OvpnShape.EveryDirectiveIsAccountedFor | Profiles/src/OvpnParser.cpp:136-271 | for every accepted text: the rejected list is exactly the dangerous keywords outside inline blocks, the ignored list exactly those that mean nothing here, in order; every other directive has a meaning |
| OvpnShape.OnlyNamedFilesMatter | Profiles/src/OvpnParser.cpp:242-258 | the result depends on no file but those that a ca or cert directive outside a block names; a private key file is never read |
| OvpnExport.Export | Profiles/src/OvpnParser.cpp:448-520 | refuses a profile if and only if its name or list of servers is empty or too long, a server has no port or neither an address nor a host name, a certificate that the method requires is missing, nothing authenticates the server, or the MTU is outside 576 to 9000; any other is written as the specified lines |
| OvpnExport.UnlinesOfPem | Profiles/src/OvpnParser.cpp:502-509 | appending a PEM text adds at most the missing final newline |
| OvpnRoundTrip.ReadsDirective | Profiles/src/OvpnParser.cpp:396-400 | a line of plain tokens has exactly the effect of its directive |
| OvpnRoundTrip.ReadsBlock | Profiles/src/OvpnParser.cpp:364-382 | an exported PEM block is read back byte for byte |
| OvpnRoundTrip.ExportRoundTrip | Profiles/src/OvpnParser.cpp:346-520 | an exported plain profile is read back with nothing rejected: remotes in order, flags, cipher, digest, name, MTU and both PEM texts as they were |
| OvpnExact.RoundTripExactly | Profiles/src/OvpnParser.cpp:346-520 | a profile that validates, with PEM texts that close no block, is exported and read back with all its texts as they were if and only if every host and name needs no quotes and every PEM text ends in a newline without trailing space |
| OvpnExact.TokenIsPlain | Profiles/src/OvpnParser.cpp:278-344 | a token that holds as many quotes as its whole line is plain, as lexing loses at least one quote of a line that has any |
| OvpnRoundTrip.RecoveredExactly | Profiles/src/OvpnParser.cpp:411-520 | exporting a plain profile and parsing the text recovers its method if and only if that agrees with the certificate carried, its redirection if and only if it was on |
| OvpnRoundTrip.RedirectionComesOn | Profiles/src/OvpnParser.cpp:346-520 | a valid profile without redirection that redirects all traffic once exported and parsed |
| Cancellation.SharedState.Cancel | Core/src/Cancellation.cpp:13-38 | without interference every registered callback runs once, in order; a second cancel does nothing |
| Cancellation.SharedState.OnCancelled | Core/src/Cancellation.cpp:76-96 | registers under a fresh id, or runs the callback at once |
| Cancellation.SharedState.Reset | Core/src/Cancellation.cpp:127-142 | removes the entry of the id, if it is still there |
| Cancellation.NextKeeps | Core/src/Cancellation.cpp:13-142 | every step of every interleaving keeps each callback in exactly one place |
| Cancellation.FiresAtMostOnce | Core/src/Cancellation.cpp:13-38 | in every run no callback fires twice |
| Cancellation.RegisteredFiresExactlyOnce | Core/src/Cancellation.cpp:13-38 | registered and not reset before the swap: fired exactly once when that cancel returns |
| Cancellation.FiresInOrder | Core/src/Cancellation.cpp:13-38 | whatever happens in between, callbacks that one cancel takes fire in the order of their registration |
| Cancellation.ResetBeforeSwapNeverFires | Core/src/Cancellation.cpp:127-142 | reset while still registered: never fires |
| Cancellation.LateCallbackFires | Core/src/Cancellation.cpp:93-96 | handed in after cancellation, in any run: fired exactly once when the registering call returns, not at all before |
| Cancellation.ResetStopsExactly | Core/src/Cancellation.cpp:127-142 | a reset keeps a pending callback from firing if and only if the running cancel has not taken it yet |
| Cancellation.ResetTooLateExample | Core/src/Cancellation.cpp:31-38 | registered, taken, reset, and fired all the same |
| Logger.NothingIsLostOrReordered | Logs/src/Logger.cpp:114-206 | in every reachable state delivered, in-flight and queued records are the accepted ones in order; the queue is bounded; attempts are accepted or counted; notices add up |
| Logger.FlushDelivers | Logs/src/Logger.cpp:132-142 | when a flush passes its wait, everything accepted before it began has been delivered |
| Logger.FlushPassesExactly | Logs/src/Logger.cpp:132-142 | in every reachable state the wait of a flush ends if and only if everything accepted is delivered and the worker has said so |
| Logger.DropsOnlyWhenFull | Logs/src/Logger.cpp:114-130 | over any run from any state a record is dropped only because the queue is full, and every other one submitted before the stop is accepted, in order |
| Logger.ShutdownDeliversAll | Logs/src/Logger.cpp:144-206 | at the end everything accepted has been delivered, and the final drain never finds anything |
| Logger.DropsAreReportedExactly | Logs/src/Logger.cpp:178-191 | at the end every drop has been reported if and only if the queue can hold a record or nothing was dropped |
| Logger.UnreportedDrop | Logs/src/Logger.cpp:114-206 | with capacity 0 the run of one submission and a stop drops a record that no notice ever mentions |
| Logger.LoggerState.SubmitRecord | Logs/src/Logger.cpp:114-130 | true if and only if nothing stops and there is room, and then the record is the last one queued and accepted; at capacity a drop is counted, after stopping nothing happens |
| Logger.LoggerState.ReportDrops | Logs/src/Logger.cpp:176-191 | one notice carries exactly the drops not reported yet |
| Logger.LoggerState.DrainLoop | Logs/src/Logger.cpp:144-206 | with any batches submitted between its steps, the loop does a run of the state machine in which the producers do just that; it ends with everything accepted delivered |
| Sinks.RingBufferSink.Write | Logs/src/Sink.cpp:382-390 | the ring then holds the end of the longer history |
| Sinks.RingBufferSink.Snapshot | Logs/src/Sink.cpp:402-419 | the last capacity records, oldest first, or all of them |
| Sinks.RotationKeepsSuffix | Logs/src/Sink.cpp:135-162 | a rotation loses only a front part of the retained text |
| Sinks.RotationDropsExactly | Logs/src/Sink.cpp:135-184 | a rotation starts an empty file and moves every other up by one, dropping a file if and only if the count is full or the file is past the retention |
| Sinks.WriteRotatesExactly | Logs/src/Sink.cpp:50-73 | a line that fits goes to the end of the current file and nothing else changes; any other starts a file |
| Sinks.WriteKeeps | Logs/src/Sink.cpp:50-73 | one write keeps file count, sizes and ages within bounds and the retained text a suffix of everything written |
| Sinks.RunKeepsSuffix | Logs/src/Sink.cpp:50-184 | after any run of writes and rotations under a monotone clock the files read from highest index to 0 are a suffix of everything written, and never more than allowed |
| Sinks.FileSink.Write | Logs/src/Sink.cpp:50-73 | rotates when the line would not fit, then appends; the byte counter is the size of file 0 |
| Sinks.FileSink.Rename | Logs/src/Sink.cpp:146-150 | requires a free target at every call, so the downward loop overwrites no file |
| Sinks.FileSink.Rotate | Logs/src/Sink.cpp:135-162 | drops the oldest, shifts the others up by one, purges, starts an empty file |
| Sinks.FileSink.PurgeExpired | Logs/src/Sink.cpp:164-184 | removes exactly the files past the cutoff |
| IpcFraming.Frame | Services/src/IpcProtocol.cpp:297-323 | refuses an oversized text, else prefixes its length byte by byte |
| IpcFraming.PrefixRoundTrip | Services/src/IpcProtocol.cpp:312-342 | the little-endian prefix gives the length back |
| IpcFraming.PrefixIsLittleEndian | Services/src/IpcProtocol.cpp:315-333 | the four bytes of a prefix are its length, the lowest first |
| IpcFraming.StreamRoundTrip | Services/src/IpcServer.cpp:63-107 | whatever follows them, messages of permitted size are received first, whole and in order |
| IpcFraming.ReceivedExactly | Services/src/IpcServer.cpp:63-107 | any stream at all is what was sent by the frames received from it, followed by a rest in which no frame stands: cut short, or of a length that is refused |
| IpcFraming.BadPrefixStops | Services/src/IpcProtocol.cpp:325-342 | an empty or oversized length stops the receiver before any byte of a body |
| IpcFraming.SentInjective | Services/src/IpcProtocol.cpp:297-323 | different message sequences never look the same on the wire |
| IpcFraming.ReadExact | Services/src/IpcServer.cpp:63-79 | gathers partial reads into exactly the bytes asked for, or reports the end |
| IpcFraming.WriteAll | Services/src/IpcServer.cpp:81-94 | partial writes of any sizes put exactly the bytes on the pipe |
| IpcFraming.ReadFrame | Services/src/IpcServer.cpp:97-107 | takes one frame off the stream, refusing on the prefix alone |
| IpcFraming.ReceiveAll | Services/src/IpcClient.cpp:302-316 | however the pipe splits the bytes, the frames received are those of the stream up to the first whose body cannot be parsed |
| IpcFraming.Transfer | Services/src/IpcServer.cpp:63-107 | messages written whole in pieces of any size and read in pieces of any other size arrive as they were sent |
| IpcProtocol.RequestRoundTrip | Services/src/IpcProtocol.cpp:140-219 | a request survives the wire if and only if its method is known, its id non-zero and its parameters an object |
| IpcProtocol.DecodedIsSendable | Services/src/IpcProtocol.cpp:180-219 | every accepted document stands for such a request |
| IpcProtocol.MethodIsCheckedExactly | Services/src/IpcProtocol.cpp:191-217 | with everything else in order, a request is accepted exactly when its method is a number of the list if and only if the field does not merely pass for one: an integer of more than 32 bits that narrows to one, or true |
| IpcProtocol.ProtocolIsCheckedExactly | Services/src/IpcProtocol.cpp:185-195 | the version check lets through exactly what passes for this protocol: a number that narrows to 1, or true |
| IpcProtocol.EventIsCheckedExactly | Services/src/IpcProtocol.cpp:252-264 | an event kind is checked as it should be if and only if it is no integer of more than 32 bits that narrows to a known one |
| IpcProtocol.MethodWraps | Services/src/IpcProtocol.cpp:197-205 | 2^32+1 is taken for Hello |
| IpcProtocol.TrueIsHello | Services/src/IpcProtocol.cpp:189-205 | true is taken for Hello, and for the protocol's version |
| IpcProtocol.ResponseRoundTrip | Services/src/IpcProtocol.cpp:150-246 | a response keeps its id and outcome, and survives whole if and only if it is one-sided |
| IpcProtocol.DecodedResponse | Services/src/IpcProtocol.cpp:221-246 | any document marked as a response is read, as a success if and only if it says so, and then with its result |
| IpcProtocol.EventRoundTrip | Services/src/IpcProtocol.cpp:168-273 | an event survives if and only if its kind is known, and is never taken for a response or request |
| IpcClients.IpcClient.Enlist | Services/src/IpcClient.cpp:224-236 | a fresh id with an empty slot of its own |
| IpcClients.IpcClient.DeliverResponse | Services/src/IpcClient.cpp:346-362 | fills the slot of the response's id and no other; a late or unknown id changes nothing |
| IpcClients.IpcClient.FailPending | Services/src/IpcClient.cpp:212-219 | fails every waiting caller and empties the table |
| IpcClients.NextKeeps | Services/src/IpcClient.cpp:198-362 | every step of interleaved calls, responses, timeouts and disconnects keeps the slot invariant |
| IpcClients.CallsGetTheirOwnResponse | Services/src/IpcClient.cpp:222-267 | in every run a slot is filled at most once and a successful call returns the response with its own id |
| IpcClients.IdsAreFresh | Services/src/IpcClient.cpp:224 | every call gets an id no call had before |
| IpcClients.LateResponseIsIgnored | Services/src/IpcClient.cpp:346-358 | a response whose call has gone changes nothing |
| IpcClients.CallIsIsolated | Services/src/IpcClient.cpp:222-362 | over any run, a call that no step concerns keeps its whole state, however long the others go on |
| IpcClients.CallGetsFirstResponse | Services/src/IpcClient.cpp:222-362 | in every run, a call that succeeds returns the first response with its id received after it was listed, never an earlier or later one |
| IpcClients.WakeReturnsResponse | Services/src/IpcClient.cpp:222-267 | in every run, a call that wakes returns the response that filled its slot, the first received for it, and fails only when a disconnect filled it |
| IpcClients.FailureHasAReason | Services/src/IpcClient.cpp:222-267 | in every run, a call fails only after its own send failed or timed out or the connection went |
| IpcClients.ResultIsFinal | Services/src/IpcClient.cpp:254-267 | the result of a returned call never changes |
| IpcServers.Connection.Dispatch | Services/src/IpcServer.cpp:373-417 | the answer is the right one: to the first Hello success with the greeting; before it a protocol error, to a gated request of one who is no administrator a denial, without a handler the error saying so, each with the id of the request; else what the handler returned |
| IpcServers.Connection.Serve | Services/src/IpcServer.cpp:333-371 | one reply for each request, in order and each the right one, up to the first that does not fit a frame or whose write fails; the handlers run are exactly those of the allowed requests up to there; ready if and only if a success was written |
| IpcServers.SuccessMeans | Services/src/IpcServer.cpp:373-417 | a right reply that is a success is the answer to the first Hello, or what a handler returned for an allowed request |
| IpcServers.ConnectionIsSafe | Services/src/IpcServer.cpp:212-417 | on every run with concurrent broadcasts, oversized frames and broken pipes: the handlers run are exactly those of the requests after the first Hello that name one, gated ones for administrators only; responses in request order and each the right one; no event before the response to Hello |
| IpcServers.BroadcastsReachReady | Services/src/IpcServer.cpp:212-236 | on every run, a connection is ready exactly when a success has been written, but for the moment just past that write; every broadcast for a ready connection waits, is being written or has been written, once |
| IpcServers.FramesNeverInterleave | Services/src/IpcServer.cpp:212-371 | however writers and bytes interleave, whatever is too long to be framed and wherever the connection ends, the peer receives exactly the completed frames, whole and in order |
| FirewallFilters.CompiledPolicyDecides | Firewall/src/WfpEngine.cpp:256-296 | with the highest weight deciding, the compiled filters permit a flow if and only if it is on a permitted interface, goes to an endpoint's address, lies in an allowed range, or is to 127/8 or ::1, or to 169.254/16 or the broadcast address, where those are enabled; all else is blocked |
| FirewallFilters.CompiledPersistence | Firewall/src/WfpEngine.cpp:343-360 | every filter of a policy is as persistent as the policy |
| FirewallFilters.CompiledPermits | Firewall/src/WfpEngine.cpp:256-490 | some permit filter matches exactly the intended flows |
| FirewallFilters.EndpointMatch | Firewall/src/WfpEngine.cpp:395-428 | an endpoint filter matches exactly the endpoint's address |
| FirewallFilters.RangeMatch | Firewall/src/WfpEngine.cpp:430-464 | a range filter matches exactly the addresses of the range |
| FirewallFilters.PermitsWin | Firewall/src/WfpEngine.cpp:33-41 | in layered filters a decision always exists and permits if and only if some permit matches |
| FirewallEngine.WfpEngine.BuildFilters | Firewall/src/WfpEngine.cpp:256-296 | the loops add exactly the compilation of the policy, in order |
| FirewallEngine.WfpEngine.ClearInTransaction | Firewall/src/WfpEngine.cpp:314-341 | collects the ids the enumeration shows and deletes one after the other; exactly those shown and not refused go |
| FirewallEngine.LeftoversExactly | Firewall/src/WfpEngine.cpp:314-341 | a filter is left, as often as it was there, if and only if its id is not among those shown and deleted |
| FirewallEngine.WfpEngine.ApplyPolicy | Firewall/src/WfpEngine.cpp:110-144 | all or nothing: it succeeds if and only if the engine is open and begin, handle, every add and commit succeed, and then the old filters that were not deleted stand beside the policy; on any failure nothing changes |
| FirewallEngine.WfpEngine.ClearPolicy | Firewall/src/WfpEngine.cpp:146-156 | clears filters and policy together, or neither |
| FirewallEngine.WfpEngine.Reconcile | Firewall/src/WfpEngine.cpp:158-168 | clears filters and leaves the recorded policy |
| FirewallEngine.ApplyIsFaithfulExactly | Firewall/src/WfpEngine.cpp:110-144 | a successful apply installs exactly the policy if and only if every old filter was shown and its deletion accepted |
| FirewallEngine.ApplyAlwaysFaithfulExactly | Firewall/src/WfpEngine.cpp:110-144 | what a caller can check: an apply installs exactly the policy whatever the system answers if and only if nothing of ours was installed before |
| FirewallEngine.RefusedDelete | Firewall/src/WfpEngine.cpp:337-339 | one refused deletion, which the code ignores: apply succeeds with the old filter left beside the new policy |
| FirewallEngine.SweepIsFaithfulExactly | Firewall/src/WfpEngine.cpp:314-341 | in terms of the platform's table: exactly the policy is installed if and only if the enumeration succeeds, no deletion is refused, and, past 512 table entries, ours stand among the first 512 |
| FirewallEngine.LateFilterStays | Firewall/src/WfpEngine.cpp:322-335 | a filter of ours past the limit stays beside the new policy although every call succeeds |
| FirewallEngine.LeftoversLeak | Firewall/src/WfpEngine.cpp:314-341 | with filters left behind the flows let through are those of the policy and those of every old permit |
| FirewallEngine.ReconcileIsFaithfulExactly | Firewall/src/WfpEngine.cpp:158-168 | without a recorded policy reconciling is right if and only if every filter goes; with one it is wrong when every filter goes, and a policy in force survives it if and only if nothing is deleted |
| FirewallEngine.RunIsFaithful | Firewall/src/WfpEngine.cpp:110-156 | between open and close the installed set stays empty or exactly the current policy if and only if every call that succeeds has all old filters shown and their deletion accepted |

## Left out

- The Win32, WFP, WinHTTP, SQLite, DPAPI, Credential Manager, Wintun and OpenVPN calls: only their outcomes appear.
- JSON text: documents are values, and dumping and parsing are taken as inverse to each other; numbers are integers, so fractional numbers, and numbers beyond 64 bits, are outside the model.
- Atomic file replacement: a write of the route ledger or the configuration lands whole or leaves the old file.
- The user interface, the installer, the service host, adapter enumeration, the updater, plugin loading and cryptography are not part of this model.
- Wall-clock time, timeouts as durations, and the formatting of byte counts, rates and durations.
- Enumeration name tables and their parsers, and small predicates such as private or loopback tests: true but easy.
- `RoutingPolicy::validate` and `applyPolicy`: bookkeeping over lists that adds only easy members; country rules are not evaluated by the code.
- Firewall policy fields that no filter is built from (LAN, IPv6, DNS and WebRTC switches), and the platform's own refusal of persistent filters in a dynamic session.
- Unicode: strings are sequences of characters, and sizes of log lines and paths count characters.
- `Profile` fields an exported configuration never carries (credentials, DNS, metadata, engine), their validation, and the texts of warnings and error messages.
- RouteManagers.RoutingTable.CreateEntry: takes it from the platform that interface index 0 is refused; the metric of a row is not stored in the table but given by the cost function of `RouteTable`.
- RouteMachine.NoRouteIsForgotten: assumes that calls on one key are serial, that a key is not added while it stands for a live created route, and that what is removed is the very row that its key stands for; `RouteSteps.AddIsSafeExactly` and `RouteSteps.RemoveIsSafeExactly` show that the latter two are needed.
- JsonDocs.SetAt: an assignment that fails half-way on an all-digit token with a leading zero may leave emptied nodes behind in the original; here it changes nothing.
- ConfigStores.ConfigStore.ApplyOverlay: the keys are visited, and so announced, in any order, where the original goes by the order of the overlay; handlers appear as the calls they get, and that they may call the store again is not modelled; keys with a slash are looked up as paths, as in the code, but their announcement is only specified, not judged.
- IpcClients.IpcClient.Enlist: ids are unbounded; the 64-bit counter wraps after 2^64 calls.
- IpcClients.CallsGetTheirOwnResponse: the lock on a slot is one atomic step; the unlocked writes of the disconnect are taken as atomic too.
- IpcServers.ConnectionIsSafe: handlers are taken to echo the request id; a failed write is one of a pipe that takes no more bytes.
- IpcFraming.Pipe.Write: a write accepts at least one byte; a pipe that accepted none for ever would keep the loop running.
- Cancellation.SharedState.Cancel: states what happens without interference; the interleavings are in the state machine of the same module, whose locked sections are these methods' bodies. Exceptions thrown by callbacks are not modelled.
- Logger.LoggerState.DrainLoop: the producers take turns between the steps of the loop, as all lists of batches allow; that a notice is delivered some time after the counter was read is in the state machine only. Sink levels are not modelled.
- Sinks.FileSink.Write: all file operations succeed and the clock does not run back; a failing write closes the handle in the original.
- Sinks.FileSink.constructor: the directory is taken to keep the limits already when the sink is opened; that at least one file is allowed is what the maker of the sink enforces.
- FirewallEngine.RunIsFaithful: the platform's rights of a session over filters of another session appear only as refused deletions; a transaction that is aborted or fails to commit is taken to change nothing.
- OvpnExact.RoundTripExactly: leaves out PEM texts in which a line closes the block; what follows such a line is read as directives, which may name a file with any content.
