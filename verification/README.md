# Squid Control Plane: verified model

A Dafny model of the policy core of Squid Control Plane, and proofs about it.

- **The policy compiler against the policy engine.** `Ir`, `Engine`, `Compiler` and `Squid` model the
  intermediate representation, the reference engine, the compiler up to a syntax tree of `acl` and
  `http_access` lines, and the meaning of that tree: the first matching line wins, terms on a line are
  conjoined from left to right, repeated `acl` lines are a disjunction, and evaluating an ACL backed by
  proxy authentication without credentials challenges the client, even when it is negated. Each loop of
  the compiler is a method over one name allocator, proved to compute a function of its input
  (`Compiler`, `Names`). `Evaluation` and `Matching` say which rule decides and what a rule matches without
  the engine's loops and sorts. `ListenerPorts`, `HelperOrder` and `CompilerNames` to `CompilerCorrect` prove what
  the compiled tree holds and decides; `SetupWarnings` when each warning is given; `GroupKeys`, `Faithful`,
  `ListenerTheorems`, `GuestListeners` and `SilentDivergence` compare it with the engine: equal decisions where
  the parts of a rule mean the same, the exact conditions under which they do, and which differences the
  warnings report.
- **Addresses and open proxies.** `Bits`, `IpText`, `IpRoundTrip`, `IpForms` and `IpRanges` model masks, printing
  and parsing, and say which texts are addresses and which blocks are private; `OpenProxy` models the detection of
  accidental open proxies and what its silence guarantees, `SecurityFindings` when each finding is given.
- **Determinism and drift.** `Sorting`, `Determinism` and `ConfigurationHash`.
- **State machines over whole runs.** `Lease` (access of directory accounts), `ApplyCycle` (the agent's
  staged application), `Utf8`, `LogShipper`, `LogDelivery` and `ShippedLines` (log shipping), `RateLimit`.
- **crypt(3).** `CryptEncoding`, `CryptDigest`, `CryptVerify`, `CryptTheorems` and `CryptCollisions`, over abstract
  digests.
- **Resolving stored rules.** `Directory` (group graphs, users, networks) and `AccessProfile`.

Where a promise does not hold of the code, a lemma shows an input that breaks it and another states exactly
when it holds: several networks in one source are conjoined (`Faithful.SourceAgreesExactly`), domains and
networks of a destination are conjoined (`Faithful.DestinationAgreesExactly`), credentials can be demanded
without a provider (`DefinitionOrder.DefinedBeforeUseExactly`, `HelperOrder.BackedExactly`), group keys can collide
(`GroupKeys.GroupConditionDeterminesExactly`), a rule whose last network is deleted applies to everyone and a
listener whose networks are gone or empty admits everyone (`Directory.LimitIsKeptExactly`,
`Directory.ListenerLimitIsKeptExactly`), a specific destination without hosts escapes the open proxy finding
(`OpenProxy.EscapesExactly`), the comment "a public /8 or wider" describes a test that only private IPv6
blocks reach (`OpenProxy.WideExactly`), files are written before validation
(`ApplyCycle.OverwrittenExactly`), a failed reconfigure leaves the refused configuration at the live path
(`ApplyCycle.LiveIsLoadedExactly`), the rate limiter forgets hits when the clock runs backwards
(`RateLimit.PruningDecidesExactly`), an ill-formed byte moves the log offset past the line end
(`LogDelivery.OffsetIsBoundaryExactly`), a line longer than the read window stops shipping
(`LogDelivery.EverythingIsShippedExactly`), a log file replaced by a longer one loses its first lines
(`ShippedLines.RotationIsMissedExactly`), a stored hash that writes the default round count never verifies
(`CryptTheorems.WrittenCountVerifiesExactly`), and the audit entry "reactivated" is wrong for accounts an
administrator disabled (`Lease.ReactivationAuditExactly`).

`dafny verify dfyconfig.toml` checks the whole project.

## Conditions used by the compiler theorems

`CompilerTests.CoherentIr`: rule ids are distinct, a network id always carries the same entries, the provider
keys of the groups in use are separable (`GroupKeys.SeparableKeys`), LDAP provider slugs are distinct, and
providers exist when a listener authenticates. `CompiledRules.DistinctPorts`: active listeners have different
port names. `CompiledRules.ArrivesOn`: the port name of a request is the one written on the http_port line of its
listener; `CompiledRules.DistinctBinds` lets the address and port it came in on tell that line.
`ListenerTheorems.FaithfulRule`: the source, destination and schedule of an enabled rule are
faithful, its window starts before it ends, and its users name no provider (`configuration.ts` always stores
them so). `Faithful.CoherentIdentity`: the groups a client holds agree with the local memberships and the
enabled LDAP providers, and the provider keys they and the rules name are tellable
(`GroupKeys.TellableKeys`). `GuestListeners.GuestsAreNeverChallenged` needs the port names only.

## Model

| member | source | states |
|---|---|---|
| Engine.EvaluateRequest | packages/shared/src/policy/engine.ts:185-223 | the evaluation loop returns the challenge, the first matching rule or the default, with the trace of the rules looked at |
| Engine.FirstMatch | packages/shared/src/policy/engine.ts:204-215 | the index it returns matches and no earlier rule does |
| Evaluation.LeastPositionDecides | packages/shared/src/policy/engine.ts:185-223 | among the rules that apply the one with the least position, and for equal positions the first id, decides with its action; the default decides when none applies; only anonymous requests where credentials are required are challenged |
| Evaluation.TraceExplains | packages/shared/src/policy/engine.ts:225-272 | the trace names the rules in order up to the deciding one, and for each other one the first of its conditions that fails |
| Matching.DomainsExactly | packages/shared/src/policy/engine.ts:154-167 | an entry with a leading dot matches the names whose last labels are its own, any other entry that name alone; blank entries match nothing |
| Text.FoldingTables | packages/shared/src/policy/engine.ts:155 | lower and upper case exchange the 26 letters of the alphabet and keep every other character |
| Matching.HostFormDoesNotMatter | packages/shared/src/policy/engine.ts:155 | capitals and a dot behind the host change nothing |
| Matching.WindowsDivideTheDay | packages/shared/src/policy/engine.ts:173-177 | a window and the one with exchanged bounds divide each listed day, the start minute belonging to the window it starts |
| Matching.WeekStartsOnSunday | packages/shared/src/policy/engine.ts:62 | day 0 of a moment is Sunday, day 6 Saturday |
| Matching.UsersExactly | packages/shared/src/policy/engine.ts:102-111 | user names are compared without regard to case, and a reference with a provider is met by identities of that provider only |
| Ir.GroupExpander.Visit | packages/shared/src/policy/ir.ts:253-263 | visiting a reference appends the unseen concrete groups below it, down to the depth limit |
| Ir.ExpandAll | packages/shared/src/policy/ir.ts:250-266 | flattening visits the references in order with one shared list and one shared set of seen keys |
| Ir.ExpansionIsTheGroupsBelow | packages/shared/src/policy/ir.ts:249-266 | the flattened list holds exactly the concrete groups within the depth limit, once per group key |
| Ir.SortRulesMultiset | packages/shared/src/policy/ir.ts:268-270 | sorting keeps exactly the rules it is given |
| Evaluation.RulesInOrder | packages/shared/src/policy/ir.ts:268-270 | of two sorted rules the earlier has the smaller position, or the same position and an id that comes first in dictionary order |
| Evaluation.ProvidersInOrder | packages/shared/src/squid/compiler.ts:172-174 | of two sorted providers the earlier has the smaller priority, or the same priority and a key that comes first |
| Names.NameAllocator.Take | packages/shared/src/squid/compiler.ts:129-142 | the name taken is new, extends the base, joins the used set, and the search for it terminates |
| Names.TakenExactly | packages/shared/src/squid/compiler.ts:129-142 | a free base is taken as it is, otherwise the first free name of base_2, base_3 and so on |
| Slugs.SlugIsWords | packages/shared/src/squid/compiler.ts:110-116 | the slug is the lower case words of the text joined by underscores, or "x" when there are none |
| Slugs.SlugsAgreeExactly | packages/shared/src/squid/compiler.ts:110-116 | two texts share a slug, and two listener keys a port name, exactly when they have the same words |
| Slugs.SlugIsClean | packages/shared/src/squid/compiler.ts:110-116 | a slug is free of whitespace and quotes and does not begin or end with an underscore |
| Compiler.CompileNetworks | packages/shared/src/squid/compiler.ts:247-272 | the source loop emits one ACL per network id, reports networks without entries and records the names per rule |
| Compiler.CompileGroups | packages/shared/src/squid/compiler.ts:279-325 | the group loop emits one ACL per group key and one external type per LDAP provider, and marks groups nobody can be in |
| Compiler.CompileUsers | packages/shared/src/squid/compiler.ts:332-350 | the user loop emits one ACL per rule with a nonempty user list |
| Compiler.CompileDestinations | packages/shared/src/squid/compiler.ts:357-413 | the destination loop emits up to three destination ACLs and a time ACL per rule, with its two warnings |
| Compiler.CompileListeners | packages/shared/src/squid/compiler.ts:431-479 | the listener loop emits port, source and credential guards, and the authenticating ports |
| ListenerPorts.HttpPortsExactly | packages/shared/src/squid/compiler.ts:445-455 | the http_port lines are one per enabled listener, in their order, with its address and port, named by the slug of its key or else its name, which is what its myportname ACL asks for |
| CompiledRules.BindTellsListener | packages/shared/src/squid/compiler.ts:445-455 | where no two listeners share address and port, the name on the line for an address and port tells the listener a request came in on |
| Compiler.CompileRules | packages/shared/src/squid/compiler.ts:498-559 | the rule loop emits the access lines in order, leaves out rules that can never match, and gives the identity warnings |
| Compiler.CompileConfiguration | packages/shared/src/squid/compiler.ts:148-621 | the phases run in order over one name allocator and produce the compiled file and the warnings |
| CompilerDefinitions.AllocatedOnce | packages/shared/src/squid/compiler.ts:129-142 | every allocated name has exactly one definition in the file, which is not a fixed name |
| CompilerNames.AllocatedIsNotFixed | packages/shared/src/squid/compiler.ts:77-84 | an allocated name never meets a built-in, baseline or authentication name |
| DefinitionOrder.DefinedBeforeUseExactly | packages/shared/src/squid/compiler.ts:212-558 | every name on an access line is built in or defined on an earlier line, exactly unless identities are demanded while no provider is enabled |
| DefinitionOrder.UndefinedUse | packages/shared/src/squid/compiler.ts:223-243 | with credentials demanded and no provider, scp_authenticated is used on a line and defined on none |
| HelperOrder.BackedExactly | packages/shared/src/squid/compiler.ts:212-243 | every ACL that asks for credentials has the helper program above it, exactly if there are providers or no such ACL is written |
| HelperOrder.TypesComeFirst | packages/shared/src/squid/compiler.ts:313-322 | every external group ACL stands below the helper type it names |
| SetupWarnings.ProgramExactly | packages/shared/src/squid/compiler.ts:230-232 | one helper program is configured exactly when some listener asks for an identity and there are providers, with all of them in order of priority |
| SetupWarnings.SetupWarningsExactly | packages/shared/src/squid/compiler.ts:212-428 | the warnings about listeners, providers and user lists are given exactly when listeners, providers and users call for them |
| SetupWarnings.GroupWarningsExactly | packages/shared/src/squid/compiler.ts:284-312 | a group warning is given exactly for the first rule that asks for a local group without members or a group of no LDAP provider |
| SetupWarnings.IdentityWarningsExactly | packages/shared/src/squid/compiler.ts:636-685 | a warning about an identity condition is given exactly for enabled rules whose condition the authentication modes of the enabled listeners rule out or widen |
| SetupWarnings.WarningsAgreeWithFindings | packages/shared/src/policy/openProxy.ts:140-160 | the compiler warns of a missing authentication exactly for the ids of the rules the security findings call unreachable |
| SquidReading.EvalDedupe | packages/shared/src/squid/compiler.ts:714-725 | dropping repeated names changes neither what a line means nor whether it challenges |
| CompiledRules.FanDecides | packages/shared/src/squid/compiler.ts:702-721 | the lines fanned out over several groups decide together as one condition that any of the groups satisfies |
| CompiledRules.PortLinesMeaning | packages/shared/src/squid/compiler.ts:466-486 | the repeated scp_auth_ports lines hold exactly on the ports of the listeners that can authenticate |
| SquidReading.NetTestsHold | packages/shared/src/squid/compiler.ts:246-272 | the conjoined source terms demand the address in every network that has an entry |
| SquidReading.RestTestsHold | packages/shared/src/squid/compiler.ts:356-413 | the destination and time terms mean that each kind of entry present matches and that the clamped window holds |
| CompilerCorrect.BaselineDecides | packages/shared/src/squid/compiler.ts:206-209 | the baseline lines refuse unsafe ports and CONNECT to other ports than 443, and keep the manager local |
| CompilerCorrect.GuardsDecide | packages/shared/src/squid/compiler.ts:457-478 | the listener guards refuse foreign sources and challenge anonymous clients on their own listener only |
| CompilerCorrect.RuleDecides | packages/shared/src/squid/compiler.ts:498-559 | the lines of a rule decide as the reading of the rule says: port guard, source, identity, destination, schedule |
| CompilerCorrect.CompiledDecides | packages/shared/src/squid/compiler.ts:148-621 | every request on an active listener is decided, by baseline, guards, the first deciding rule and the default |
| ListenerTheorems.DisabledListenerDecides | packages/shared/src/squid/compiler.ts:466-486 | on a listener without authentication the compiled file decides as the engine with authentication disabled, whatever the other listeners demand |
| ListenerTheorems.AuthenticatedClientDecides | packages/shared/src/squid/compiler.ts:160-170 | an authenticated client gets the decision of the engine on the rules with UNAUTHENTICATED read as ANY, or never matching when every listener requires credentials |
| ListenerTheorems.WideningMattersExactly | packages/shared/src/squid/compiler.ts:664-685 | reading UNAUTHENTICATED as ANY changes the decision exactly when the first rule it newly reaches decides otherwise |
| ListenerTheorems.RequiredAnonymousIsChallenged | packages/shared/src/squid/compiler.ts:472-478 | an anonymous client on a listener that requires credentials is challenged by the file and by the engine |
| ListenerTheorems.OptionalAnonymousDecides | packages/shared/src/squid/compiler.ts:498-559 | an anonymous client on an optional listener is challenged exactly when some rule prompts before the one the engine picks, and otherwise gets its decision |
| GuestListeners.GuestsAreNeverChallenged | packages/shared/src/squid/compiler.ts:77-84 | no client of a listener without authentication is ever challenged; this needs only port names that differ |
| Faithful.SourceAgreesExactly | packages/shared/src/squid/compiler.ts:253-271 | the compiled source means the source of the engine exactly when some network has an entry and those that do agree on the edges of their blocks |
| Faithful.SameOnEdgesIs | packages/shared/src/net/ip.ts:164-175 | two entry lists cover the same addresses exactly when they agree on the finitely many addresses where one of their blocks begins or has ended |
| Faithful.EmptySourceMatchesEveryone | packages/shared/src/squid/compiler.ts:254-262 | a source whose networks have no entries matches nobody in the engine and everybody in Squid |
| Faithful.DestinationAgreesExactly | packages/shared/src/squid/compiler.ts:383-394 | the compiled destination means that of the engine exactly when it has entries of one kind of host only, or empty host lists |
| Faithful.ScheduleAgreesExactly | packages/shared/src/squid/compiler.ts:403-410 | for windows that start before they end the compiled window means that of the engine exactly when it names a day or is empty once clamped to the day |
| Faithful.HeldIffRead | packages/shared/src/squid/compiler.ts:285-322 | a client holds a group in the engine exactly when the compiled group ACL admits the client, for identities that agree with the memberships |
| GroupKeys.GroupKeyDeterminesExactly | packages/shared/src/policy/ir.ts:242-247 | over a set of provider keys the group key determines source, name and provider up to case exactly when no key reads LOCAL or EXTERNAL in capitals and no prefix followed by a colon begins another |
| GroupKeys.GroupConditionDeterminesExactly | packages/shared/src/policy/engine.ts:113-121 | exactly then a client that holds one group meets the condition of that group and of no other |
| GroupKeys.LocalProviderCollides | apps/api/src/routes/proxyIdentity.ts:38-45 | a member of a group of a provider called "local" meets a rule for the local group of that name |
| GroupKeys.AclKeyDeterminesExactly | packages/shared/src/squid/compiler.ts:285-287 | over a set of provider keys two groups share an ACL only when they are the same exactly when no key is empty, begins with a colon or begins another up to a colon |
| SilentDivergence.SilentSourceExactly | packages/shared/src/squid/compiler.ts:253-271 | a source is compiled unfaithfully without a warning exactly when all its networks have entries and two cover different addresses, or when it names none |
| SilentDivergence.BothKindsWarnedExactly | packages/shared/src/squid/compiler.ts:383-394 | the warning about domains and networks is given exactly when both kinds have an entry, and then some host is matched by the engine and not by Squid |
| SilentDivergence.SilentDestinationExactly | packages/shared/src/squid/compiler.ts:364-402 | a destination is compiled unfaithfully without a warning exactly when its host entries are all blank beside a port list |
| SilentDivergence.TwoPrivateNetworksAreUnfaithful | packages/shared/src/squid/compiler.ts:253-271 | naming 10.0.0.0/8 and 192.168.0.0/16 in one rule is compiled unfaithfully |
| SilentDivergence.WideningIsReported | packages/shared/src/squid/compiler.ts:664-685 | whenever dropping UNAUTHENTICATED changes a decision, the rule that lost it and decides instead was reported |
| SilentDivergence.QuietOrderNeverPrompts | packages/shared/src/squid/compiler.ts:518-531 | a rule for unauthenticated clients without the rule order warning decides for them unprompted |
| IpText.ParseIpv4 | packages/shared/src/net/ip.ts:38-52 | four octets of one to three digits without leading zeros, folded eight bits at a time |
| IpText.Ipv4RoundTrip | packages/shared/src/net/ip.ts:38-52 | parsing the formatted value gives the value back, for every value below 2^32 |
| IpRoundTrip.Ipv4TextIsUnique | packages/shared/src/net/ip.ts:38-52 | an address has only one text that parses to it |
| IpText.ParseIpv6 | packages/shared/src/net/ip.ts:54-95 | the groups around one "::" are checked, filled with zeros and folded sixteen bits at a time |
| IpForms.GroupsExactly | packages/shared/src/net/ip.ts:54-95 | exactly the texts that write eight groups of one to four hexadecimal digits, or fewer around one "::", are read, and as those groups |
| IpForms.Ipv6Exactly | packages/shared/src/net/ip.ts:54-95 | a text without a dotted part is an address exactly when it writes eight groups, and denotes the number whose digits of base 65536 they are |
| IpForms.DottedPartExactly | packages/shared/src/net/ip.ts:58-66 | a dotted part at the end stands for its high and its low half as two groups |
| IpForms.CapitalsDoNotMatter | packages/shared/src/net/ip.ts:54-95 | hexadecimal digits in capitals mean the same |
| IpText.FormatIpv6 | packages/shared/src/net/ip.ts:135-162 | the scan and the joins produce the compressed text |
| IpText.ScanFindsLeftmostLongest | packages/shared/src/net/ip.ts:140-157 | the scan finds the leftmost longest run of zero groups, as section 4.2 of RFC 5952 asks |
| IpForms.CompressedExactly | packages/shared/src/net/ip.ts:135-162 | "::" is written exactly when two or more groups in a row are zero |
| IpRoundTrip.Ipv6RoundTrip | packages/shared/src/net/ip.ts:54-95 | parsing the formatted value gives the value back, for every value below 2^128 |
| IpRoundTrip.ParseCidrNormalises | packages/shared/src/net/ip.ts:112-133 | parsing the text of a parsed block gives the same block |
| IpRoundTrip.ParsedCidrIsValid | packages/shared/src/net/ip.ts:112-133 | a parsed block has its host bits cleared and carries its own normal text |
| IpForms.BareAddressIsItsBlock | packages/shared/src/net/ip.ts:113-122 | an address without a prefix is the block that holds it alone |
| IpForms.PrefixTextsExactly | packages/shared/src/net/ip.ts:113-133 | behind an address exactly the decimal texts of one to three digits up to the width of the family are prefixes |
| IpText.MaskRoundsDown | packages/shared/src/net/ip.ts:31-36 | masking with a prefix rounds an address down to a multiple of the block size |
| IpRanges.FindInCidrs | packages/shared/src/net/ip.ts:169-175 | the scan finds whether some entry parses to a block that contains the address |
| IpRanges.ContainsIsInterval | packages/shared/src/net/ip.ts:164-167 | a block contains an address exactly when families agree and the address lies in the interval from its base of its size |
| IpRanges.CheckPrivate | packages/shared/src/net/ip.ts:202-211 | the scan finds whether the block fits a listed private block |
| IpRanges.PrivateMeansInsideOneBlock | packages/shared/src/net/ip.ts:197-211 | a block is private exactly when its whole range lies inside one listed private block |
| IpRanges.PrivateBlocks | packages/shared/src/net/ip.ts:182-195 | every listed private block parses, so none is skipped |
| IpRanges.PrivateExactly | packages/shared/src/net/ip.ts:182-211 | a block is private exactly when it lies inside one of nine intervals of addresses, given as numbers |
| OpenProxy.WidestSource | packages/shared/src/policy/openProxy.ts:52-70 | the loops list the parseable entries and tell whether one of them is wide |
| OpenProxy.DetectSecurityFindings | packages/shared/src/policy/openProxy.ts:72-175 | the findings, with the rules they name and their severity |
| OpenProxy.ReportedExactly | packages/shared/src/policy/openProxy.ts:89-116 | the open proxy finding is reported exactly when a listener is unprotected and the default or an unlimited rule with a wide source lets anonymous clients through |
| OpenProxy.WideExactly | packages/shared/src/policy/openProxy.ts:63-66 | a block counts as wide exactly when it is not private, or is an IPv6 block with a prefix below 104 |
| OpenProxy.NoFindingMeansNoOpenProxy | packages/shared/src/policy/openProxy.ts:42-116 | without a finding, whatever a public address is permitted without credentials is permitted by a rule that limits destinations or times |
| OpenProxy.UnlimitedExactly | packages/shared/src/policy/openProxy.ts:48-49 | a rule holds for every host, port and time exactly when it writes no limit, a destination without hosts and with no or all ports, or a window over the whole week |
| OpenProxy.EscapesExactly | packages/shared/src/policy/openProxy.ts:42-116 | with an unprotected listener, the finding is missing although a rule opens the proxy exactly when the default denies, no rule draws the finding, and such a rule writes its non-limit as a list or a window |
| OpenProxy.EmptySpecificEscapes | packages/shared/src/policy/openProxy.ts:48-49 | a specific destination without hosts and with no or all ports opens the proxy to everyone and no finding says so |
| SecurityFindings.PlainlyOpenExactly | packages/shared/src/policy/openProxy.ts:42-50 | a rule counts as letting anonymous clients reach anything exactly when it is enabled, allows, has no limit on destination and time, and its identity condition holds for every client of a listener that asks nobody |
| SecurityFindings.WideSourceExactly | packages/shared/src/policy/openProxy.ts:52-70 | a source counts as wide exactly when it is any source or some entry is a block outside every private range, or an IPv6 block with a prefix below 104 |
| SecurityFindings.OpenProxyNamesExactly | packages/shared/src/policy/openProxy.ts:79-116 | the open proxy finding names exactly the unlimited rules with a wide source, and is critical exactly when a listener without authentication is reachable from beyond the private ranges |
| SecurityFindings.WidelyReachableExactly | packages/shared/src/policy/openProxy.ts:32-40 | a listener is widely reachable exactly when its address is no IP address, the unspecified one, or outside every private range |
| SecurityFindings.AnonymousAccessExactly | packages/shared/src/policy/openProxy.ts:89-131 | anonymous access is reported, with exactly the rules that give it, when some listener asks nobody, the default denies and no such rule has a wide source |
| SecurityFindings.UnreachableExactly | packages/shared/src/policy/openProxy.ts:134-160 | a rule is named unreachable exactly when it is enabled, no enabled listener asks for an identity, and without one its identity condition holds for nobody |
| SecurityFindings.UnreachableNeverDecides | packages/shared/src/policy/openProxy.ts:134-160 | a rule named unreachable decides no request on any enabled listener |
| SecurityFindings.NoProviderExactly | packages/shared/src/policy/openProxy.ts:162-172 | the missing provider is reported exactly when some enabled listener asks for an identity and there is no provider |
| SecurityFindings.NoProviderMeansUndefined | packages/shared/src/squid/compiler.ts:223-243 | the compiled file uses an undefined ACL exactly when that finding is given and a listener or rule demands credentials |
| Sorting.SortedIsUnique | packages/shared/src/policy/ir.ts:268-270 | a sorted arrangement of the same elements is unique when the order tells them apart |
| Determinism.RuleOrderIsCanonicalExactly | packages/shared/src/policy/ir.ts:268-270 | every other listing of the rules leaves the evaluation order alone exactly when no two different rules share position and id |
| Determinism.ProviderOrderIsCanonicalExactly | packages/shared/src/squid/compiler.ts:172-174 | every other listing of the providers leaves their sorted order alone exactly when no two different ones share priority and key |
| Determinism.OrderDoesNotMatter | packages/shared/src/squid/compiler.ts:148-190 | then neither the decisions nor the compiled file depend on the order of rules and providers |
| ConfigurationHash.HeaderIsStripped | apps/api/src/security/agentAuth.ts:77-83 | texts that differ in the compile time alone are the same once the volatile header is stripped |
| ConfigurationHash.StripsTheHeader | apps/api/src/security/agentAuth.ts:77-83 | from every text exactly the lines that begin with "#", white space and "Generated:" are taken out |
| ConfigurationHash.NothingElseIsStripped | apps/api/src/security/agentAuth.ts:77-83 | a text without such a line is kept as it is |
| ConfigurationHash.OneHeaderIsStripped | apps/api/src/security/agentAuth.ts:77-83 | a header line between two texts without one is all that is taken out |
| ConfigurationHash.PolicyChangesShow | apps/api/src/security/agentAuth.ts:54-64 | two compiled files with the same preamble have the same hash input exactly when the same files go with them and everything after the header line is written alike |
| ConfigurationHash.CompileTimeIsStripped | packages/shared/src/squid/compiler.ts:184-190 | two compilations of one policy at different times agree after stripping, for every rendering of the other lines |
| ConfigurationHash.HashConfiguration | apps/api/src/security/agentAuth.ts:65-75 | the hash is taken over the stripped text and the files in path order |
| ConfigurationHash.FileOrderIsCanonicalExactly | apps/api/src/security/agentAuth.ts:71 | the files reach the digest in one order however they are listed exactly when no two different files share a path |
| ConfigurationHash.HashIsStable | apps/api/src/security/agentAuth.ts:54-75 | the hash depends neither on the compile time nor on the order of the files |
| ConfigurationHash.HashInputDetermines | apps/api/src/security/agentAuth.ts:65-75 | for texts without zero characters the hash input determines the configuration without its header lines and the set of files, and conversely |
| ConfigurationHash.HashShowsDrift | apps/api/src/security/agentAuth.ts:54-64 | with a digest that does not collide on them, two hashes agree exactly when the nodes would hold the same files and the same configuration once the header lines are taken out |
| ConfigurationHash.ZeroCharactersConfuse | apps/api/src/security/agentAuth.ts:71-73 | a zero character in a file lets one file and two files share a hash input |
| AccessProfile.BuildAccessProfile | packages/shared/src/policy/accessProfile.ts:119-165 | entries are the applicable rules in order, and entries plus inapplicable rules count all rules |
| AccessProfile.ListedExactly | packages/shared/src/policy/accessProfile.ts:119-146 | a rule is listed exactly when, without its conditions on source, destination and time, it would apply to the requests of the identity |
| AccessProfile.ListedInOrder | packages/shared/src/policy/accessProfile.ts:119-146 | the listed rules come in the order in which they are evaluated |
| AccessProfile.ListedRulesDecideTheSame | packages/shared/src/policy/accessProfile.ts:112-146 | evaluating only the listed rules gives the same decision and matched rule for every source, destination and time |
| AccessProfile.ListedRulesSuffice | packages/shared/src/policy/accessProfile.ts:112-146 | a configuration that holds only the listed rules is evaluated like the full one |
| AccessProfile.UnlistedRuleNeverDecides | packages/shared/src/policy/accessProfile.ts:124-132 | a rule that is not listed never decides for the identity |
| Directory.ResolveGroups | apps/api/src/services/configuration.ts:267-279 | the groups of a rule resolve to the references that exist, and the others are counted as issues |
| Directory.GroupConditionExactly | apps/api/src/services/configuration.ts:177-188 | for every group graph, cyclic ones included, the condition holds exactly for authenticated clients with a concrete group reachable through at most five logical groups |
| Directory.FlattenedWithoutDuplicates | packages/shared/src/policy/ir.ts:249-266 | the flattened list has no duplicates and nothing unreachable |
| Directory.HoldsTheGroupItself | packages/shared/src/policy/engine.ts:113-121 | where the provider keys in use are tellable, the condition holds exactly for authenticated clients that hold the very group reachable: same source, name and, up to case, provider |
| Directory.ResolveUsers | apps/api/src/services/configuration.ts:255-266 | the users of a rule resolve to the existing names in order, for any provider, and the others are counted |
| Directory.ResolveSource | apps/api/src/services/configuration.ts:225-243 | the networks of a rule resolve to those that exist, or to any source when none does |
| Directory.LimitIsKeptExactly | apps/api/src/services/configuration.ts:242 | a rule limited to networks keeps its limit exactly as long as one of them exists |
| Directory.ListenerLimitIsKeptExactly | apps/api/src/services/configuration.ts:163-165 | a listener limited to networks keeps its limit exactly as long as one of them exists and has an entry, and otherwise admits every source |
| RateLimit.RateLimiter.Check | apps/api/src/security/rateLimit.ts:24-42 | a check prunes the bucket and either refuses with advice or records the hit |
| RateLimit.RateLimiter.Sweep | apps/api/src/security/rateLimit.ts:50-57 | a sweep prunes every bucket and drops the empty ones |
| RateLimit.RateLimiter.Reset | apps/api/src/security/rateLimit.ts:45-47 | a reset forgets the key |
| RateLimit.KeysAreIndependent | apps/api/src/security/rateLimit.ts:24-57 | in every run a key is answered by its own checks and resets and the sweeps alone |
| RateLimit.PruningDecidesExactly | apps/api/src/security/rateLimit.ts:24-57 | for every limit and window a key is answered as by a limiter that keeps the whole history, exactly when no check of the key comes before a prune that could have dropped one of its hits |
| RateLimit.PruningDecidesAsFullHistory | apps/api/src/security/rateLimit.ts:24-57 | a clock that does not run backwards is such a run for every key |
| RateLimit.BackwardClockForgets | apps/api/src/security/rateLimit.ts:50-57 | with a clock that runs backwards behind a sweep two checks of one window pass a limit of one |
| RateLimit.WindowsAreBounded | apps/api/src/security/rateLimit.ts:25-41 | in such a run the limiter allows at most limit checks of a key in any window since the last reset of the key |
| RateLimit.AllowedWhileFewer | apps/api/src/security/rateLimit.ts:24-42 | with its checks in order a key is allowed exactly while fewer than limit of its checks were allowed in the window that ends now, and is told how many more would be |
| RateLimit.RetryAdviceIsExact | apps/api/src/security/rateLimit.ts:29-37 | after a refusal, with no other check of the key, a check is allowed after waiting the advised seconds and refused when the wait is shorter by a second or more |
| Utf8.DecodeEncode | apps/agent/src/index.ts:387 | decoding undoes encoding for every text without surrogates |
| Utf8.DecodeSplitsAtNewline | apps/agent/src/index.ts:387-392 | a newline byte splits the decoded text whatever the bytes around it |
| Utf8.ExactExactly | apps/agent/src/index.ts:403 | decoded text encodes to as many bytes as were read exactly when no ill-formed piece is shorter than three bytes |
| Utf8.ReplacesMaximalSubparts | apps/agent/src/index.ts:387 | ill-formed bytes are replaced as section 3.9 of the Unicode Standard recommends: one replacement character for the longest run that begins a character without completing it |
| LogShipper.LogAgent.ShipLogs | apps/agent/src/index.ts:365-409 | one cycle: rotation test, bounded window, whole lines, requests of 500 lines that may fail, and the two copies of the offset |
| LogDelivery.ReadyIs | apps/agent/src/index.ts:384-392 | a cycle has something to ship exactly when its window holds a line end, and ships the lines up to the last one |
| LogDelivery.ValidFileIsExact | apps/agent/src/index.ts:403 | a file of valid text keeps offsets exact, even while its last character is being written |
| LogDelivery.DeliveredAtLeastOnce | apps/agent/src/index.ts:365-409 | over every run with failing requests, failing state writes, restarts and re-enrolment, offsets are line boundaries and every non-blank line before them was delivered, in order |
| LogDelivery.DeliveredExactlyOnce | apps/agent/src/index.ts:365-409 | without failures and re-enrolment every non-blank line before the offset is delivered exactly once |
| ShippedLines.KeptExactly | apps/agent/src/index.ts:391 | visible lines are kept as often as they occur, blank ones not at all |
| ShippedLines.WrittenLinesArriveExactly | apps/agent/src/index.ts:365-409 | successful cycles ship a file of written lines exactly when each line with its line end fits the read window, and deliver its visible lines in order and once |
| ShippedLines.SmoothRunsDeliverTheFile | apps/agent/src/index.ts:365-409 | a run without failures, restarts included, that has reached the end of a written file has delivered exactly its visible lines |
| ShippedLines.RetryShipsTheBatchAgain | apps/agent/src/index.ts:394-404 | a failed cycle moves neither offset and delivers whole requests of 500 lines; the next successful cycle ships the whole batch again |
| ShippedLines.RotationStartsOver | apps/agent/src/index.ts:373-379 | over all cycles after the file became shorter than the offset, the new file is shipped from its start |
| ShippedLines.RotationIsMissedExactly | apps/agent/src/index.ts:373-380 | when the new file is already as long as the offset, the lines before the offset are never shipped: nothing is missing exactly when they are all blank |
| LogDelivery.AdvancesExactly | apps/agent/src/index.ts:384-390 | a successful cycle advances exactly when its window holds a line end |
| LogDelivery.FittingLinesAdvance | apps/agent/src/index.ts:351-353 | with lines that fit the window from the offset on, a successful cycle advances exactly when an ended line waits |
| LogDelivery.EverythingIsShippedExactly | apps/agent/src/index.ts:365-409 | from a line boundary of an exact file some number of successful cycles delivers every ended line behind the offset once and in order, exactly when every such line fits the read window |
| LogDelivery.LongLineSticks | apps/agent/src/index.ts:384-390 | a line longer than the window stops shipping for good |
| LogDelivery.OffsetIsBoundaryExactly | apps/agent/src/index.ts:403 | the new offset is the line end exactly when the shipped bytes have no ill-formed piece shorter than three bytes, and beyond it otherwise |
| LogDelivery.StrayByteShipsTwice | apps/agent/src/index.ts:373-379 | one stray byte moves the offset past the end of the file, which the next cycle takes for a rotation and ships everything again |
| ApplyCycle.NodeAgent.ApplyBundle | apps/agent/src/index.ts:272-320 | one application: unchanged test, files, validation, live file, Squid, remembered hash |
| ApplyCycle.NodeAgent.WriteArtefacts | apps/agent/src/index.ts:219-237 | the files are written in order until one fails |
| ApplyCycle.AnswerExactly | apps/agent/src/index.ts:272-320 | the exact condition on what happened for each of the answers FAILED, VALIDATION_FAILED, APPLIED and an exception; a live file Squid does not take is FAILED |
| ApplyCycle.LeavesExactly | apps/agent/src/index.ts:272-320 | what an application leaves at the live path, in Squid and in both copies of the hash, for every course it can take |
| ApplyCycle.AppliedMeansApplied | apps/agent/src/index.ts:302-320 | APPLIED means that Squid has loaded the offered bundle, that it is live, and that both copies of the hash are its own |
| ApplyCycle.HashesWereTaken | apps/agent/src/index.ts:246-320 | over every run, restarts included, both copies of the hash are those of bundles Squid has taken |
| ApplyCycle.StartsAfresh | apps/agent/src/index.ts:277-278 | after Squid exits, the agent restarts or the node enrols again, no offer is answered UNCHANGED |
| ApplyCycle.RunsAreSound | apps/agent/src/index.ts:246-320 | over every run only validated configurations become live or are loaded, and while Squid runs the remembered hash is that of what it loaded |
| ApplyCycle.UnchangedExactly | apps/agent/src/index.ts:277-278 | UNCHANGED is reported exactly when Squid runs and what it loaded has the offered hash, while a hash is remembered |
| ApplyCycle.UnchangedMeansOffered | apps/agent/src/index.ts:277-278 | UNCHANGED means that the loaded configuration is the offered one once the header lines are taken out, from a bundle with the offered files |
| ApplyCycle.RejectedBundleChangesNothingLive | apps/agent/src/index.ts:294-303 | an application that ends before the live file is written leaves live file, running Squid and hash alone |
| ApplyCycle.LiveIsLoadedExactly | apps/agent/src/index.ts:302-317 | over every run, while Squid runs the live file is that of the loaded bundle exactly unless the last application that wrote it wrote another bundle and Squid did not take it |
| ApplyCycle.FailedReconfigureLeavesLiveFile | apps/agent/src/index.ts:312-314 | after a failed reconfigure the loaded bundle is answered UNCHANGED however often it is offered, while the live file is that of the refused one, until Squid exits |
| ApplyCycle.FilesAreThoseApplied | apps/agent/src/index.ts:284-292 | while no application is cut short the files on the node are those of the bundle applied |
| ApplyCycle.OverwrittenExactly | apps/agent/src/index.ts:225-227 | after another bundle was written the node still holds the files of the first exactly when the two disagree about no path |
| ApplyCycle.RejectedBundleLeavesItsFiles | apps/agent/src/index.ts:284-300 | files are written before validation: after a rejected bundle the applied one is answered UNCHANGED although its files may be gone |
| Lease.AccessLeasePolicy | apps/api/src/services/settings.ts:71-84 | the renewal window is never wider than the lease |
| Lease.AccountTable.Create | apps/api/src/routes/portalOidc.ts:139-170 | creation starts a lease from now, once per person |
| Lease.CreatedAccount | apps/api/src/routes/portalOidc.ts:139-170 | a new account is active, verified, valid for exactly one lease, and its notice is not acknowledged |
| Lease.AccountTable.SignIn | apps/api/src/routes/oidc.ts:481-556 | a refused sign-in disables an active account; an admitted one verifies, renews inside the window and lifts automatic disabling, with the audit entries |
| Lease.RefusalTakesAccess | apps/api/src/routes/oidc.ts:486-492 | in every run that goes on from a refused sign-in the account is not active until its owner is admitted or an administrator enables it |
| Lease.RefusalAuditExactly | apps/api/src/routes/oidc.ts:486-500 | the audit entry of a refusal is written exactly for accounts that were active |
| Lease.LosesAccessExactly | apps/api/src/routes/oidc.ts:481-521 | an active account stops being active exactly by an administrator, a refused sign-in of its owner, or a sweep after its lease; the last two leave it disabled with their reason and otherwise unchanged |
| Lease.BecomesActiveExactly | apps/api/src/routes/oidc.ts:523-546 | an account that is not active becomes active exactly by an administrator or an admitted sign-in of its owner after an automatic disabling |
| Lease.LeftAlone | apps/api/src/services/accessLease.ts:16-39 | sweeps and refusals leave accounts alone that are not active, and sweeps those whose lease reaches the time of the sweep |
| Lease.AccountTable.Sweep | apps/api/src/services/accessLease.ts:16-39 | the sweep disables exactly the active directory accounts whose lease has run out, and records each |
| Lease.AccountTable.Patch | apps/api/src/routes/proxyIdentity.ts:214-242 | a patch of the status overwrites it and clears the reason |
| Lease.AccountTable.Acknowledge | apps/api/src/routes/portalOidc.ts:197-201 | acknowledging stores the moment |
| Lease.LeaseIsBounded | apps/api/src/routes/oidc.ts:523-546 | over every run valid_until is at most one lease after the last verification, and a recorded reason means disabled |
| Lease.ActiveMeansVerified | apps/api/src/services/accessLease.ts:16-22 | right after a sweep every active directory account was verified within the last lease |
| Lease.AdmittedSignInIsCovered | apps/api/src/routes/oidc.ts:523-546 | an admitted sign-in leaves valid_until at or after now, and the account active unless an administrator disabled it |
| Lease.RenewalsAreSpaced | apps/api/src/routes/oidc.ts:526-535 | the k-th and the m-th term of an account begin at least m - k times lease minus window apart |
| Lease.RenewsExactly | apps/api/src/routes/oidc.ts:526-535 | a sign-in begins a new term exactly when it is admitted and the renewal window of the current term is open |
| Lease.AdminDecisionStands | apps/api/src/routes/proxyIdentity.ts:216-229 | over every run an account is disabled without a recorded reason exactly when the last decision about its status was to disable it |
| Lease.ReactivationAuditExactly | apps/api/src/routes/oidc.ts:547-556 | the audit entry "reactivated" is wrong exactly for accounts an administrator had disabled |
| Lease.NoticeOncePerTerm | apps/api/src/routes/portalOidc.ts:80-113 | over every run the notice is due again exactly when the window of the current term has opened and had not at the last acknowledgement, so never again in a term whose open window was acknowledged |
| Lease.RenewalBringsNoticeBack | apps/api/src/routes/portalOidc.ts:100-113 | after a renewal the notice returns exactly when the next window opens, if the window is shorter than the lease |
| CryptEncoding.B64From24Bit | packages/shared/src/crypt/b64.ts:13-21 | the loop emits the low bits six at a time from the least significant |
| CryptEncoding.SymbolsArePositional | packages/shared/src/crypt/b64.ts:13-21 | symbol k stands for the six bits from bit 6k on |
| CryptEncoding.EncodeDigest | packages/shared/src/crypt/b64.ts:27-36 | the loop emits the triples in table order and the tail |
| CryptEncoding.Sha512Table | packages/shared/src/crypt/sha512crypt.ts:19-24 | row r of the SHA-512 table holds the bytes r, r + 21 and r + 42, rotated by one from row to row, and byte 63 comes last |
| CryptEncoding.Md5Table | packages/shared/src/crypt/md5crypt.ts:16-18 | row r of the MD5 table holds the bytes r, r + 6 and r + 12, with byte 5 in place of byte 16, and byte 11 comes last |
| CryptEncoding.Sha512Covers | packages/shared/src/crypt/sha512crypt.ts:19-24 | the SHA-512 table has a place for each of the 64 bytes |
| CryptEncoding.Md5Covers | packages/shared/src/crypt/md5crypt.ts:16-18 | the MD5 table has a place for each of the 16 bytes |
| CryptEncoding.DigestTablesAreInjective | packages/shared/src/crypt/b64.ts:27-36 | with either table digests of its size are determined by their text |
| CryptEncoding.RepeatTo | packages/shared/src/crypt/b64.ts:39-46 | the buffer is the source over and over, cut at the length |
| CryptEncoding.GenerateCryptSalt | packages/shared/src/crypt/index.ts:33-42 | a salt of the length over the alphabet, from random bytes |
| CryptEncoding.SaltIsUnbiased | packages/shared/src/crypt/index.ts:36-39 | each symbol of a salt stands for exactly four byte values |
| CryptDigest.ComputeSha512 | packages/shared/src/crypt/sha512crypt.ts:44-85 | the loops feed the digest with the parts in order and run the rounds |
| CryptDigest.ComputeMd5 | packages/shared/src/crypt/md5crypt.ts:27-59 | the loops feed the digest with the parts in order and run the rounds |
| CryptDigest.RoundInputExactly | packages/shared/src/crypt/sha512crypt.ts:78-84 | odd rounds put the password first and the digest last, even ones the other way around; the salt is left out of every third round and the password of every seventh |
| CryptDigest.BitPartsExactly | packages/shared/src/crypt/sha512crypt.ts:60-62 | the parts for the length of the key are those of its binary digits, from the lowest on and without leading zeros |
| CryptVerify.Sha512Crypt | packages/shared/src/crypt/sha512crypt.ts:40-90 | the hash text: prefix, rounds unless default, clipped salt, encoded digest |
| CryptVerify.Md5Crypt | packages/shared/src/crypt/md5crypt.ts:26-62 | the hash text: prefix, clipped salt, encoded digest |
| CryptVerify.ClampRounds | packages/shared/src/crypt/sha512crypt.ts:92-95 | the clamped count lies within the bounds, and is the default only for the default |
| CryptVerify.ClampIsNearest | packages/shared/src/crypt/sha512crypt.ts:92-95 | no count within the bounds is nearer to the count asked for than the clamped one |
| CryptVerify.VerifyProxyPassword | packages/shared/src/crypt/index.ts:59-80 | the stored text is parsed, recomputed and compared |
| CryptVerify.HashProxyPassword | packages/shared/src/crypt/index.ts:48-56 | a new hash has a salt of the full length of its format, the default rounds, and shows its format |
| CryptVerify.FormatIsKept | packages/shared/src/crypt/index.ts:82-86 | a computed hash shows the format it was made in, and only a hash that shows one is accepted |
| CryptTheorems.ParsedBack | packages/shared/src/crypt/sha512crypt.ts:103-120 | parsing a computed hash gives back its rounds and its salt |
| CryptTheorems.Sha512VerifiesExactly | packages/shared/src/crypt/index.ts:59-80 | for every password, salt and round count a password is accepted exactly when the final digests agree |
| CryptTheorems.Md5VerifiesExactly | packages/shared/src/crypt/index.ts:71-79 | the same for MD5 |
| CryptTheorems.OwnPasswordVerifies | packages/shared/src/crypt/index.ts:48-80 | a hashed password verifies in either format and with every salt |
| CryptCollisions.OnlyOwnPasswordVerifies | packages/shared/src/crypt/sha512crypt.ts:40-90 | a SHA-512 hash accepts exactly the password it was made from, as long as the digest does not collide on what the two computations feed it in the start digest and in each round |
| CryptCollisions.OnlyOwnPasswordVerifiesMd5 | packages/shared/src/crypt/md5crypt.ts:26-62 | the same for MD5, as long as the last rounds do not collide |
| CryptTheorems.LongSaltsAreCut | packages/shared/src/crypt/sha512crypt.ts:45 | what follows sixteen characters of a SHA-512 salt, or eight of an MD5 salt, changes nothing |
| CryptTheorems.WrittenCountVerifiesExactly | packages/shared/src/crypt/sha512crypt.ts:103-120 | a stored hash with a written round count and the right digest is accepted exactly when the count is canonical, within bounds and not the default |
| CryptTheorems.WrittenDefaultNeverVerifies | packages/shared/src/crypt/sha512crypt.ts:41-42 | a stored hash that writes rounds=5000 is never accepted |

## Left out

- Real Squid, DNS resolution for `dst`, helper processes, LDAP and the generated Perl: leaf ACLs take the meaning of the engine's matchers, so whether Squid includes the end minute of a window is outside the model; a time ACL without day letters is taken to hold on every day.
- Windows that cross midnight: the engine accepts them and `Engine.MatchesSchedule` models them, but the compiler theorems ask for windows that start before they end.
- Exact configuration text: comments, quoting, `refresh_pattern` and the text of ACL lines; rendering is a parameter of `ConfigurationHash`, which models the header line and the squeezing of blank lines only.
- Generated files of the compiler (password file, bind secrets, the combined helper): they are opaque files in `ConfigurationHash` and `ApplyCycle`.
- `localeCompare`: rules, providers and files are sorted by code unit order instead; both are total orders on the keys.
- Case folding and trimming are ASCII, except for the blank lines of the log shipper, which use the full list of white space.
- `Number()` on a stored round count reads decimal digits with an optional sign and the empty text; other spellings (exponents, hexadecimal, surrounding blanks) count as malformed.
- Round counts that are not integers: `NaN` and infinities would select the default count but write it out, which `CryptTheorems.WrittenDefaultNeverVerifies` shows is never accepted.
- Strings of the original are UTF-16; the model uses code points, so unpaired surrogates in passwords do not occur.
- Digest functions, random bytes and the constant time comparison's timing: parameters, or equality of bytes.
- Short reads of the log file, and the log file being absent (which behaves like an empty file).
- Ownership of files on the node: a failing `chown` is only logged by the agent.
- A live configuration that is written in part, and a Squid process that outlives the agent that started it.
- Wording of findings, warnings, notices, audit payloads and access profile entries: their codes and the rules they name are modelled.
- Deletion of proxy accounts, password changes, changing lease settings during a run, and the cache of settings: they would add steps that start afresh.
- HTTP routing, request validation, SQL text, transactions, sign-in protocols and tokens, the web application and the interface package.
- Interleavings inside one request handler: each handler, sweep and cycle is one atomic step.
- Control plane passwords (scrypt), the strength policy of passwords, traffic statistics, log parsing, migrations and roles: they would only add easy members.
