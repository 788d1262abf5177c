# Troubleshoot, modelled in Dafny

This project models the algorithms and protocols inside the Troubleshoot collectors and analyzers, and proves what
they keep on every input, every run and every schedule. Each module is named after what it models:

| file | what it models |
|---|---|
| `Ipv4.dfy`, `SubnetSearch.dfy` | 32-bit prefix blocks, and the search for a block that no system route overlaps |
| `ProcNetRoute.dfy`, `SubnetAvailable.dfy` | the kernel's route table, parsed and printed, and the subnet collector from that text to its status |
| `BackgroundIops.dfy`, `BackgroundAdmission.dfy`, `WorkFiles.dfy` | the background IOPS jobs as a transition system: jobs of two pools, a collector that drains them, a clock |
| `Handshake.dfy` | the load balancer check: any number of hosts, each a client and a server, and a balancer that routes at will |
| `JsonCompare.dfy`, `Sorting.dfy` | arrays compared after sorting both in place |
| `OsCondition.dfy` | the host OS condition, compiled to the text of a version range and read back from it |
| `SelectorSplit.dfy` | one label selector split into several, over Go slices that share an array |
| `ClusterMerge.dfy`, `CustomResources.dfy` | merging cluster resource collectors, and grouping custom resources into files |
| `RemoteMerge.dfy` | merging what remote collectors bring back from the nodes |
| `NodeResources.dfy`, `NodeConditions.dfy` | aggregates over nodes, the filters that choose the nodes, and what the words of both mean |
| `Engine.dfy` | the books of the analysis engine |
| `BundleComparator.dfy` | the books of the bundle comparison script |
| `CollectorOrder.dfy`, `KernelModules.dfy`, `DnsLog.dfy` | collector dedup and order, kernel module outcomes, the DNS script's log |
| `Text.dfy`, `Options.dfy`, `Sums.dfy` | string operations of Go's library, missing values, sums |

`dafny verify dfyconfig.toml` checks all of it.

## How the models are built

A loop that updates variables in the source is a method with a loop here, proved against a specification function; an
object whose methods update it is a class. The two concurrent protocols are functions from a state and a step to the
next state, and a schedule is any list of steps, so a statement about every schedule is one about every interleaving.
The clock may be set to any value, backwards included, and every system call may fail.

Four libraries are taken by their meaning. `cidr.AddressRange`, `cidr.NextSubnet` and `net.IPNet.Contains` are first
and last address, the block after the last address (0.0.0.0 follows 255.255.255.255), and membership (CIDR blocks are
those of section 3.1 of RFC 4632); a mask that is not that of a prefix length has no size, so its network's first and
last address are the network's own, and a network without an address makes it panic. `semver.ParseRange` is a
disjunction of conjunctions over the operators `=`, `==`, `!=`, `<`, `<=`, `>`, `>=`. `sort.Slice` permutes, orders
when the comparison is a weak order, and is insertion sort up to 12 elements. A JSON value reported for a node decodes
to a map of strings, to a nil map, or not at all.

## Where the code does not meet what it is for

The models keep the code as it is. For each of these the exact condition is proved.

- The subnet search is right for every route table exactly when it starts with the range's first block
  (`SearchIsExactIff`): a range that is not given by its network address may start later (`OtherAddressMisses`,
  `OtherAddressMissesOne`). A range /0 without a free block is searched for ever (`IsASubnetAvailableInCIDR`).
- Reading the route table panics exactly when it reaches a line of four characters or one with a short address column
  (`PanicsIff`, `LinePanicsIff`, `OneByteDestinationPanics`). The route of an interface whose name begins with `Iface`
  is dropped as a heading, so a block that it overlaps can be reported free (`RoundTrip`, `ReadPrintedTable`). A size
  out of range, or a range that is not two pieces, is reported as neither data nor error, because the code wraps a nil
  error (`Collect`).
- A host of the load balancer check that has lost its server's only response can never connect, unless a host whose
  tokens can be confused with its own may still answer it; any other host still can (`LostResponseIsFinal`,
  `OthersCanStillConnect`). "Connected" can be trusted in every run exactly when no two hosts can be confused, and
  distinct tokens can be, as the zeroed read buffer can complete a token (`PromiseIff`, `RecognisesShifted`,
  `DistinctTokensCanBeConfused`).
- Arrays are compared as multisets exactly when their elements are distinguishable (`ComparedRightlyIff`); 1 and "1"
  are not, nor are 2, 10 and "15" (`OneIsSortedApart`, `FifteenIsSortedApart`).
- A kernel clause such as `centos-8.2-kernel` is out of reach exactly for hosts with a dash or a space in platform or
  version (`KernelClauseIsUsable`).
- Splitting the selector without requirements, and only that one, loses what it matched: it matches everything, and
  its split nothing (`NothingIsLostIff`).
- Merging cluster resource collectors changes what is asked for unless an exact condition on the lists holds: empty
  lists and lists without names can turn into "all" or lose what they mean alone, and an empty name, which asks for no
  custom resource, turns into one that asks for all (`MergingPartsIsMergingAll`, `MergeKeepsCoverage`,
  `EmptyNameGainsCustomResources`).
- The remote merge panics exactly when the first report of a node is `null` and a later one holds a file (`PanicsIff`,
  `NullThenFilePanics`).
- A taint ends the node filters early, so a threshold is kept exactly without one, or when nothing is kept at all
  (`FilterHoldsIff`, `TaintHidesLaterFilters`, `TaintKeepsANodeBelowTheThreshold`). A condition on nodes whose first
  word is no call counts the nodes, whatever that word says (`BareWordCounts`), and a `nodeCondition` with `!=` asks
  for equality (`ConditionOperatorIsIgnored`).
- The kernel module operators `=` and `!=` may both fail (`BothFailIff`).
- A `resolv.conf` without markers comes back from the DNS log exactly when it is empty or ends in a newline, and none
  of its lines ends in a carriage return; a last line without a newline is lost (`FileComesBackIff`,
  `UnterminatedFile`, `LogRoundTrip`).

## Model

| member | source | states |
|---|---|---|
| `Ipv4.NestedOrDisjoint` | pkg/collect/host_subnetavailable.go:264-278 | Two prefix blocks with a common address are nested: the one with the longer prefix lies wholly inside the other |
| `Ipv4.NextSubnetWraps` | pkg/collect/host_subnetavailable.go:232 | The block after block k is block k + 1, and block 0 after the topmost one |
| `Ipv4.BlocksFillTheSpace` | pkg/collect/host_subnetavailable.go:205-208 | The blocks of one length, as many as there are, hold exactly the 2^32 addresses |
| `SubnetSearch.NetOverlapsIsExact` | pkg/collect/host_subnetavailable.go:264-278 | netOverlaps is true if and only if the two address sets meet, whatever addresses inside their blocks the networks are written with |
| `SubnetSearch.PassedOverIff` | pkg/collect/host_subnetavailable.go:244-247 | A block is free of a route exactly when the route is 0.0.0.0/0 or is not in the way |
| `SubnetSearch.FreeOfParts` | pkg/collect/host_subnetavailable.go:242-259 | A block is free of a table exactly when it is free of each of its parts |
| `SubnetSearch.OneRouteMore` | pkg/collect/host_subnetavailable.go:237-262 | A route 0.0.0.0/0 anywhere in a table changes no answer, and any other route takes from the free blocks exactly those that it is in the way of |
| `SubnetSearch.FindFirstOverlappingRoute` | pkg/collect/host_subnetavailable.go:237-262 | Returns the first route that is no default route and in the way of the block, none exactly when the block is free of all of them; a route with a prefix mask is in the way exactly when it shares an address |
| `SubnetSearch.IsASubnetAvailableInCIDR` | pkg/collect/host_subnetavailable.go:188-234 | Each size error in its case; otherwise an answer is true exactly when some offered block is free. A range /s with s >= 1 is decided after at most 2^(d-s) blocks, in the round that leaves the range if not before; /0 is decided exactly when a free block exists, and otherwise goes on for ever |
| `SubnetSearch.SearchFrom` | pkg/collect/host_subnetavailable.go:213-233 | The loop itself, over every route table: sound, complete over the offered blocks, and ending as above, through the wrap after 255.255.255.255 |
| `SubnetSearch.InsideRange` | pkg/collect/host_subnetavailable.go:219 | A block of length d lies in the range exactly when its first and last address do, exactly when its index lies in one interval |
| `SubnetSearch.OfferedIsNth` | pkg/collect/host_subnetavailable.go:213-233 | Every offered block is among the first 2^(d-s) that the search looks at |
| `SubnetSearch.NthIsOffered` | pkg/collect/host_subnetavailable.go:213-233 | Every block that the search looks at before it leaves the range is offered |
| `SubnetSearch.AdvanceOut` | pkg/collect/host_subnetavailable.go:213-233 | After the last block of a range with s >= 1 the next one lies outside the range, even when the range ends at the topmost address and the next block is block 0 |
| `SubnetSearch.SearchIsExactIff` | pkg/collect/host_subnetavailable.go:205-234 | For every route table the search decides whether any free /d block lies in the range, exactly when it starts with the range's first block: the range is /0, or its address masked to /d is its address masked to its own length |
| `SubnetSearch.FrontByIndex` | pkg/collect/host_subnetavailable.go:205-208 | The same condition by index: the block of the range's address is the first of the range's blocks, and never one before it |
| `SubnetSearch.NetworkAddressIsExact` | pkg/collect/host_subnetavailable.go:184-234 | A range given by its network address meets that condition, so the search decides whether any free /d block lies in it |
| `SubnetSearch.OtherAddressMisses` | pkg/collect/host_subnetavailable.go:205-208 | For every other range there is a route table with which a free block is missed |
| `SubnetSearch.OtherAddressMissesOne` | pkg/collect/host_subnetavailable.go:205-208 | A concrete range where it is wrong: 0.0.0.128/24 with a route 0.0.0.128/25 has 0.0.0.0/25 free and is reported as having none |
| `ProcNetRoute.ParseProcNetRoute` | pkg/collect/host_subnetavailable.go:123-182 | The routes of all lines in order, or the error or the index panic of the first line that is not readable |
| `ProcNetRoute.RoundTrip` | pkg/collect/host_subnetavailable.go:123-182 | Printing a route list in the 11-column tab format with byte-reversed hexadecimal columns and parsing it gives the same routes in the same order, exactly when no interface name begins with Iface |
| `ProcNetRoute.ReadPrintedTable` | pkg/collect/host_subnetavailable.go:123-182 | Of any printed table all routes are read but those of such interfaces |
| `ProcNetRoute.ParsePrintedRow` | pkg/collect/host_subnetavailable.go:130-178 | One printed row is parsed to its route, or skipped as a heading when its interface name begins with Iface, whatever text stands in the ignored columns |
| `ProcNetRoute.LowestByteFirst` | pkg/collect/host_subnetavailable.go:139-163 | A column is written from the last number of the address to the first |
| `ProcNetRoute.ColumnOfAnAddress` | pkg/collect/host_subnetavailable.go:139-143 | For example 192.168.0.0, which stands as 0000A8C0 |
| `ProcNetRoute.ColumnsAreRead` | pkg/collect/host_subnetavailable.go:130-178 | Of 11 readable columns, whatever stands in the others, the interface, the three addresses and the metric are read from columns 0, 1, 2, 7 and 6; a metric wraps to 32 bits |
| `ProcNetRoute.LineIsSkippedIff` | pkg/collect/host_subnetavailable.go:126-132 | A line is skipped exactly when it is shorter than four characters or begins with Iface |
| `ProcNetRoute.LineFailsIff` | pkg/collect/host_subnetavailable.go:134-168 | Each error in its case: a wrong number of columns, the first address column that does not decode with none short before it, a metric that is no number behind three addresses that are read |
| `ProcNetRoute.PanicsIff` | pkg/collect/host_subnetavailable.go:125-179 | Reading a table panics exactly when one of its lines does and every line before it is skipped or read |
| `ProcNetRoute.LinePanicsIff` | pkg/collect/host_subnetavailable.go:126-155 | A line panics exactly when it has four characters, or is no heading and has 11 columns of which the destination, the gateway or the mask is an even number of hexadecimal digits below eight while those before it are eight or more |
| `ProcNetRoute.ShortDestinationPanics` | pkg/collect/host_subnetavailable.go:139-143 | Any line of 11 words with a short destination panics |
| `ProcNetRoute.OneByteDestinationPanics` | pkg/collect/host_subnetavailable.go:139-143 | A concrete such line, with the destination 00 |
| `ProcNetRoute.FourCharactersPanic` | pkg/collect/host_subnetavailable.go:126-130 | A table with a line of exactly four characters that the lines before it let be reached panics |
| `SubnetAvailable.PrefixOfMask` | pkg/collect/host_subnetavailable.go:77 | A prefix length and its mask determine each other |
| `SubnetAvailable.MaskHoldsTheBlock` | pkg/collect/host_subnetavailable.go:77 | A network with the mask of a prefix length holds exactly the addresses of its block |
| `SubnetAvailable.AgreeIsBitwise` | pkg/collect/host_subnetavailable.go:264-278 | Two addresses agree under a mask exactly when they have the same bit wherever the mask has a one |
| `SubnetAvailable.RouteIsInTheWayIff` | pkg/collect/host_subnetavailable.go:237-278 | A parsed route is in the way of a block, as the search sees it, exactly when an address of the block agrees with the route's own under its mask, if that is the mask of a prefix length; else when an end of the block does or the route's own address lies in the block |
| `SubnetAvailable.PrintedMaskIsRead` | pkg/collect/host_subnetavailable.go:151-175 | A printed row with the mask of a prefix length, unless it is skipped as a heading, is read as the network of that length |
| `SubnetAvailable.Collect` | pkg/collect/host_subnetavailable.go:53-91 | From the text of the table to the status: table errors and panics, the size checks that return neither data nor error because they wrap a nil error, the error or panic for a range address that does not parse, and the status that says whether an offered block is free. A route whose mask is not that of a prefix length is in the way when it holds an end of the block or has its own address in it |
| `BackgroundIops.WindowsNeverExceedTheLimit` | pkg/collect/host_filesystem_performance_linux.go:137-206 | In every interleaving each window counter equals the admissions stamped with that second, and is at most the limit (zero for a negative limit) |
| `BackgroundIops.AnySecondAdmitsTwiceTheLimit` | pkg/collect/host_filesystem_performance_linux.go:137-206 | Any one-second interval, however aligned and however the clock moves, holds at most twice the limit of admissions |
| `BackgroundAdmission.OnlyFullWindowsTurnAway` | pkg/collect/host_filesystem_performance_linux.go:196-203 | In every reachable state the window that a sleeping job was turned away from is full: its counter is the limit, or zero for a negative one |
| `BackgroundAdmission.Admission` | pkg/collect/host_filesystem_performance_linux.go:189-205 | While the window of a second has room, every job in its loop can be admitted in that second, wherever it is and whoever holds the mutex |
| `BackgroundAdmission.RoomAdmits` | pkg/collect/host_filesystem_performance_linux.go:189-205 | So from every reachable state before cancellation some schedule admits the job in that second |
| `BackgroundAdmission.NoRoomTurnsAway` | pkg/collect/host_filesystem_performance_linux.go:196-203 | Without room, in every schedule from there on, the window stays full and the job is turned away from it |
| `BackgroundAdmission.WindowCanBeFilled` | pkg/collect/host_filesystem_performance_linux.go:137-206 | From there the window can be filled up to the limit by any one job in its loop |
| `BackgroundAdmission.BoundIsAttained` | pkg/collect/host_filesystem_performance_linux.go:137-206 | The bound on a window is reached, for any second, when there is a read job |
| `BackgroundAdmission.OneOperationPerAdmission` | pkg/collect/host_filesystem_performance_linux.go:205-220 | The admissions are the operations performed, those given up for lack of random bytes, and one for each job about to perform its own |
| `BackgroundAdmission.PreparationOutcome` | pkg/collect/host_filesystem_performance_linux.go:169-187 | A job whose file was created gets into its loop, whatever becomes of resizing it for writes, but not without what is to be read from it |
| `BackgroundAdmission.WaitsIff` | pkg/collect/host_filesystem_performance_linux.go:144-225 | A job that is started and not finished waits for nothing but the mutex, while another job holds it, and room in the channel |
| `BackgroundAdmission.OpeningOutcome` | pkg/collect/host_filesystem_performance_linux.go:153-162 | A job that cannot create its file leaves none, calls wg.Done and goes on to send on done |
| `BackgroundIops.EachJobSignalsAtMostOnce` | pkg/collect/host_filesystem_performance_linux.go:144-225 | No job calls wg.Done or sends on done twice, the WaitGroup is never negative, the mutex has at most one holder |
| `BackgroundIops.BarrierHolds` | pkg/collect/host_filesystem_performance_linux.go:187-225 | backgroundIOPS returns only when each of its jobs has prepared its file or failed |
| `BackgroundIops.SendersNeverBlock` | pkg/collect/host_filesystem_performance_linux.go:57-61 | A job about to send on done always finds room in the channel |
| `BackgroundIops.NeverDeadlocked` | pkg/collect/host_filesystem_performance_linux.go:57-83 | Until the collector has returned some goroutine can move, the end of a sleep being a move |
| `BackgroundIops.DrainDescends` | pkg/collect/host_filesystem_performance_linux.go:62-67 | After cancellation every step but the clock's brings the end closer |
| `BackgroundIops.DrainIsBounded` | pkg/collect/host_filesystem_performance_linux.go:62-67 | After cancellation the number of steps of any schedule is bounded, clock steps aside |
| `BackgroundIops.DrainCompletes` | pkg/collect/host_filesystem_performance_linux.go:62-67 | From every reachable state after cancellation the collector can still return |
| `BackgroundIops.ReturnedIsCleanedUp` | pkg/collect/host_filesystem_performance_linux.go:57-67 | When the drain has ended each job has called wg.Done once and sent once, no work file is left and the channel is empty |
| `BackgroundIops.JobStepInv` | pkg/collect/host_filesystem_performance_linux.go:147-222 | Every step of every job keeps the invariant of its pool |
| `WorkFiles.FileNamesDiffer` | pkg/collect/host_filesystem_performance_linux.go:148-152 | Two jobs never share a work file |
| `Handshake.RecognisesShifted` | pkg/collect/host_network.go:157-166 | A 1024-byte zeroed buffer holds a token exactly when the token is a tail of the message followed by zeros |
| `Handshake.DistinctTokensAreNotConfusable` | pkg/collect/host_network.go:94-95 | Distinct request tokens that do not end in a zero byte are never taken for each other |
| `Handshake.ConnectedIsGenuine` | pkg/collect/host_network.go:91-141 | With any number of hosts, arbitrary routing, timeouts and failures, a host that returns connected was answered by its own server, which read its request token on a connection this host made |
| `Handshake.ServersAnswerAtMostOnce` | pkg/collect/host_network.go:96-107 | Each server writes its response successfully at most once in a run |
| `Handshake.LostResponseIsFinal` | pkg/collect/host_network.go:96-107 | No schedule connects a host that is not connected and that no host can connect any more: neither its own server nor one of a host it can be confused with may still answer or is at the connection it holds |
| `Handshake.CanConnectAlone` | pkg/collect/host_network.go:96-107 | Without confusion that is: its server's one response was written on a connection other than the one it waits on, or the host has returned |
| `Handshake.OthersCanStillConnect` | pkg/collect/host_network.go:111-141 | The condition is exact: every other host can still be connected by some schedule |
| `Handshake.ConfusionBreaksThePromise` | pkg/collect/host_network.go:164-166 | With confusable tokens some run connects a host that its own server has not answered |
| `Handshake.PromiseIff` | pkg/collect/host_network.go:91-141 | Over all runs every connected host was answered by its own server exactly when no two hosts can be confused |
| `Handshake.DistinctTokensCanBeConfused` | pkg/collect/host_network.go:157-166 | Four tokens, all distinct, with which two hosts can be confused |
| `Handshake.NextInv` | pkg/collect/host_network.go:74-214 | Every step of every host keeps the invariant that ties requests, responses and states together |
| `Handshake.StatusIff` | pkg/collect/host_network.go:111-141 | After every schedule a host has returned connection refused, another error or a timeout exactly when the schedule holds its refused dial, its dial with another error or the end of its time; with none of these it is connected or has not returned: a dial that times out goes on |
| `Handshake.AttemptOutcome` | pkg/collect/host_network.go:178-214 | What ends an attempt leaves the host connected, exactly when it has read a reply that it takes for its server's, or dialling again |
| `Handshake.ServiceOutcome` | pkg/collect/host_network.go:144-176 | What a server reads or fails to read or write brings it back to accepting, unless it has read its own request, which it then answers |
| `Handshake.ReturnedHostsAreNotReached` | pkg/collect/host_network.go:74-141 | From the return of a check on, in every schedule, no dial reaches the host and it accepts no connection |
| `JsonCompare.ScalarsAreOrdered` | pkg/analyze/json_compare.go:232-253 | The order function is a total weak order on arrays of only numbers, only strings or only booleans |
| `JsonCompare.SortedIsUnique` | pkg/analyze/json_compare.go:225-229 | Under such an order two sorted arrays with the same elements are the same |
| `JsonCompare.OneSortedFormIffTotal` | pkg/analyze/json_compare.go:212-229 | Arrays of given elements have at most one sorted form exactly when the order tells any two different elements apart |
| `JsonCompare.OrderedIffDistinguishable` | pkg/analyze/json_compare.go:232-253 | The order is a total weak order on the elements of an array, mixed or not, exactly when different ones are printed differently, unless both are numbers, and no text stands between those of two numbers printed the wrong way round |
| `JsonCompare.TextsAreOrdered` | pkg/analyze/json_compare.go:251-252 | On arrays without numbers, such as those of objects, arrays and nulls, the order is always weak, and total exactly when different elements are printed differently |
| `JsonCompare.ComparedRightlyIff` | pkg/analyze/json_compare.go:212-229 | Arrays of the given elements are sorted alike whenever they hold the same elements, exactly when the elements are distinguishable; if not, two arrays of two or three of them are sorted apart |
| `JsonCompare.OneIsSortedApart` | pkg/analyze/json_compare.go:251-252 | The number 1 and the text 1, in two orders: the same elements, sorted apart and so reported as different |
| `JsonCompare.FifteenIsSortedApart` | pkg/analyze/json_compare.go:232-253 | The same for 2, 10 and the text 15, whose order is a circle |
| `JsonCompare.WordsAreSortedApart` | pkg/analyze/json_compare.go:251-252 | The same for null, true and false and the texts they are printed as |
| `JsonCompare.CompareSortedSlices` | pkg/analyze/json_compare.go:212-223 | True implies equal multisets; true exactly when they are equal, if the elements are distinguishable or of one scalar type; up to 12 elements true exactly when insertion sort gives the same; both arrays are only permuted |
| `JsonCompare.DeepEqualWithSlicesSorted` | pkg/analyze/json_compare.go:194-209 | Values of different kinds differ, arrays are compared as multisets when their elements are distinguishable, anything else as it is; the arrays are only permuted |
| `Sorting.SortSlice` | pkg/analyze/json_compare.go:225-229 | Sorting in place permutes the array, orders it when the comparison is a weak order on its elements, and is insertion sort up to 12 elements |
| `OsCondition.CheckCondition` | pkg/analyze/host_os_info.go:52-144 | The loop that builds the range text, the range read back from that text, and the platform rules come to Verdict: the errors in source order, else whether the version that the condition is about meets the clauses |
| `OsCondition.BuildExpression` | pkg/analyze/host_os_info.go:70-100 | The loop over the clauses builds the text of the compiled words or stops with the first error; its measure drops by a clause each round |
| `OsCondition.CompiledReads` | pkg/analyze/host_os_info.go:80-105 | Reading the compiled words gives a range exactly when every operator is known, and the range accepts a version exactly when the clauses do |
| `OsCondition.ExpressionReads` | pkg/analyze/host_os_info.go:102-105 | The same of the text: joined by spaces and split again it keeps its meaning, for every version |
| `OsCondition.AndBindsTighter` | pkg/analyze/host_os_info.go:89-99 | A condition holds of a version exactly when all clauses of some group, from one or-sign to the next, hold of it |
| `OsCondition.NoErrorIffWellFormed` | pkg/analyze/host_os_info.go:71-99 | No error arises before the range is parsed exactly when every version parses and every clause after the first has an and-sign or an or-sign |
| `OsCondition.FirstErrorIsFirst` | pkg/analyze/host_os_info.go:71-99 | The error is that of the first clause that has one: its version, or else its connective |
| `OsCondition.ImproperIsAnError` | pkg/analyze/host_os_info.go:52-105 | A condition of fewer than three words, of a number that three does not divide, with a faulty clause or with an unknown operator gives its own error |
| `OsCondition.OperatorsMean` | pkg/analyze/host_os_info.go:102-105 | Each of the seven operator words by what it says of two versions, which are ordered by major, then minor, then patch number |
| `OsCondition.OneClauseMeans` | pkg/analyze/host_os_info.go:71-105 | A condition of one clause holds of a version exactly when its operator word does |
| `OsCondition.TwoClausesMean` | pkg/analyze/host_os_info.go:71-105 | Of two clauses both must hold behind an and-sign, one of them behind an or-sign |
| `OsCondition.PlatformWordIsAboutPlatformVersion` | pkg/analyze/host_os_info.go:133-139 | A condition on the platform or its family says what it does of the platform version, or the error about it, whatever the kernel is |
| `OsCondition.KernelVersionIsAboutKernel` | pkg/analyze/host_os_info.go:107-118 | One on kernelVersion says it of the kernel version; only if that fails, and the platform or its family is itself named so, of the platform version |
| `OsCondition.KernelClauseIsAboutKernel` | pkg/analyze/host_os_info.go:119-132 | A kernel clause says it of the kernel version for the host's own clause, and fails for any other |
| `OsCondition.OtherWordFails` | pkg/analyze/host_os_info.go:107-143 | A condition on a word that names nothing of the host fails |
| `OsCondition.NamesKernelIff` | pkg/analyze/host_os_info.go:119-122 | The words that name a kernel are those of the form a-b-kernel without further dashes |
| `OsCondition.ReadPrintedVersion` | pkg/analyze/host_os_info.go:76 | A printed version reads back as itself, holds no space and is no operator |
| `OsCondition.KernelClauseIsUsable` | pkg/analyze/host_os_info.go:59-132 | Some condition asks for a host's kernel by the host's own clause exactly when neither its platform nor its platform version holds a dash or a space |
| `OsCondition.KernelClauseNamesKernel` | pkg/analyze/host_os_info.go:119-122 | The clause names a kernel exactly when neither holds a dash |
| `ClusterMerge.ClusterResources.Merge` | pkg/collect/cluster_resources.go:55-101 | The collector's list becomes the merge of all lists and it is the only one returned |
| `ClusterMerge.MergedIsAllOrNamed` | pkg/collect/cluster_resources.go:60-98 | The result asks for everything exactly when a list is nil or holds an empty name or no list names anything; else it names exactly the union |
| `ClusterMerge.MergedMeans` | pkg/collect/cluster_resources.go:60-98 | The same, said of the lists alone |
| `ClusterMerge.OrderDoesNotMatter` | pkg/collect/cluster_resources.go:55-101 | The result does not depend on the order of the collectors or on repetitions |
| `ClusterMerge.MergingPartsIsMergingAll` | pkg/collect/cluster_resources.go:55-101 | Merging merged parts equals merging everything, except exactly when some part holds only empty lists while the whole names namespaces and no list of it asks for all |
| `ClusterMerge.MergeKeepsCoverage` | pkg/collect/cluster_resources.go:55-141 | For kinds listed by namespace and for custom resources, in any cluster: the merged collector asks for exactly the namespaces that the separate ones would, exactly when, if namespaces are named and no list asks for all, an empty list among them stands only for named ones; else, when the named ones are among those a missing list stands for, and are all of these unless some list is missing or empty |
| `ClusterMerge.WhatIsAsked` | pkg/collect/cluster_resources.go:104-141 | What one list asks for: what it names, or everything by an empty name for kinds listed by namespace; a missing or empty one for the namespace that the collectors run in, or, in none, for those that could be listed |
| `ClusterMerge.EmptyNameGainsCustomResources` | pkg/collect/cluster_resources.go:68-85 | A list of only the empty name asks for no custom resource, merged it asks for those of every namespace |
| `ClusterMerge.Listing` | pkg/collect/cluster_resources.go:87-96 | The names of the result are strictly sorted: each of the set once |
| `ClusterMerge.SortedListingIsUnique` | pkg/collect/cluster_resources.go:94 | A set of names has one strictly sorted listing |
| `ClusterMerge.SortedNames` | pkg/collect/cluster_resources.go:87-94 | Collecting the keys in any order and sorting them gives that listing |
| `CustomResources.Crs` | pkg/collect/cluster_resources.go:1306-1388 | The loops give the files and the errors of AllFiles and Errors |
| `CustomResources.GroupByNamespace` | pkg/collect/cluster_resources.go:1355-1368 | Each group holds the objects of its namespace in listing order, and an error is kept exactly when some object has no readable namespace |
| `CustomResources.GroupKeepsEveryObject` | pkg/collect/cluster_resources.go:1358-1368 | Each object is in its group at the place after those of its namespace listed before it |
| `CustomResources.GroupHoldsNothingElse` | pkg/collect/cluster_resources.go:1358-1368 | Each place of a group comes from one listed object of that namespace |
| `CustomResources.AllFilesExact` | pkg/collect/cluster_resources.go:1306-1388 | A file is stored under a key exactly when the key is that of a listed definition, cluster-scoped or with a requested namespace, and the file holds its non-empty group |
| `CustomResources.ErrorsAre` | pkg/collect/cluster_resources.go:1306-1370 | A definition's name is among the errors exactly when it could not be listed, or it is namespaced and some object has no readable namespace |
| `CustomResources.KeysNeverCollide` | pkg/collect/cluster_resources.go:1380-1381 | Keys of different definitions, namespaces or formats differ |
| `CustomResources.NamespaceFilesExact` | pkg/collect/cluster_resources.go:1375-1386 | The loop over requested namespaces stores exactly the non-empty requested groups, once each |
| `CustomResources.StoredIffRequested` | pkg/collect/cluster_resources.go:1375-1386 | A namespace's resources are stored exactly when it is requested by its own name and has some: an empty name stands for no other |
| `RemoteMerge.CollectRemote` | pkg/collect/collect.go:139-196 | Panics exactly when the first report of some node is null and a later one holds a file; else each node's entry is the fold of the collectors' results in their order, with the progress events, and the errors reported exactly when an entry cannot be merged |
| `RemoteMerge.LastVersionOfEveryFile` | pkg/collect/collect.go:167-192 | When all results decode as objects, a node holds exactly the files that some collector reported, each as the last collector that did |
| `RemoteMerge.FirstReportDecides` | pkg/collect/collect.go:167-192 | The first report of a node decides what becomes of it: garbage stays as it is, null stays null or panics, an object stays an object |
| `RemoteMerge.LastVersionOfReadable` | pkg/collect/collect.go:167-192 | In the last case, whatever else was reported, the node holds exactly the files of its readable reports, each in its last version |
| `RemoteMerge.NodeFailsIff` | pkg/collect/collect.go:169-187 | A report cannot be merged exactly when a first report is there and one of the two does not decode; the error names the older one first |
| `RemoteMerge.ProgressIsComplete` | pkg/collect/collect.go:139-165 | The events of a run are these and no others: each collector is running with those before it completed, then completed or failed with itself counted, an error beside a failure |
| `RemoteMerge.ProgressIsOrdered` | pkg/collect/collect.go:139-165 | One collector after the other, running first, completed or failed last |
| `RemoteMerge.PanicsIff` | pkg/collect/collect.go:167-192 | A node's entry panics exactly when its first report is null and a later one holds a file, whatever collectors report in between |
| `RemoteMerge.NullThenFilePanics` | pkg/collect/collect.go:169-181 | The bytes null for a node followed by a file for it write to a nil map, whatever comes before and after |
| `RemoteMerge.RunRemote` | pkg/collect/host_collector.go:185-214 | Fails exactly when some node fails; else the union of the results in their order of arrival |
| `RemoteMerge.ScheduleIsIrrelevantIff` | pkg/collect/host_collector.go:205-211 | The output is the same for every order of arrival exactly when no two nodes report different bytes under one key |
| `RemoteMerge.UnionHolds` | pkg/collect/host_collector.go:205-211 | The union has exactly the reported keys, each with the bytes of a node that reported it |
| `RemoteMerge.LastResultWins` | pkg/collect/host_collector.go:205-211 | These are the bytes of the last result in order of arrival that has the key |
| `RemoteMerge.MapCollectorResultToOutput` | pkg/collect/host_collector.go:216-246 | The output is the input: the branch that merges is never taken |
| `SelectorSplit.SplitTroubleshootSecretLabelSelector` | internal/specs/specs.go:33-66 | Over slices that may share their array, with any capacity growth, the selectors returned are those of SplitOf |
| `SelectorSplit.SplitSelects` | internal/specs/specs.go:52-63 | The selectors select exactly what meets every other requirement and at least one troubleshoot requirement, and find an object once for each one it meets |
| `SelectorSplit.NothingIsLostIff` | internal/specs/specs.go:52-63 | Everything the selector matched is still selected exactly when the selector has a requirement: the empty one matches everything and is split into nothing |
| `SelectorSplit.OneRequirementAddsNothing` | internal/specs/specs.go:52-63 | With at most one troubleshoot requirement exactly the same objects are selected |
| `SelectorSplit.SplitOnce` | internal/specs/specs.go:33-66 | Splitting a returned selector again gives it back |
| `SelectorSplit.TwoKeysAreSplit` | internal/specs/specs.go:42-49 | The two keys that are split apart, by name: every other stays with each of them |
| `SelectorSplit.OperatorsRelate` | internal/specs/specs.go:33-66 | How the operators relate: two pairs of opposites, and a label in a set is a label |
| `SelectorSplit.Append` | internal/specs/specs.go:60 | append keeps the slice it is given, and shares its array exactly when there is spare capacity |
| `SelectorSplit.AppendTwice` | internal/specs/specs.go:60 | Two appends to one slice with spare capacity give one and the same slice, so only the copy made in between keeps the first |
| `Engine.AnalysisEngine.RegisterAgent` | pkg/analyze/engine.go:289-306 | Each error in its case, and the agents change only by a new name |
| `Engine.NameKeepsAgent` | pkg/analyze/engine.go:289-306 | Over any later registrations a name keeps its agent, which is that of the first call that gave one |
| `Engine.WhoRuns` | pkg/analyze/engine.go:346-363 | The agents that run are exactly the available ones that are named; an error names the first that is not registered |
| `Engine.OneNameMore` | pkg/analyze/engine.go:346-363 | An agent runs once for each time it is named, behind those named before it |
| `Engine.AnalysisEngine.Analyze` | pkg/analyze/engine.go:330-474 | Each error in its case, else the books of the runs of the available agents in order, with a failure per analyzer that cannot be converted |
| `Engine.BooksBalance` | pkg/analyze/engine.go:417-470 | Total analyzers equal the sum of result counts plus conversion failures, errors the sum of error counts, pass, warn and fail together at most the total, and every failed conversion counts as a fail |
| `Engine.SummaryIsOfAll` | pkg/analyze/engine.go:417-470 | The failed conversions stand behind the results of the runs, and the summary counts all of them together |
| `Engine.NoAnalyzerIsLost` | pkg/analyze/engine.go:371-399 | Specifications plus conversion failures equal the custom analyzers |
| `Engine.ConversionsAre` | pkg/analyze/engine.go:371-399 | Each analyzer in turn gives its specification or a failing result with its number in the title and full confidence |
| `Engine.ResultsAreNamed` | pkg/analyze/engine.go:417-459 | The results are exactly those that the runs gave, each under the name of its agent |
| `Engine.ErrorsAreOfRuns` | pkg/analyze/engine.go:417-459 | The errors are exactly those of failed runs and those that runs gave besides their results |
| `Engine.MetadataAre` | pkg/analyze/engine.go:417-459 | Each run has its own entry in its place, with how many results and errors it gave |
| `Engine.CountsAddUp` | pkg/analyze/engine.go:417-459 | Over any runs the per-agent counts add up to the results and to the errors |
| `Engine.FlagsAddUp` | pkg/analyze/engine.go:520-527 | Pass, warn, fail and unflagged results add up to all results |
| `Engine.CountsByFirstFlag` | pkg/analyze/engine.go:520-527 | A result counts by its first flag: as pass, as warn if it is no pass, as fail if it is neither |
| `Engine.CalculateSummary` | pkg/analyze/engine.go:513-540 | The loop gives the counts by first flag and the mean of the positive confidences |
| `Engine.ConfidenceIsBetween` | pkg/analyze/engine.go:513-540 | The confidence of an analysis lies between the least and the greatest positive confidence of its results, and is zero exactly when none is positive |
| `NodeResources.FindSum` | pkg/analyze/node_resources.go:355-365 | The sum over the nodes that have the property |
| `NodeResources.FindMin` | pkg/analyze/node_resources.go:367-381 | The attained lower bound of the nodes that have the property; none exactly when no node has it |
| `NodeResources.FindMax` | pkg/analyze/node_resources.go:383-397 | The attained upper bound, and none exactly when no node has it |
| `NodeResources.SumBetweenExtremes` | pkg/analyze/node_resources.go:355-397 | The sum lies between the minimum and the maximum times the number of nodes with the property |
| `NodeResources.CompareNodeResourceConditionalToActual` | pkg/analyze/node_resources.go:142-318 | The text of a condition comes to DecidedByText: an empty one holds, two words are about the number of nodes, nodeCondition asks for a condition of some node, every other function and operator is evaluated, and panics are errors |
| `NodeResources.EvaluateAggregate` | pkg/analyze/node_resources.go:203-318 | Every function and operator on parsed values comes to Evaluate |
| `NodeResources.ConditionIsRead` | pkg/analyze/node_resources.go:157-206 | A condition written as a call, an operator and a value is decided as written |
| `NodeResources.CallIsReadIff` | pkg/analyze/node_resources.go:180-193 | A written call is read back as its function and property exactly when the property holds no opening parenthesis |
| `NodeResources.BareWordCounts` | pkg/analyze/node_resources.go:183-186 | A first word without a closing parenthesis behind an opening one is about the number of nodes, whatever it says |
| `NodeConditions.PropertyWords` | pkg/analyze/node_resources.go:321-353 | Each of the ten property words by the field of the node that it names, none for any other word |
| `NodeConditions.OperatorWords` | pkg/analyze/node_resources.go:235-318 | Each operator word by the comparison that it means |
| `NodeConditions.MinMeans` | pkg/analyze/node_resources.go:142-318 | For any property, operator and value word, min compares the least that a node has; an error exactly when none has any, the operator is none or the value has no value |
| `NodeConditions.MaxMeans` | pkg/analyze/node_resources.go:142-318 | max compares the greatest, with the same errors |
| `NodeConditions.SumMeans` | pkg/analyze/node_resources.go:142-318 | sum compares what the nodes have together, nothing at all included |
| `NodeConditions.CountMeans` | pkg/analyze/node_resources.go:142-318 | count compares the number of nodes, with whole numbers only |
| `NodeConditions.ConditionsByWords` | pkg/analyze/node_resources.go:142-186 | An empty condition holds, one of two words compares the number of nodes, and one of any other number of words but three is an error |
| `NodeConditions.NodeConditionMeans` | pkg/analyze/node_resources.go:212-232 | nodeCondition holds exactly when the word is no whole number and some node is in a condition of that type and status |
| `NodeConditions.OtherFunctionsFail` | pkg/analyze/node_resources.go:203-318 | Any other function is an error |
| `NodeConditions.MinCpuCapacity` | pkg/analyze/node_resources.go:142-318 | For example min(cpuCapacity) >= v: every node has at least v |
| `NodeResources.ConditionOperatorIsIgnored` | pkg/analyze/node_resources.go:212-232 | The operator of a nodeCondition only needs an equals sign: every such operator asks for equality |
| `NodeResources.FindCondition` | pkg/analyze/node_resources.go:223-232 | True exactly when some node has the condition with that status and the status is no whole number |
| `NodeResources.MinIsAQuantifier` | pkg/analyze/node_resources.go:367-381 | min(p) >= v holds exactly when every node with p has at least v, min(p) <= v when some node has at most v; an error exactly when no node has p |
| `NodeResources.MaxIsAQuantifier` | pkg/analyze/node_resources.go:383-397 | The same for max(p) <= v and max(p) >= v |
| `NodeResources.MatchingNodes` | pkg/analyze/node_resources.go:66-79 | Fails exactly when the filters fail on some node, else keeps the nodes that match, in order |
| `NodeConditions.NodeIsKeptIff` | pkg/analyze/node_resources.go:399-552 | A node matches exactly when it meets the filter on its resource and the label selector and then, if there is a taint, has one with that key and effect; if not, has the architecture and reaches every standard property |
| `NodeResources.FilteredNodesMeetTheirFilter` | pkg/analyze/node_resources.go:399-552 | Without a taint the kept nodes satisfy min(p) >= v for every filter p = v on the eight standard properties, if any are kept |
| `NodeResources.TaintHidesLaterFilters` | pkg/analyze/node_resources.go:457-459 | With a taint the filters on architecture and standard properties change nothing, not even by failing to parse |
| `NodeResources.FilterHoldsIff` | pkg/analyze/node_resources.go:399-552 | A filter p = v keeps only nodes with at least v exactly when there is no taint, or the filters in front of the taint can never pass |
| `NodeResources.KeepsSomeIff` | pkg/analyze/node_resources.go:404-457 | With a taint some node is kept exactly when the texts of the resource filters parse and the selector selects some labels |
| `NodeResources.TaintKeepsANodeBelowTheThreshold` | pkg/analyze/node_resources.go:457-459 | A concrete node below the threshold that is kept because of a taint |
| `BundleComparator.BundleComparator.Compare` | scripts/compare_bundles.py:86-162 | The books go on from earlier comparisons and balance; the verdict is true exactly when no difference and no missing file is on the books, exactly when there was none before, every common file passes its check and every lacking one is optional |
| `BundleComparator.BundleComparator.CompareFile` | scripts/compare_bundles.py:190-242 | Looks up the mode and the comparator and counts the file once: as a match of its mode or as one difference, an exception included |
| `BundleComparator.BundleComparator.GetComparisonMode` | scripts/compare_bundles.py:220-234 | Exact when an exact rule matches or equals the file, else structural when a pattern matches, else non-empty |
| `BundleComparator.StructuralHasComparator` | scripts/compare_bundles.py:236-242 | A file compared structurally gets the comparator of the first matching pattern, so never the fallback |
| `BundleComparator.RulesDecide` | scripts/compare_bundles.py:190-242 | A file that an exact rule matches is compared byte by byte, whatever else matches it; else by the comparator of a structural rule, else for being non-empty; a difference is recorded under the mode, or as an error for an exception |
| `BundleComparator.EveryFileIsCounted` | scripts/compare_bundles.py:190-218 | Matches of the three modes plus differences equal the files compared |
| `BundleComparator.NoRegressionIff` | scripts/compare_bundles.py:156-162 | The two lists stay empty exactly when they were, every common file passes and every lacking one is optional |
| `CollectorOrder.DedupCollectors` | pkg/collect/collector.go:270-288 | The loop keeps the first collector of each JSON text and all that cannot be marshalled |
| `CollectorOrder.DedupTwice` | pkg/collect/collector.go:270-288 | Deduping again changes nothing |
| `CollectorOrder.DedupedIsUnique` | pkg/collect/collector.go:270-288 | No JSON text is left twice |
| `CollectorOrder.FirstIsKept` | pkg/collect/collector.go:270-288 | A collector is kept, behind those kept before it, exactly when it has no JSON text or none before it has the same |
| `CollectorOrder.EnsureClusterResourcesFirst` | pkg/collect/collector.go:254-265 | The stable partition with cluster resources first |
| `CollectorOrder.EnsureCopyLast` | pkg/collect/collector.go:292-305 | The stable partition with copy collectors last |
| `CollectorOrder.PartitionTwice` | pkg/collect/collector.go:254-305 | Reordering again changes nothing, for both reorderings |
| `CollectorOrder.PartitionKeeps` | pkg/collect/collector.go:254-305 | Reordering loses and duplicates nothing |
| `CollectorOrder.ChosenStandInFront` | pkg/collect/collector.go:254-305 | None of the others stands in front of a chosen one: cluster resources are first, and copies last |
| `CollectorOrder.GroupsKeepOrder` | pkg/collect/collector.go:254-305 | Within both groups the order is that of the list |
| `CollectorOrder.DedupCommutesWithReordering` | pkg/collect/collector.go:254-288 | Deduping and reordering can be done in either order |
| `KernelModules.CompareKernelModuleConditionalToActual` | pkg/analyze/host_kernel_modules.go:136-183 | The nested loops decide = and != as stated by Compared, any other condition is an error |
| `KernelModules.ConditionWords` | pkg/analyze/host_kernel_modules.go:136-183 | The condition by its words: = and == hold when every listed module has a listed status; != and <> when none has one before which none is missing; any other word is an error |
| `KernelModules.NeverBoth` | pkg/analyze/host_kernel_modules.go:145-181 | = and != never hold both, and for one module they are negations of each other |
| `KernelModules.NotEqualFailsIff` | pkg/analyze/host_kernel_modules.go:163-180 | != fails exactly when some module has the status and no module before it is missing |
| `KernelModules.BothFailIff` | pkg/analyze/host_kernel_modules.go:145-181 | = and != both fail exactly when such a module comes with one that lacks the status |
| `KernelModules.Analyze` | pkg/analyze/host_kernel_modules.go:58-133 | An error exactly when some tested condition is faulty; else the matches in order, then at most one default, and never nothing |
| `KernelModules.OneOutcome` | pkg/analyze/host_kernel_modules.go:58-106 | Of each outcome the first condition among fail, warn and pass is tested, and gives that level |
| `KernelModules.MatchedInOrder` | pkg/analyze/host_kernel_modules.go:58-106 | The outcomes give their results in order |
| `KernelModules.AnalyzedByRule` | pkg/analyze/host_kernel_modules.go:108-133 | Behind them stands the first default that the rule allows, and a warning when there is nothing at all |
| `KernelModules.DefaultRule` | pkg/analyze/host_kernel_modules.go:28-42 | The default is the first that the documented pass and fail rule allows, none exactly when it allows none |
| `KernelModules.NoDefaultAfterBoth` | pkg/analyze/host_kernel_modules.go:108-131 | When both a pass and a fail outcome matched there is no default |
| `DnsLog.ExtractDNSQueriesFromPodLog` | pkg/collect/dns.go:332-362 | The loop over the lines is the fold that Scanned makes of them |
| `DnsLog.LogRoundTrip` | pkg/collect/dns.go:163-171 | Parsing what the script printed recovers resolv.conf line by line, each without a carriage return at its end, and the last line of each dig; a dig that printed nothing leaves its fields alone |
| `DnsLog.UnterminatedFile` | pkg/collect/dns.go:163-171 | A last line without a newline is lost, as the next marker is printed behind it |
| `DnsLog.TailBecomesMark` | pkg/collect/dns.go:340-356 | If that marker completes it to the first marker, the lines of the first dig are taken for lines of the file |
| `DnsLog.FileComesBackIff` | pkg/collect/dns.go:332-362 | A file without a marker comes back exactly when it is empty or ends in a newline and none of its lines ends in a carriage return |
| `DnsLog.LinesOfFile` | pkg/collect/dns.go:333 | Every file is lines with newlines behind them and a tail without one |
| `Text.SplitJoin` | pkg/collect/host_subnetavailable.go:134 | Pieces without the separator survive joining and splitting |
| `Text.JoinSplit` | pkg/analyze/host_os_info.go:59 | Any text survives splitting and joining, into pieces without the separator |
| `Text.HexRoundTrip` | pkg/collect/host_subnetavailable.go:139 | Bytes survive printing and decoding in hexadecimal |
| `Text.HexDecodes` | pkg/collect/host_subnetavailable.go:139-149 | Text decodes exactly when it is an even number of hexadecimal digits, two for each byte |
| `Text.FieldsOfJoined` | pkg/analyze/node_resources.go:157 | Words joined by spaces are found again |
| `Text.FieldsOfParts` | pkg/analyze/node_resources.go:157 | White space parts words and is in none of them, however much there is |
| `Text.TrimSpaceCuts` | pkg/collect/host_subnetavailable.go:139-165 | Trimming cuts the white space off both ends, all of it and nothing else |
| `Text.AtoiOfItoa` | pkg/collect/host_subnetavailable.go:165 | A printed 64-bit number is read back by Atoi |
| `Text.AtoiIff` | pkg/collect/host_subnetavailable.go:165 | A text is read as a number exactly when it is digits, with a plus or minus sign or none, of a number of 64 bits |

## Left out

- IsASubnetAvailableInCIDR: takes a number of rounds after which it gives up, since a search of /0 may not end; every statement holds for any number, and says which numbers are enough.
- SearchFrom: has the same number of rounds.
- Collect: takes the reading of an IPv4 address as a parameter, and leaves out the file written at the end.
- ParseProcNetRoute: addresses are 32-bit numbers, so IPv6 and Go's two forms of an IPv4 address are not told apart.
- CheckCondition: fixVersion with the tolerant version parser is a parameter, so its regular expression is not modelled; every statement holds for any such parser.
- CompiledReads: takes a clause with an operator other than the seven named above to be rejected. The library is more lenient: it reads an empty operator as `=`, and has `!` for not equal; but its splitter appears to drop a word of one character that is not the start of an operator, so that a clause with such a word, `!` set apart by spaces included, is read as `=`.
- ReadRange: reads words, so a comparator written without a space is not read.
- CompareSortedSlices: the printed text of numbers and of compound values is a parameter; for more than 12 elements that are not distinguishable only the permutation and the soundness of a true result are stated.
- CollectRemote: bytes that decode as equal maps are one value; encoding never fails. RBAC checks and display names are left out.
- RunRemote: the cancellation of the other nodes after an error changes nothing but their results, which are then dropped.
- SplitTroubleshootSecretLabelSelector: selectors are requirement lists, not text; a selector sorts its requirements by key, which does not change what it matches. The operators for numbers are left out.
- Analyze: an agent's results are values, so two agents that hand out the same result object are not modelled, nor is an agent that returns no result at all. Analyzers are known by their place, and durations, remediation and correlations are left out. In the kernel module analyzer the title is left out.
- CompareNodeResourceConditionalToActual: the parser of quantities is a parameter.
- NodeMatchesFilters: quantities are exact numbers, and whether two architecture names agree but for case is a parameter.
- Compare: the two bundles are given as the three sorted lists of their file names, and fnmatch and the optional patterns are parameters.
- CompareFile: what the byte comparison, each structural comparator and the non-empty check find in a file is a parameter: it holds, differs or raises.
- DedupCommutesWithReordering: collectors with the same JSON text are of the same kind, which the text names.
- ExtractDNSQueriesFromPodLog: the scanner's limit on the length of a line is not modelled.
- Crs: definitions whose name holds a slash, which the code skips, are not among those listed; encoding never fails; the choice of a version is left out. The beta variant has the same loops.
- Merge: fields of the collector other than its namespaces are left out.
- ReturnedIsCleanedUp: takes both numbers of jobs to be at least zero, which the source does not check. With -1 read jobs and 2 write jobs the channel is drained once, and a work file can be left.
- MergeKeepsCoverage: what a namespace is asked for is modelled, not the permission to get it; `listed` are the namespaces that the collector could list and may read. Resources that belong to no namespace do not depend on the lists.
- JobStep: the length of a sleep, disk contents, random offsets and the I/O operations themselves are left out; removing a file succeeds.
- ClientStep: a message is read whole or not at all, and the validity of the balancer's address is not modelled. Programs other than these hosts behind the balancer are left out.
- Strings are ASCII, and Go's integers are 64 bits where a number is parsed.
- Kubernetes, HTTP, OCI, Helm and SPDY calls, file and archive handling: input and output only.
- The analyzers that take the first outcome whose condition holds (databases, registries, replica sets and the like): one reading settles them.
- Titles, type switches, tracing, logging and command line programs.
