# tools-net `utils` library in Dafny

A model of the five modules of the `utils` library of tools-net, with proofs
about them:

- **IPv4 addresses** (`IpLib`, `utils/iplib.py`).
  - Dotted-quad text is checked by the regular expression
    `^([0-9]{1,3}.){3}[0-9]{1,3}$`; the unescaped `.` in it matches any
    character. The validator then splits at `.` and reads each part with `int`.
  - The classful class comes from the bits of the first byte.
  - `to_number` accumulates the bytes in base 256. `from_number` rebuilds the
    text from the low byte up, using Python's floor division and remainder.
  - The six comparison operators compare the numbers, which is dictionary
    order on the four bytes.
- **IPv4 networks** (`NetLib`, `utils/netlib.py`).
  - The constructor takes either an integer prefix or a mask text. The model
    keeps its error order and its shift-and-AND mask.
  - The mask check `^(1*)0*$` is applied to the 32-digit binary form.
  - The network id is `ip & mask`.
  - Broadcast, first host, last host and host count. The first and last host
    wrap past `255.255.255.255` as `from_number` does.
  - `overlap` of the inclusive address ranges.
- **MAC addresses** (`MacLib`, `utils/maclib.py`).
  - The validator's separator class `[:-\\.]` is the character range from `:`
    to the backslash, plus `.`.
  - The stored form is lower case, with `-` and `.` replaced by `:`.
  - Vendor id and serial number are string slices.
  - The I/G and U/L bits of the IEEE 802 48-bit format (IEEE Std 802-2014
    clause 8) are read from the first octet. The broadcast test compares the
    stored text.
- **Nodes** (`NetNode`, `utils/netsyslib.py:8-75`). A `Node` is a class whose
  interface list, ARP table and routing table its methods update in place.
  Interface positions follow Python list indexing: a negative position counts
  from the end, and one before the start raises IndexError.
- **The network-system planner** (`NetPlan` and `NetSystem`,
  `utils/netsyslib.py:92-246`). It works over an already-parsed description.
  1. It reads the networks. A repeated name is refused. Each network's demand
     starts at hosts + 2.
  2. It attaches the named nodes. A node repeated in a network is refused, and
     so is an unknown network name. A node with no network is not kept.
  3. It sorts the networks by demand, in decreasing order. The sort is
     stable.
  4. It sizes each network with `__min_power_of_2` and checks the capacity.
  5. It lays out the networks under one of four plans. VLSM, MinNets and
     MaxNets allocate consecutive blocks. Preconfigured uses the networks
     declared in the description.
  6. It creates the interfaces, using configured or generated MAC addresses.
  7. Unless the plan is Preconfigured, it hands out consecutive addresses
     from netid + 1 on each network.
  8. It marks the border router.
- **The ARQ flow-control simulator** (`FlowControl`,
  `utils/flowcontrollib.py`).
  - An event queue: `next_event` takes the least time, then the least
    enumeration value, then the earliest added. It also purges timeouts and
    retimes pending sends.
  - The validation of a protocol description.
  - The frame numbering modulo `2^bits` and the sender window.
  - The event loop of `run` on its send path. The loop's termination is
    proved by a weight that every step decreases.

Most of the code is modelled in its own form.

- Values are datatypes and functions.
- `IPAddress`, `Node`, `EventQueue`, `Protocol` and `NetSystem` are classes
  whose methods change their fields.
- Every loop of the source is a method with a `while` or `for` loop. Each such
  method is proved against a function of its inputs.

Module `Base` holds `Option`/`Result`. `Arith` holds powers of two, bitwise
AND on naturals and the binary digits. `Text` models Python's `split`, `join`,
`int` and `str` on decimal text.

## Model

| member | source | states |
|---|---|---|
| IpLib.CheckIpIsDottedQuad | utils/iplib.py:13-26 | an address text is accepted iff it is exactly four `.`-separated groups of 1-3 decimal digits, each at most 255; leading zeros allowed |
| IpLib.GroupsSplit | utils/iplib.py:14-18 | a text matching the pattern (whose `.` matches any character) splits at `.` into at most four parts, and into four digit groups of length 1-3 when it splits into four |
| IpLib.JoinedGroupsMatch | utils/iplib.py:14 | four groups of 1-3 digits joined by `.` match the pattern |
| IpLib.PyInt | utils/iplib.py:19-25 | `int(v)` of a non-empty digit string is its decimal value |
| IpLib.ValueOfBytes | utils/iplib.py:45-51 | `to_number` of a.b.c.d is a·2^24 + b·2^16 + c·2^8 + d, below 2^32 |
| IpLib.IPAddress.ToNumber | utils/iplib.py:45-51 | the accumulating loop returns a·2^24 + b·2^16 + c·2^8 + d of the stored address, below 2^32 |
| IpLib.ByteTextsSplit | utils/iplib.py:53-58 | the text `from_number` builds splits at `.` into its four byte texts, each a canonical octet |
| IpLib.FormatIpIsValid | utils/iplib.py:53-58 | whatever the number, the text `from_number` leaves passes the address check |
| IpLib.IPAddress.FromNumber | utils/iplib.py:53-58 | the loop leaves the text of the four bytes of the number (floor division by 256), and a valid address |
| IpLib.FromNumberToNumber | utils/iplib.py:45-58 | after `from_number(n)`, `to_number()` is n mod 2^32 for every integer n |
| IpLib.ToNumberFromNumber | utils/iplib.py:45-58 | `from_number(to_number())` keeps the number of every valid address |
| IpLib.SameValueSameCanonical | utils/iplib.py:45-58 | two valid spellings have the same number iff they have the same canonical text |
| IpLib.LeadingZeroSpelling | utils/iplib.py:45-58 | "010.0.0.1" and "10.0.0.1" are both valid with one number, and the round trip canonicalises the first to the second |
| IpLib.CanonicalTenZeroZeroOne | utils/iplib.py:53-58 | `from_number(167772161)` spells "10.0.0.1" |
| IpLib.AsWrittenAgreesWithoutNewline | utils/iplib.py:13-26 | without a final newline, the validator as written accepts exactly what the intended validator accepts |
| IpLib.TrailingNewlineAccepted | utils/iplib.py:13-26 | the validator as written accepts "1.2.3.4\n", which is not a dotted quad |
| IpLib.ClassBits | utils/iplib.py:31-43 | `get_class` is decided by the first clear bit among 0x80, 0x40, 0x20 and 0x10 of the first byte |
| IpLib.ClassRanges | utils/iplib.py:31-43 | class A iff the first byte is below 128, B iff 128-191, C iff 192-223, D iff 224-239, E iff 240 or more |
| IpLib.ClassOfValue | utils/iplib.py:31-51 | the class of an address is the class of the top byte of its number |
| IpLib.IPAddress.New | utils/iplib.py:8-11 | construction succeeds iff the validator accepts the text, stores it unchanged, and fails with `IncorrectIp` otherwise |
| IpLib.IPAddress.Eq | utils/iplib.py:66-67 | `==` holds iff both addresses have the same canonical text |
| IpLib.ComparisonsAgree | utils/iplib.py:60-76 | exactly one of `<`, `==`, `>` holds; `<=` is `<` or `==`; `>=` is `>` or `==`; `!=` is not `==`; `a < b` iff `b > a`; `a < b` iff the four bytes of `a` come first in dictionary order; `a == b` iff the bytes agree, however each byte is spelled |
| IpLib.ValueOrder | utils/iplib.py:45-51 | the numbers of two address texts compare as their byte lists do in dictionary order, and are equal iff the byte lists are |
| IpLib.DigitOrder | utils/iplib.py:48-50 | one more base-256 step (`number * 256 + byte`) keeps the order of the earlier digits and breaks ties by the new one |
| IpLib.FourDigitOrder | utils/iplib.py:45-51 | four base-256 digits compare as a number exactly as they compare in dictionary order, and give equal numbers only when all four agree |
| IpLib.LexBelowFour | utils/iplib.py:60-61 | dictionary order on four bytes, spelled out entry by entry |
| NetLib.ShiftMaskValue | utils/netlib.py:24-27 | `(n << wildcard) & n` with n = 2^32-1 is the mask whose top `prefix` bits are set |
| NetLib.PrefixMaskBits | utils/netlib.py:24-27 | in 32-digit binary the mask of prefix p is p ones followed by 32-p zeros |
| NetLib.CheckMaskIff | utils/netlib.py:43-48 | `__check_mask` returns (True, p) iff p ≤ 32 and the mask is the mask of prefix p |
| NetLib.CheckMaskOfPrefix | utils/netlib.py:43-48 | prefix → mask → check gives back the same prefix |
| NetLib.CheckMaskOnlyPrefix | utils/netlib.py:43-48 | every mask the validator accepts is the mask of the prefix it returns |
| NetLib.AndWithPrefixMask | utils/netlib.py:40-41 | ANDing a 32-bit address with the mask of prefix p clears its low 32-p bits |
| NetLib.BlockOf | utils/netlib.py:20-27 | the network of prefix p around address v is well formed, has the mask of p, and its id is v with the host bits cleared, so v lies in [netid, netid + 2^wildcard) |
| NetLib.BlockOfBitwise | utils/netlib.py:24-41 | the stored mask and id are the constructor's shift-and-AND and `ip & mask` expressions |
| NetLib.NewNetwork | utils/netlib.py:12-41 | every network the constructor accepts is well formed: prefix ≤ 32, wildcard = 32 - prefix, aligned id |
| NetLib.NewNetworkSpec | utils/netlib.py:12-41 | accepted iff the address is valid and the prefix is in 0..32 or the mask text is a valid contiguous mask; each refusal raises its own error in the constructor's order; the id is `ip & mask` and the address lies in [netid, broadcast]; the prefix or mask is the one given |
| NetLib.NewNetworkAnd | utils/netlib.py:40-41 | the stored network id is the address AND the stored mask |
| NetLib.BroadcastNumber | utils/netlib.py:59-62 | the broadcast number lies between the id and 2^32 |
| NetLib.GetId | utils/netlib.py:50-51 | `get_id` is a valid address text whose number is the network id |
| NetLib.GetBroadcast | utils/netlib.py:59-62 | `get_broadcast` is a valid address whose number is netid + 2^wildcard - 1 |
| NetLib.GetFirstHost | utils/netlib.py:64-67 | `get_first_host_ip` is netid + 1 modulo 2^32; with a host bit it is inside the block |
| NetLib.GetLastHost | utils/netlib.py:69-72 | `get_last_host_ip` is netid + 2^wildcard - 2 modulo 2^32; with a host bit it is one below the broadcast and not below the id |
| NetLib.HostBounds | utils/netlib.py:64-72 | with a host bit, neither host number wraps and both lie in the block |
| NetLib.NumberOfHosts | utils/netlib.py:74-75 | the host count plus 2 is the block size; with a host bit it is last host - first host + 1 |
| NetLib.Overlap | utils/netlib.py:80-91 | `overlap` is true iff some address lies in both inclusive ranges [netid, broadcast] |
| NetLib.OverlapReflexiveSymmetric | utils/netlib.py:80-91 | every network overlaps itself, and overlap is symmetric |
| MacLib.MacTextIsJoin | utils/maclib.py:14-19 | a text matching the pattern is six hex pairs joined by its third character |
| MacLib.JoinIsMacText | utils/maclib.py:14-19 | six hex pairs joined by one separator of the class match the pattern and give back their groups |
| MacLib.Normalize | utils/maclib.py:12 | the stored form replaces each character one for one (`-` and `.` by `:`, then lower case) |
| MacLib.NormalizeIdempotent | utils/maclib.py:12 | the stored form is lower case, has no `-` or `.`, and normalising it again changes nothing |
| MacLib.NewMac | utils/maclib.py:9-12 | the constructor raises exactly when the validator fails, and otherwise stores the normalised text |
| MacLib.NormalizeKeepsPattern | utils/maclib.py:9-19 | the stored form of an accepted address still matches the pattern, is lower case, and its separator is not `.` |
| MacLib.ConstructFromString | utils/maclib.py:12-22 | constructing again from `str(mac)` gives the same address |
| MacLib.VendorId | utils/maclib.py:24-25 | `get_vendor_id` is the first 8 characters: the first three groups with their separators |
| MacLib.SerialNumber | utils/maclib.py:35-36 | `get_serial_number` is the last 8 characters: the last three groups with their separators |
| MacLib.VendorSerialReassemble | utils/maclib.py:24-36 | vendor id, one separator and serial number give back the stored form |
| MacLib.IsLocal | utils/maclib.py:38-39 | `is_local` is bit 0x2 of the first octet (the U/L bit) |
| MacLib.IsGlobal | utils/maclib.py:41-42 | `is_global` holds iff bit 0x2 of the first octet is clear, i.e. it is the negation of `is_local` |
| MacLib.IsMulticast | utils/maclib.py:44-45 | `is_multicast` is bit 0x1 of the first octet (the I/G bit) |
| MacLib.IsUnicast | utils/maclib.py:47-48 | `is_unicast` holds iff bit 0x1 of the first octet is clear, i.e. it is the negation of `is_multicast` |
| MacLib.IsBroadcast | utils/maclib.py:50-51 | `is_broadcast` holds iff the separator is `:` and every octet is 255 |
| MacLib.BroadcastIff | utils/maclib.py:50-51 | the stored text is "ff:ff:ff:ff:ff:ff" iff the separator is `:` and every octet is 255 |
| MacLib.UpperCaseBroadcast | utils/maclib.py:12-51 | "FF:FF:FF:FF:FF:FF" is accepted and is broadcast, because it is lower-cased first |
| MacLib.HyphenRejected | utils/maclib.py:19 | "00-1a-2b-3c-4d-5e" is rejected: `-` is outside the separator class |
| MacLib.AsWrittenAgreesWithoutNewline | utils/maclib.py:14-19 | without a final newline, the validator as written accepts exactly what the intended validator accepts |
| MacLib.TrailingNewlineAccepted | utils/maclib.py:14-19 | the validator as written accepts "00:1a:2b:3c:4d:5e\n"; the intended validator does not |
| NetNode.BlankInterface | utils/netsyslib.py:20-24 | a new interface is named `nic<pos>` and has no address, MAC or network |
| NetNode.RouteFor | utils/netsyslib.py:70-75 | a net's route costs 1 iff some interface is attached to it, and then has no next step; otherwise it costs `MAX_ROUTING_COST` = 15 with a next step entry |
| NetNode.Node.constructor | utils/netsyslib.py:10-15 | a new node has its name, is not a border router, and has no interfaces and empty tables |
| NetNode.Node.SetAsBorder | utils/netsyslib.py:17-18 | the node becomes a border router; nothing else changes |
| NetNode.Node.NewInterface | utils/netsyslib.py:20-24 | appends one blank interface named after its position and returns the previous count; nothing else changes |
| NetNode.Node.RemoveInterface | utils/netsyslib.py:26-28 | deletes the interface that `pos` picks, counting from the end when negative, keeping the others in order; nothing changes past the end; a position before the start fails with IndexError |
| NetNode.Node.GetInterface | utils/netsyslib.py:33-35 | the interface that `pos` picks, counting from the end when negative; nothing past the end; IndexError before the start |
| NetNode.Node.FromEndSameInterface | utils/netsyslib.py:33-35 | position `pos - n` (n interfaces) picks the same interface as `pos` |
| NetNode.Slot | utils/netsyslib.py:26-47 | a position in range picks an existing interface: itself when not negative, `n + pos` from the end otherwise |
| NetNode.Node.NumberOfInterfaces | utils/netsyslib.py:49-50 | the number of interfaces |
| NetNode.Node.SetIp | utils/netsyslib.py:37-39 | only the address of the interface `pos` picks changes, counting from the end when negative; nothing changes past the end; a position before the start fails with IndexError and changes nothing |
| NetNode.Node.SetMac | utils/netsyslib.py:41-43 | only the MAC of the interface `pos` picks changes, counting from the end when negative; nothing changes past the end; a position before the start fails with IndexError and changes nothing |
| NetNode.Node.SetNet | utils/netsyslib.py:45-47 | only the network of the interface `pos` picks changes, counting from the end when negative; nothing changes past the end; a position before the start fails with IndexError and changes nothing |
| NetNode.Node.AddToArpTable | utils/netsyslib.py:61-65 | afterwards the query for `ip` answers `mac`, and every other query answers what it did before |
| NetNode.Node.QueryArpTable | utils/netsyslib.py:64-65 | the stored MAC for a known address, nothing for an unknown one |
| NetNode.Node.CreateIpTable | utils/netsyslib.py:70-75 | the table is rebuilt with exactly one entry per listed net, each the route of that net |
| NetPlan.MinBits | utils/netsyslib.py:239-246 | the least `bits ≥ 1` with 2^bits ≥ n |
| NetPlan.MinBitsUnique | utils/netsyslib.py:239-246 | that least exponent is unique |
| NetPlan.MinBitsMono | utils/netsyslib.py:239-246 | a larger demand never gets a smaller exponent |
| NetPlan.MinPowerOf2 | utils/netsyslib.py:239-246 | the doubling loop returns the least `bits ≥ 1` with 2^bits ≥ n |
| NetPlan.FreshEntry | utils/netsyslib.py:114-116 | a network as first read needs hosts + 2 addresses and has no related hosts |
| NetPlan.Entries | utils/netsyslib.py:110-116 | every network of the list becomes a fresh entry, in order |
| NetPlan.CollectNetworks | utils/netsyslib.py:109-116 | the loop succeeds iff the names are distinct, yielding the fresh entries, and otherwise names the first repeated network |
| NetPlan.FindNet | utils/netsyslib.py:124-125 | the first network with the name, or none iff no network has it |
| NetPlan.Kept | utils/netsyslib.py:118-135 | exactly the named nodes that list at least one network are kept |
| NetPlan.LocateNet | utils/netsyslib.py:124-135 | the search loop finds the first network with the name, or reports that there is none |
| NetPlan.AttachListSpec | utils/netsyslib.py:123-135 | attaching one node succeeds iff every network it names is known and none gets the node twice; the result adds the node to each |
| NetPlan.AttachNode | utils/netsyslib.py:123-135 | the loop over a node's networks attaches it to each in order, with the first error |
| NetPlan.AttachAllSpec | utils/netsyslib.py:118-135 | attaching all named nodes succeeds iff every network they name is known and no network gets a node twice |
| NetPlan.AttachNodes | utils/netsyslib.py:118-135 | the loop over the named nodes yields the attached networks and the kept nodes, or the first error |
| NetPlan.Demand | utils/netsyslib.py:110-135 | each network needs hosts + 2 + the number of named nodes attached to it, and the related hosts are those nodes in order |
| NetPlan.CountTwiceNotAppendable | utils/netsyslib.py:126-127 | a node listing the same network twice is refused |
| NetPlan.InsertPermutes | utils/netsyslib.py:137 | one insertion step adds exactly the new entry |
| NetPlan.InsertKeepsSorted | utils/netsyslib.py:137 | inserting into a list sorted by decreasing demand keeps it sorted |
| NetPlan.SortedNetsPermutes | utils/netsyslib.py:137 | sorting neither loses nor invents a network |
| NetPlan.SortedNetsSorted | utils/netsyslib.py:137 | the sorted networks are in decreasing order of demand |
| NetPlan.InsertByNeed | utils/netsyslib.py:137 | the loop inserts after every entry needing at least as much |
| NetPlan.SortByNeed | utils/netsyslib.py:137 | the insertion sort yields a permutation of the networks in decreasing order of demand |
| NetPlan.BitsOf | utils/netsyslib.py:142-143 | each network's exponent is the least power of two covering its demand |
| NetPlan.MaxOfBounds | utils/netsyslib.py:145-146 | `max_hosts` bounds every exponent and is one of them (0 for none) |
| NetPlan.SizeNets | utils/netsyslib.py:139-146 | the sizing loop yields every exponent, the total Σ 2^bits and the largest exponent |
| NetPlan.SortedBits | utils/netsyslib.py:137-143 | after sorting, the exponents do not increase |
| NetPlan.Blocks | utils/netsyslib.py:153-158 | one network per size, each starting at the address after the previous broadcast |
| NetPlan.NewNetworkIsBlock | utils/netsyslib.py:155 | `Network(free_ip, 32 - bits)` on the text of a free address succeeds with the block around it |
| NetPlan.NetworkAt | utils/netsyslib.py:155 | the allocated network is the block of the requested size around the free address |
| NetPlan.BlocksShape | utils/netsyslib.py:153-171 | every allocated network is well formed with the requested number of host bits |
| NetPlan.Allocate | utils/netsyslib.py:152-171 | the allocation loop builds exactly those blocks |
| NetPlan.BlocksLayout | utils/netsyslib.py:152-158 | with non-increasing sizes from an aligned start, block i starts at start + the sizes of the blocks before it |
| NetPlan.BlocksApart | utils/netsyslib.py:152-158 | a later block starts after an earlier one ends |
| NetPlan.BlockWithin | utils/netsyslib.py:152-158 | every block lies between the start and the start plus the total size |
| NetPlan.BlocksDisjoint | utils/netsyslib.py:152-171 | no two allocated networks overlap |
| NetPlan.SizesWithin | utils/netsyslib.py:148-150 | sizes whose total fits the system network each fit in it, and the first is aligned to its id |
| NetPlan.BlocksInside | utils/netsyslib.py:148-171 | blocks laid out from the system network's id have the requested sizes and lie inside it |
| NetPlan.LayoutOfSizes | utils/netsyslib.py:148-171 | once the capacity check passes, the layout is sound: well formed, inside the system network, covering each demand, pairwise apart |
| NetPlan.ParsePlanType | utils/netsyslib.py:102-104 | only the four names VLSM, MaxNets, MinNets and Preconfigured are accepted |
| NetPlan.UniformTotal | utils/netsyslib.py:160-162 | n ≤ 2^m equal blocks of 2^q fit in 2^w addresses when m + q ≤ w, the shape of the MinNets/MaxNets check prefix + min_nets + q ≤ 32 |
| NetPlan.UniformCovers | utils/netsyslib.py:163-166 | equal blocks of at least the largest exponent cover every demand |
| NetPlan.PlanSizesFit | utils/netsyslib.py:148-166 | under VLSM, MinNets and MaxNets, once their checks pass, the sizes do not increase, cover every demand and fit the system network |
| NetPlan.BlockSizes | utils/netsyslib.py:160-166 | each network's own exponent under VLSM; `32 - (prefix + min_nets)` host bits under MinNets; `max_hosts` under MaxNets |
| NetPlan.AllocatePlan | utils/netsyslib.py:152-171 | the allocation of the plan type whose checks have passed |
| NetPlan.PreconfigureSpec | utils/netsyslib.py:172-179 | the Preconfigured plan succeeds iff every declared network is valid and inside the system network; each keeps its declared block; otherwise the first bad one is named |
| NetPlan.PreconfigureFirstBad | utils/netsyslib.py:172-179 | the first declared network that is invalid or outside decides the error |
| NetPlan.PlacePreconfigured | utils/netsyslib.py:172-179 | the Preconfigured loop computes that plan |
| NetPlan.Admitted | utils/netsyslib.py:92-135 | a description that passes the checks up to the attachment of the named nodes has a well-formed system network |
| NetPlan.Admit | utils/netsyslib.py:92-135 | the checks in the planner's order: configuration, system network, plan type, networks present, distinct names, attachment |
| NetPlan.AdmittedSound | utils/netsyslib.py:92-137 | an admitted description has a configuration section and at least one network; it keeps the configured system network and plan type, every network in order with its demand (hosts + 2 + its attached nodes), and the kept nodes |
| NetPlan.PlanAdmitted | utils/netsyslib.py:137-179 | sorting, sizing, the capacity check and the layout of an admitted description |
| NetPlan.PlannedSound | utils/netsyslib.py:137-184 | a successful plan keeps every network once, in decreasing order of demand, with Σ 2^bits within the system network; allocating plans have a sound layout; Preconfigured keeps each usable declared block |
| NetPlan.PlanNetworks | utils/netsyslib.py:92-184 | `__analyze_nets` up to the creation of the interfaces |
| NetSystem.FormatMacSpells | utils/netsyslib.py:210-212 | the text of every generated MAC number is accepted by `MACAddress`, stored unchanged, and has that number's octets |
| NetSystem.FreeMacFrom | utils/netsyslib.py:210-219 | the search returns the first MAC number from its start whose text is unused, or reports that all are used |
| NetSystem.FillMacs | utils/netsyslib.py:215-219 | a node's MAC list is filled up to one per network with generated texts new to the used list and to each other, and the next free MAC is unused with every MAC between start and it in use; when it fails, every MAC from the start on is in use |
| NetSystem.MacBytesDetermine | utils/netsyslib.py:210-219 | six octets determine a 48-bit MAC number |
| NetSystem.FormatMacInjective | utils/netsyslib.py:210-219 | different MAC numbers have different texts |
| NetSystem.MacTextsCount | utils/netsyslib.py:210-219 | the numbers below n have n different texts |
| NetSystem.RunsOutNeedsRoom | utils/netsyslib.py:210-219 | the MACs run out only when the used texts and the added ones number at least 2^48 |
| NetSystem.ConfiguredMacs | utils/netsyslib.py:203-208 | `used_macs` starts with every configured MAC of every node |
| NetSystem.BuildNode | utils/netsyslib.py:220-225 | one interface per network, in order, with the MAC of its position and its network; fails on the first MAC `MACAddress` refuses |
| NetSystem.AddNode | utils/netsyslib.py:214-225 | one node: its list filled with fresh MACs, then its interfaces; a failure is an invalid configured MAC, or no free MAC, and then, after at most one more MAC per network, every MAC from `free` on is in use |
| NetSystem.BuildNodes | utils/netsyslib.py:199-225 | one new node per kept named node, each list filled, generated MACs different from every configured one and from each other; no free MAC only when, with at most one generated MAC per interface, every MAC is in use, so configured MACs and interfaces number at least 2^48 |
| NetSystem.CoveredStep | utils/netsyslib.py:214-219 | after one more node, the generated MACs still number at most the interfaces so far, and every MAC below the free one is in use |
| NetSystem.RunsOutOverall | utils/netsyslib.py:210-219 | running out of MACs at one node is running out for the whole plan, from the first MAC on |
| NetSystem.InterfaceCountPrefix | utils/netsyslib.py:214-215 | the first h nodes have at most as many interfaces as all of them |
| NetSystem.CounterStep | utils/netsyslib.py:231-237 | handing out one address on a net moves its `first_ip_free` counter on by one and leaves the others |
| NetSystem.CounterNext | utils/netsyslib.py:231-237 | the address an interface receives is its net's counter, or netid + 1 when the counter is unset |
| NetSystem.AssignOne | utils/netsyslib.py:230-237 | interface p gets the next address of its network, and the counter moves on |
| NetSystem.AssignNode | utils/netsyslib.py:228-237 | each interface of a node gets the next address of its network, in order; tables and border mark are unchanged |
| NetSystem.CountersFromNone | utils/netsyslib.py:231-237 | from no counters, a net has one iff an interface is on it, and then it is netid + 1 + the number of such interfaces |
| NetSystem.WithIpsAddressed | utils/netsyslib.py:227-237 | with the counters moved on over the earlier nodes, a node's interfaces get the addresses netid + 1 + their rank on their network |
| NetSystem.AssignNodeAt | utils/netsyslib.py:228-237 | node h's interfaces get netid + 1 + their rank among the interfaces on their network |
| NetSystem.AssignAll | utils/netsyslib.py:227-237 | `__assign_ips` addresses every interface of every node that way, touching nothing else |
| NetSystem.NetSystem.constructor | utils/netsyslib.py:83-90 | the state reached before the interfaces exist: the plan, no nodes, no counters, no Internet |
| NetSystem.NetSystem.CreateInterfaces | utils/netsyslib.py:199-225 | builds new node objects for the kept named nodes with their interfaces, or fails on an invalid configured MAC, or when no MAC is free, which happens only when every MAC is taken with at most one generated per interface |
| NetSystem.NetSystem.AssignIps | utils/netsyslib.py:227-237 | each interface gets netid + 1 + its rank on its network; the counters end at netid + 1 + the number of interfaces on the net |
| NetSystem.NetSystem.AddressUnlessPreconfigured | utils/netsyslib.py:185-187 | addresses are assigned unless the plan is Preconfigured |
| NetSystem.NetSystem.MarkBorder | utils/netsyslib.py:189-196 | the first node named as the border router, if any, is marked, and then the system has Internet |
| NetSystem.MarkFirst | utils/netsyslib.py:189-196 | only the first node with the router's name is marked, nothing else of any node changes, and the result says whether the name is non-empty and some node has it |
| NetSystem.FindNamed | utils/netsyslib.py:192-196 | the position of the first node with the name, or none |
| NetSystem.NetSystem.New | utils/netsyslib.py:83-196 | a planning error is returned as is; after planning, only a bad configured MAC or no free MAC can fail, the latter only when configured MACs and interfaces number at least 2^48; otherwise the system holds the plan and nodes built, addressed and marked |
| NetSystem.KeptInterfaces | utils/netsyslib.py:118-225 | the kept nodes have one interface per attachment of a node to a network |
| NetSystem.AdmittedWired | utils/netsyslib.py:92-135 | admitted kept nodes name only known networks, and each demand is hosts + 2 + the interfaces on that network |
| NetSystem.PermutedNets | utils/netsyslib.py:137 | sorting keeps which networks are known and each network's demand |
| NetSystem.PlannedWired | utils/netsyslib.py:137-184 | the plan keeps the nodes wired to planned networks, keeps the demands, and allocating plans have a sound layout |
| NetSystem.PlanSound | utils/netsyslib.py:92-184 | a successful plan keeps the nodes, wires them to planned networks, counts each demand, and allocating plans have a sound layout |
| NetSystem.RankIncreasing | utils/netsyslib.py:228-237 | on one network the rank of an interface grows strictly, node by node and interface by interface |
| NetSystem.AddressInBlock | utils/netsyslib.py:227-237 | an interface's address lies above its network's id and, with the hosts still to come, below its broadcast |
| NetSystem.AddressesDistinct | utils/netsyslib.py:227-237 | no two interfaces receive the same address |
| FlowControl.OrdinalInjective | utils/flowcontrollib.py:5-14 | the nine kinds have distinct enumeration values 1..9 |
| FlowControl.NextIndex | utils/flowcontrollib.py:25-39 | the extracted position holds an event no other event precedes: least time, then least value, then earliest added |
| FlowControl.NextUnique | utils/flowcontrollib.py:25-39 | that position is determined by the queue's contents |
| FlowControl.ScanNext | utils/flowcontrollib.py:29-36 | the scan settles on that position |
| FlowControl.SweepQueue | utils/flowcontrollib.py:41-44 | the deleting loop leaves the sweep as written, skipping the event after each deletion |
| FlowControl.Remaining | utils/flowcontrollib.py:41-44 | the queue with every targeted TIMEOUT removed and every other event kept in order |
| FlowControl.SweepKeepsOthers | utils/flowcontrollib.py:41-44 | `remove_timeout` never removes an event that is not a targeted TIMEOUT, and keeps the relative order |
| FlowControl.SweepSkipsAdjacentTimeout | utils/flowcontrollib.py:41-44 | of two adjacent targeted TIMEOUTs, `remove_timeout` removes only the first |
| FlowControl.LastIndexOf | utils/flowcontrollib.py:47-50 | the position of the last event of a kind in list order, or none iff there is none |
| FlowControl.RetimeSpec | utils/flowcontrollib.py:46-54 | retiming keeps the length, moves every SEND_FRAME to the time of the last TRANS_FRAME_END (-1 if none), and changes nothing else |
| FlowControl.RetimeBounded | utils/flowcontrollib.py:46-54 | retiming the pending sends to a time not before the clock keeps every queued event at or after the clock, for a seeded frame |
| FlowControl.EventQueue.constructor | utils/flowcontrollib.py:18-19 | a new queue is empty |
| FlowControl.EventQueue.AddEvent | utils/flowcontrollib.py:21-23 | appends exactly one event at the end |
| FlowControl.EventQueue.NextEvent | utils/flowcontrollib.py:25-39 | removes and returns the event at that position, the rest keeping their order; nothing for an empty queue |
| FlowControl.EventQueue.RemoveTimeout | utils/flowcontrollib.py:41-44 | the queue becomes the sweep as written |
| FlowControl.EventQueue.MoveSendNextEvent | utils/flowcontrollib.py:46-54 | the queue becomes its retimed form |
| FlowControl.ParseVariant | utils/flowcontrollib.py:63-69 | only the three protocol names are accepted |
| FlowControl.TimingOf | utils/flowcontrollib.py:126-133 | a set timing value is kept and an unset one takes its default: frame transmission 1, frame propagation 1, processing 0.5, ack transmission 0.5, ack propagation 1, timeout 12 |
| FlowControl.Seeded | utils/flowcontrollib.py:146-147 | at most one SEND_FRAME per frame is seeded |
| FlowControl.Validate | utils/flowcontrollib.py:63-109 | accepted iff known protocol, bits ≥ 1, frames ≥ 1, positive lost lists, non-negative times and the window rule of the variant; Stop & Wait forces bits and both windows to 1; Go-Back-N keeps the sender window and a receive window of 1; Selective Repeat uses the sender window for both; the sequence space is 2^(configured bits) |
| FlowControl.StopAndWaitKeepsConfiguredSpace | utils/flowcontrollib.py:95-97 | Stop & Wait with 3 bits numbers three frames 0, 1, 2, since `max_number` is computed before bits is reset to 1 |
| FlowControl.SeedsDistinct | utils/flowcontrollib.py:111-147 | each seeded frame carries its own position as its number |
| FlowControl.SlidingWindowRejected | utils/flowcontrollib.py:68-69 | an unknown protocol name is refused first |
| FlowControl.FirstFree | utils/flowcontrollib.py:138-142 | the first unset slot numbered n, with no earlier unset slot numbered n |
| FlowControl.MarkedSpec | utils/flowcontrollib.py:138-142 | `__update_sender_window(n)` sets exactly the first unset slot numbered n, keeps every other slot, and sets none when there is no such slot |
| FlowControl.FollowersSpec | utils/flowcontrollib.py:153-175 | each event queues only later-in-chain events for its own number, no earlier than itself; only an unlost frame leads to receiving; so the loop's weight drops |
| FlowControl.LostFrameNotReceived | utils/flowcontrollib.py:159-170 | a lost frame queues only its TIMEOUT and logs no reception |
| FlowControl.StepSend | utils/flowcontrollib.py:153-158 | a SEND_FRAME step keeps the loop invariant and lowers the weight |
| FlowControl.StepTransEnd | utils/flowcontrollib.py:159-170 | a TRANS_FRAME_END step marks the frame's window slot, counts one more frame sent, keeps the invariant and lowers the weight |
| FlowControl.StepOther | utils/flowcontrollib.py:171-187 | every other kind keeps the invariant and lowers the weight |
| FlowControl.StepPreserves | utils/flowcontrollib.py:149-187 | any step keeps the invariant, lowers the weight and does not move the clock back |
| FlowControl.SeedStep | utils/flowcontrollib.py:146-147 | seeding one more frame appends its SEND_FRAME at time 0 |
| FlowControl.SeedDone | utils/flowcontrollib.py:146-147 | the seeded queue satisfies the loop invariant at time 0 |
| FlowControl.SoundExtract | utils/flowcontrollib.py:150 | the extracted event is no later than any event left |
| FlowControl.SoundDone | utils/flowcontrollib.py:149-152 | with the queue empty, every seeded frame has been sent and its slot marked |
| FlowControl.LogStep | utils/flowcontrollib.py:156-177 | the log stays in order of time and never records a lost frame as received |
| FlowControl.TurnPreserves | utils/flowcontrollib.py:149-187 | one turn of the loop keeps the invariant and the log's soundness, and lowers the weight |
| FlowControl.Protocol.constructor | utils/flowcontrollib.py:111-119 | `numbering[i] = i mod 2^bits`, both windows all False with one slot per frame, window start 0 |
| FlowControl.Protocol.New | utils/flowcontrollib.py:62-119 | construction fails exactly when validation does, with its error, and otherwise starts with nothing sent or queued |
| FlowControl.Protocol.UpdateSenderWindow | utils/flowcontrollib.py:138-142 | the window becomes its marked form; nothing else changes |
| FlowControl.Protocol.CompleteSend | utils/flowcontrollib.py:159-170 | a TIMEOUT and, unless lost, a RECEIVE_FRAME are queued; one more frame is sent; its slot is marked |
| FlowControl.Protocol.Handle | utils/flowcontrollib.py:153-187 | one handled event queues its followers, updates the window and the sent count, and logs its entries |
| FlowControl.Protocol.SeedSends | utils/flowcontrollib.py:146-147 | seeds a SEND_FRAME at time 0 for the first sender-window frames, and the loop invariant holds |
| FlowControl.Protocol.Run | utils/flowcontrollib.py:144-187 | the loop terminates with the queue empty, every seeded frame sent once and marked, and a log in time order that never receives a lost frame (the log is a local of `run`, returned here so that it can be stated) |

## Left out

- Reading JSON files is not modelled. `Protocol.__init__` (utils/flowcontrollib.py:64-66, 121-124) and `NetSystem.__init__` (utils/netsyslib.py:83-88) read them; the model starts from parsed records (`Config`, `SystemConfig`).
- `MACAddress.get_vendor_name` is not modelled: it is an HTTP request to an external service.
- The `__str__` methods, `get_metmask`, `get_netprefix`, `get_name` and `get_arp_table` are not modelled separately. They are presentation or plain field reads, and the modelled fields are read directly.
- The log entries have no dictionary keys. A log entry is a `LogRecord`, and its `"receiver": 'sender'` key typo is not reproduced.
- The scripts under tools/, others/tshark-output-analysis.py and utils/mac-lib.py are not part of this model. They are CLI and printing code, interface enumeration or a broken duplicate.
- Floating point is not modelled. Times are `real`; the source only adds them.
- The ACK, NACK, TIMEOUT and PROC_ACK_TIME handlers are modelled as no-ops, because they are `pass` in the source. No window sliding or retransmission is modelled.
- Ordering `Event` members with `>` (utils/flowcontrollib.py:34) raises for a plain `Enum`. The model compares enumeration values, as intended.
- `next_event` on an empty queue would index an empty list (line 37). The model returns nothing.
- Several crash-only defects of `Protocol` are modelled by their intent:
  - `info.items` is used uncalled (lines 87, 92);
  - the `is not list` tests (lines 74, 80);
  - the `__update_sender_windowd` name (line 138);
  - the `"frame lost"` key (line 165) against `"frames lost"` (line 74);
  - the `"acks lost"` / `"ack lost"` key mismatch (lines 80, 83).
  The model validates both lost lists, checks every timing value for non-negativity and calls the window update.
- Lost frames are matched by sequence number, as line 165 tests. Line 79's message speaks of ordinals from 1; the model does not follow it.
- Python's `hex()` of a string (utils/maclib.py:39, 45) would raise. `is_local`/`is_multicast` are modelled as the bit of the hex digit `mac[1]`.
- `MACAddress.next_mac` (utils/netsyslib.py:212, 219) does not exist in the source. It is modelled as the next 48-bit number. When every address from the start is taken, the model fails with `NoFreeMac` instead of looping.
- `Network.is_in` (utils/netsyslib.py:176) does not exist in the source. It is modelled as block containment (`Inside`).
- The Preconfigured overlap check runs only when netsyslib is the main script (utils/netsyslib.py:182). The model leaves it out, so overlapping declared networks are accepted.
- Line 120's `if not d.get("networks", [])` is always false at that point. A node with no networks is simply not kept, as in the source.
- The `first_ip_free` counter is modelled as a number; the source stores it as an `IPAddress`. Addresses are stored as the text `from_number` makes.
- An interface holds its network's name. The source stores the network record itself there (utils/netsyslib.py:225), and `__assign_ips` reads its block and updates its `first_ip_free` through the interface (lines 231-237). The model looks the network up by name in the plan, and keeps the counters in a map keyed by name. Network names are unique, so the two agree; aliasing between an interface and the network list is not modelled.
- `Node.create_ip_table` is never called in the source. It is modelled as a method of its own (`CreateIpTable`), and the built systems' routing tables stay empty.
- FlowControl.Protocol.Run: `run` returns nothing in the source; its log is a local variable. The model returns the log so that its contract can speak of it.
- NetSystem.AddressesDistinct: proved for networks whose `hosts` is not negative. A negative host count shrinks the demand, and then the source may hand out addresses past the block.
- NetPlan.SortedNets: the sort is stable by construction (`Insert` places an entry after every entry of equal demand). Stability itself is not stated as a lemma, only the order and the permutation.
- FlowControl.Seeded: when the sender window exceeds the number of frames, `run` raises IndexError at utils/flowcontrollib.py:147. The model seeds one event per frame instead.
- NetPlan.Blocks: the next free address is the broadcast plus one modulo 2^32 (`NextFree`), stated through `BroadcastNumber`. That `GetBroadcast` reads back as that number is proved separately.

## Findings

| source | as written | input that shows it | evidently intended | confidence | as-written member | corrected member |
|---|---|---|---|---|---|---|
| utils/iplib.py:14-21 | `$` also matches just before a final newline, and `int()` ignores it, so the validator accepts a trailing newline | "1.2.3.4\n" | accept exactly four dot-separated groups of 1-3 digits, each at most 255 (the intended validator `CheckIp` is what the rest of the model uses) | not executed; high | IpLib.TrailingNewlineAccepted | IpLib.CheckIpIsDottedQuad |
| utils/maclib.py:19 | `$` also matches just before a final newline, so the validator accepts a MAC followed by a newline | "00:1a:2b:3c:4d:5e\n" | accept only six hex pairs joined by one separator (the intended validator `CheckMac` is what the rest of the model uses) | not executed; high | MacLib.TrailingNewlineAccepted | MacLib.NewMac |
| utils/flowcontrollib.py:42-44 | deleting from the list being enumerated skips the event after each deletion, so a second adjacent TIMEOUT survives | two TIMEOUT events for seq 3, then `remove_timeout(3)` | remove every targeted TIMEOUT and keep the rest in order | not executed; high | FlowControl.SweepSkipsAdjacentTimeout | FlowControl.Remaining |
