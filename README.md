# ip_tools address arithmetic, modelled in Dafny

This project models `backend/utils/ip_tools.py`, the address toolkit behind the
backend's IP endpoints. It covers:

- the IPv4 text codecs:
  - `validate_ip_decimal`
  - `ip_dec_to_bin` / `ip_bin_to_dec`
  - `ip_dec_to_hex` / `ip_hex_to_dec`
  - `mask_to_cidr` / `cidr_to_mask`
- the network description `get_network_info`
- the range summariser `summarize_ip_ranges`
- the family conversions `convert_ip_v6_to_v4` and `convert_ip_v4_to_v6`

Python's `ValueError` becomes an `Err` value. Its `Error` variant says which check failed first. Every other result is `Ok`.

Modules, in dependency order:

| module | file | what it holds |
|---|---|---|
| `Outcome` | outcome.dfy | `Result`, `Option`, the error variants, and the all-or-nothing batch `MapAll` that every loop of the source follows |
| `PyText` | py_text.dfy | the Python primitives the code relies on: `str.split`, `str.join`, `str.strip`, `int()` on decimal text, and `str()` of a natural number |
| `Radix` | radix.dfy | powers of two, and binary and hexadecimal digit strings (`format(v, '08b')`, `format(v, '02X')`, `int(s, 2)`, `int(s, 16)`) |
| `Dotted` | dotted.dfy | IPv4 values below 2^32, their octets, `str(IPv4Address)`, and the strict `IPv4Address()` parser of the ipaddress module |
| `Netmask` | netmask.dfy | prefix masks of any width, the ipaddress prefix search over masks, and the IPv4 netmask and hostmask |
| `IpCodec` | ip_codec.dfy | the seven text codecs |
| `Network` | network.dfy | `ip_network(text, strict=False)` and the attributes `get_network_info` reads |
| `Summarize` | summarize.dfy | `summarize_ip_ranges`: the collection loop, the sorting, and the run-merging walk |
| `FamilyMap` | family_map.dfy | `convert_ip_v6_to_v4` and `convert_ip_v4_to_v6` |

The loops of the source are methods:

- `IpCodec.IpBinToDec` and `IpCodec.IpHexToDec` (the `decimal_parts` loops)
- `Summarize.CollectAddresses`, `Summarize.AppendMembers` and `Summarize.MergeRuns` (the collection loop and the walk)
- `FamilyMap.ConvertIpV6ToV4` and `FamilyMap.ConvertIpV4ToV6`

Each is proved equal to a specification function, and the properties are proved about that function. The pure parts are functions with lemmas.

The ipaddress and socket modules are not part of this repository. The model uses their documented behaviour:

- the strict dotted-quad parser of Python 3.9.5 and later (and of 3.8.12), which rejects an octet with a leading zero; earlier versions read such octets as decimal;
- `ip_network`, which tries IPv4 before IPv6; after `/` an IPv4 network takes a prefix length, a netmask or a hostmask, and an IPv6 network only a prefix length;
- `inet_pton` / `inet_ntoa`.

The IPv6 literal grammar and IPv6 printing are parameters (see "Left out").

Where the code and its written description differ, the model follows the code:

- `usable_ips` is `num_addresses - 2` with no floor: it is -1 for a /32 and 0 for a /31.
- `ip_hex_to_dec` accepts a hexadecimal part of any length, and of either case, as long as its value is at most 255 (`"0FF"` is accepted).
- A non-contiguous netmask given to `get_network_info` is not always an error: the ipaddress module also accepts a hostmask (its bitwise complement is a netmask).

## Model

| member | source | states |
|---|---|---|
| PyText.Strip | backend/utils/ip_tools.py:32 | `strip()` leaves no whitespace at either end; the result is empty exactly when the text is all whitespace; text that neither starts nor ends with whitespace is unchanged |
| PyText.Split | backend/utils/ip_tools.py:95 | `split('.')` gives at least one piece; no piece holds the separator; joining the pieces with the separator gives the text back |
| PyText.SplitJoin | backend/utils/ip_tools.py:95 | splitting a joined list of separator-free pieces gives the pieces back |
| PyText.NatToDecimal | backend/utils/ip_tools.py:126 | `str(n)` is a non-empty digit string without a leading zero whose value is n |
| PyText.IntStrip | backend/utils/ip_tools.py:100 | the trimming `int()` does leaves none of its whitespace (tab to carriage return, and space) at either end, and leaves text without such padding unchanged |
| PyText.ParseIntPadded | backend/utils/ip_tools.py:100 | `int()` accepts a digit body (single underscores only between digits) with an optional sign, padded with its whitespace on either side, and reads the signed value of the body |
| PyText.ParseIntChars | backend/utils/ip_tools.py:100 | text `int()` accepts holds only its whitespace, signs, digits and underscores |
| PyText.ParseIntRejectsSeparator | backend/utils/ip_tools.py:100 | `int()` rejects any text holding one of 0x1C..0x1F, which `strip()` counts as whitespace and `int()` does not |
| PyText.NatToDecimalParses | backend/utils/ip_tools.py:100 | `int(str(n)) == n` |
| PyText.DecimalCanonical | backend/utils/ip_tools.py:100 | a digit string without a leading zero is the `str()` of its value |
| Radix.BinPad | backend/utils/ip_tools.py:110 | the padded binary text of v has exactly the requested width, only 0 and 1, and value v |
| Radix.Bin8 | backend/utils/ip_tools.py:110 | `format(v, '08b')` of an octet is 8 binary digits whose value is v |
| Radix.BinPadOfValue | backend/utils/ip_tools.py:126 | a binary string is the padded binary text of its own value at its own length (`format(int(s, 2), '08b') == s`) |
| Radix.BinValueAppend | backend/utils/ip_tools.py:162 | the value of concatenated bit strings is the left value shifted past the right part, plus the right value |
| Radix.OnesZerosValue | backend/utils/ip_tools.py:180 | `'1' * k + '0' * m` has value 2^(k+m) - 2^m |
| Radix.OnesZerosShape | backend/utils/ip_tools.py:165-168 | `'1' * k + '0' * m` contains no "01" and has exactly k ones |
| Radix.NoZeroOneShape | backend/utils/ip_tools.py:165-168 | a bit string without "01" is its ones followed by its zeros |
| Radix.Hex2 | backend/utils/ip_tools.py:135 | `format(v, '02X')` of an octet is two upper-case hex digits whose value is v |
| Radix.Hex2OfValue | backend/utils/ip_tools.py:135 | two upper-case hex digits are the `'02X'` text of their own value |
| Dotted.Octets | backend/utils/ip_tools.py:86 | the four octets of a 32-bit value are bytes and rebuild the value |
| Dotted.OctetsOfFromOctets | backend/utils/ip_tools.py:86 | four bytes are the octets of the value they build |
| Dotted.ParseOctetStrict | backend/utils/ip_tools.py:72 | an octet accepted by the strict parser is below 256 |
| Dotted.FormatV4Parses | backend/utils/ip_tools.py:72 | the strict IPv4 parser reads `str(IPv4Address(v))` back as v |
| Dotted.ParseV4Canonical | backend/utils/ip_tools.py:72 | the strict IPv4 parser accepts only the canonical text of the value it returns |
| Dotted.FormatV4NoChar | backend/utils/ip_tools.py:52 | the dotted text of an address holds no character other than digits and dots (so no '-' or '/') |
| Netmask.MaskValue | backend/utils/ip_tools.py:21 | the mask of prefix p in width W is below 2^W |
| Netmask.MaskValueInjective | backend/utils/ip_tools.py:21 | distinct prefixes have distinct masks |
| Netmask.PrefixOfMask | backend/utils/ip_tools.py:8 | a prefix found for a mask is within the width and has that mask |
| Netmask.PrefixOfMaskNone | backend/utils/ip_tools.py:8 | the prefix search fails exactly when no prefix has that mask |
| Netmask.PrefixOfMaskValue | backend/utils/ip_tools.py:8 | the prefix search finds p for the mask of p |
| Netmask.MaskBits | backend/utils/ip_tools.py:180 | `'1' * p + '0' * (W - p)` is the W-bit binary text of the mask of p |
| Netmask.MaskDigits | backend/utils/ip_tools.py:162-168 | a bit string contains "01" exactly when its value is no mask of its width; otherwise its count of ones is the prefix the search finds |
| Netmask.NoZeroOneMask | backend/utils/ip_tools.py:165-168 | a bit string without "01" is the mask of its count of ones |
| Netmask.MaskNoZeroOne | backend/utils/ip_tools.py:165-168 | the bit string of a mask contains no "01" |
| Netmask.MaskDigitsValue | backend/utils/ip_tools.py:180-186 | the value of `'1' * p + '0' * (W - p)` is the mask of p |
| Netmask.V4Hostmask | backend/utils/ip_tools.py:22 | the IPv4 hostmask and netmask of a prefix add up to 2^32 - 1 |
| Netmask.HostmaskIsNoNetmask | backend/utils/ip_tools.py:8 | a hostmask of a prefix strictly between 0 and W is no netmask |
| Netmask.HostmaskComplement | backend/utils/ip_tools.py:8 | the complement of the hostmask of p is the mask of p, and the search finds p for it |
| Netmask.V4HostmaskComplement | backend/utils/ip_tools.py:8 | for 0 < p < 32 the IPv4 hostmask is no netmask and its complement gives back p |
| IpCodec.ValidateIpDecimal | backend/utils/ip_tools.py:92-105 | succeeds exactly when the text has four dot-separated parts and `int()` reads each as a number in 0..255; it then returns the parts; a wrong part count gives `WrongPartCount` |
| IpCodec.ValidateRejectsSeparator | backend/utils/ip_tools.py:95-101 | `validate_ip_decimal` on text holding one of 0x1C..0x1F anywhere fails, since the part holding it is no integer to `int()` |
| IpCodec.ValidateFormatV4 | backend/utils/ip_tools.py:92-103 | the dotted text of every address validates, its parts are its octets, and it is its own canonical form |
| IpCodec.IpDecToBinShape | backend/utils/ip_tools.py:107-111 | fails exactly when validation fails, with its error; otherwise the result splits into four parts of exactly 8 binary digits whose values are the input's octets |
| IpCodec.BinaryTextParts | backend/utils/ip_tools.py:110-111 | the binary text of four octets splits into four 8-digit parts, one per octet value |
| IpCodec.IpDecToBinOfFormat | backend/utils/ip_tools.py:107-111 | `ip_dec_to_bin` of an address's dotted text is the binary text of its octets |
| IpCodec.IpBinToDec | backend/utils/ip_tools.py:113-130 | the loop over the parts returns what `BinaryToDecimal` specifies, including the first part's error |
| IpCodec.BinaryOctetsValue | backend/utils/ip_tools.py:122-126 | four 8-bit parts are bytes, and their concatenation is the 32-bit value of those bytes |
| IpCodec.BinaryToDecimalMeaning | backend/utils/ip_tools.py:113-130 | succeeds exactly when there are four parts, each exactly 8 characters from {0,1}; the result is the dotted text of the 32-bit value the parts spell |
| IpCodec.BinaryTextDecodes | backend/utils/ip_tools.py:107-130 | decoding the binary text of four octets gives their dotted text |
| IpCodec.BinaryRoundTrip | backend/utils/ip_tools.py:107-130 | for valid decimal input, decimal to binary to decimal gives the canonical dotted form (the identity on canonical input) |
| IpCodec.BinaryTextOfParts | backend/utils/ip_tools.py:110-111 | four 8-bit parts are re-encoded as themselves |
| IpCodec.DecimalRoundTripFromBinary | backend/utils/ip_tools.py:107-130 | binary text accepted by `ip_bin_to_dec` is given back by `ip_dec_to_bin` |
| IpCodec.HexTextParts | backend/utils/ip_tools.py:135-136 | the hex text of four octets splits into four upper-case hex pairs, one per octet value |
| IpCodec.IpDecToHexShape | backend/utils/ip_tools.py:132-136 | fails exactly when validation fails, with its error; otherwise the result splits into four upper-case hex pairs whose values are the input's octets |
| IpCodec.IpDecToHexOfFormat | backend/utils/ip_tools.py:132-136 | `ip_dec_to_hex` of an address's dotted text is the hex text of its octets |
| IpCodec.IpHexToDec | backend/utils/ip_tools.py:138-156 | the loop over the parts returns what `HexToDecimal` specifies, including the first part's error |
| IpCodec.HexToDecimalMeaning | backend/utils/ip_tools.py:138-156 | succeeds exactly when there are four non-empty parts of hex digits of either case, each of value at most 255; the result is the dotted text of those values |
| IpCodec.HexTextDecodes | backend/utils/ip_tools.py:132-156 | decoding the hex text of four octets gives their dotted text |
| IpCodec.HexRoundTrip | backend/utils/ip_tools.py:132-156 | for valid decimal input, decimal to hex to decimal gives the canonical dotted form |
| IpCodec.HexTextOfParts | backend/utils/ip_tools.py:135-152 | four accepted hex parts are re-encoded as themselves exactly when each is an upper-case pair |
| IpCodec.DecimalRoundTripFromHex | backend/utils/ip_tools.py:132-156 | hex text accepted by `ip_hex_to_dec` is given back by `ip_dec_to_hex` exactly when every part is an upper-case pair |
| IpCodec.OctetBitsValue | backend/utils/ip_tools.py:162 | the joined 8-bit texts of four octets are 32 binary digits whose value is the address |
| IpCodec.OctetBitsMask | backend/utils/ip_tools.py:162-168 | the 32 bits contain "01" exactly when the value is no netmask; otherwise the count of ones is its prefix |
| IpCodec.MaskToCidrMeaning | backend/utils/ip_tools.py:158-170 | invalid dotted input fails with the validation error; otherwise the result is `str(p)` for a netmask of prefix p, and `NonContiguousMask` for anything else |
| IpCodec.PrefixMaskOctets | backend/utils/ip_tools.py:180-186 | the four 8-bit slices of `'1' * p + '0' * (32 - p)` are bytes that build the netmask of p |
| IpCodec.PrefixMaskTextMeaning | backend/utils/ip_tools.py:180-188 | the text built from the sliced bit string is the dotted netmask of p |
| IpCodec.CidrRejectsSeparator | backend/utils/ip_tools.py:174-175 | `cidr_to_mask` on text holding one of 0x1C..0x1F fails as no integer |
| IpCodec.CidrToMaskMeaning | backend/utils/ip_tools.py:172-190 | succeeds exactly when `int()` reads a number in 0..32; text `int()` rejects gives `NotAnInteger`; the result is the dotted netmask of that prefix |
| IpCodec.V4MaskToCidr | backend/utils/ip_tools.py:158-188 | `mask_to_cidr` of the dotted netmask of p is `str(p)` |
| IpCodec.CidrMaskRoundTrip | backend/utils/ip_tools.py:158-190 | `mask_to_cidr(cidr_to_mask(c)) == str(int(c))` for every accepted c |
| IpCodec.MaskCidrRoundTrip | backend/utils/ip_tools.py:158-190 | `cidr_to_mask(mask_to_cidr(m))` is the canonical form of every accepted mask m |
| Network.MaskedBlock | backend/utils/ip_tools.py:8 | with strict=False the network address is the address with its host bits cleared; the address lies in the 2^(W-p) block starting there, the block fits in the address space, and clearing is idempotent |
| Network.SameBlock | backend/utils/ip_tools.py:8 | an address clears to a block's network address exactly when it lies in that block |
| Network.Broadcast | backend/utils/ip_tools.py:15 | the broadcast address lies in the address space |
| Network.Membership | backend/utils/ip_tools.py:14-15 | an address belongs to the network exactly when it lies between the network and broadcast addresses |
| Network.PrefixFromPrefixString | backend/utils/ip_tools.py:8 | a prefix written after '/' is accepted exactly when it is ASCII digits of value at most the width |
| Network.PrefixFromIpString | backend/utils/ip_tools.py:8 | a dotted mask after '/' gives a prefix of at most 32 |
| Network.NetmaskPrefix | backend/utils/ip_tools.py:8 | any prefix the mask text yields is within the family's width |
| Network.ParseAddress | backend/utils/ip_tools.py:8 | a parsed address lies in its family's address space |
| Network.ParseFamily | backend/utils/ip_tools.py:8 | a network parsed for a family is a valid block of that family |
| Network.ParseNetwork | backend/utils/ip_tools.py:7-8 | every network `ip_network` returns is a valid block |
| Network.ParseDottedNetwork | backend/utils/ip_tools.py:7-8 | "a/mask" for a dotted IPv4 address and a mask of prefix p parses to the IPv4 block of a with prefix p |
| Network.DecimalPrefix | backend/utils/ip_tools.py:7-8 | the text `str(p)` after '/' means prefix p for IPv4 |
| Network.DottedNetmaskPrefix | backend/utils/ip_tools.py:7-8 | the dotted netmask of p after '/' means prefix p |
| Network.DottedHostmaskPrefix | backend/utils/ip_tools.py:7-8 | the dotted hostmask of p after '/' also means prefix p, for 0 < p < 32 |
| Network.ParseCidrV4 | backend/utils/ip_tools.py:7-8 | "a/p" parses to the block of a with prefix p |
| Network.ParseNetmaskV4 | backend/utils/ip_tools.py:7-8 | "a/netmask(p)" parses to the block of a with prefix p |
| Network.ParseHostmaskV4 | backend/utils/ip_tools.py:7-8 | "a/hostmask(p)" parses to the block of a with prefix p, for 0 < p < 32 |
| Network.Describe | backend/utils/ip_tools.py:10-22 | every address the description holds lies in the address space |
| Network.DescribeMeaning | backend/utils/ip_tools.py:10-23 | fails (`AddressOutOfRange`) exactly for a single-address block at address 0 or at the top address; otherwise reports total = 2^(W-p), usable = total - 2 with no floor, broadcast = network + total - 1, first = network + 1, last = broadcast - 1, the netmask of p, hostmask = total - 1, and netmask + hostmask = 2^W - 1 |
| Network.DescribeFails | backend/utils/ip_tools.py:18-19 | the description fails exactly when network + 1 or broadcast - 1 leaves the address space |
| Network.DescribeMembership | backend/utils/ip_tools.py:14-15 | an address is in the network exactly when it lies between the reported network and broadcast addresses |
| Network.ReportV4 | backend/utils/ip_tools.py:12-20 | an IPv4 report prints its addresses in dotted decimal, `network_cidr` is "network/prefix", and the counts are copied |
| Network.GetNetworkInfoBlock | backend/utils/ip_tools.py:4-25 | for an address a of either family (for IPv6, text that is no IPv4 network) and a prefix p after one '/': fails (`AddressOutOfRange`) exactly for a single-address block at address 0 or at 2^W - 1; otherwise network = a masked to p, network ≤ a ≤ network + 2^(W-p) - 1 < 2^W, the network and broadcast addresses and `network_cidr` are those two addresses printed in the family's form, total_ips = 2^(W-p), usable_ips = 2^(W-p) - 2, prefix_length = p |
| Network.GetNetworkInfoV4 | backend/utils/ip_tools.py:4-25 | for IPv4 address a and prefix p: fails exactly for /32 at 0.0.0.0 or 255.255.255.255; otherwise network ≤ a ≤ network + 2^(32-p) - 1 < 2^32, total_ips = 2^(32-p), usable_ips = 2^(32-p) - 2, prefix_length = p |
| Network.DescribeBlockV4 | backend/utils/ip_tools.py:13-20 | the description of the block of a with prefix p: network = a with the host bits cleared, broadcast = network + 2^(32-p) - 1, and the counts |
| Network.GetNetworkInfoV4Text | backend/utils/ip_tools.py:13-15 | the network and broadcast addresses and `network_cidr` are printed in dotted decimal |
| Network.CidrNetworkV4 | backend/utils/ip_tools.py:4-25 | `get_network_info(a, str(p))` is the report of the block of a with prefix p |
| Network.NetmaskSameAsPrefix | backend/utils/ip_tools.py:4-8 | giving the dotted netmask of p yields the same result as giving p |
| Network.NetworkCidrReparses | backend/utils/ip_tools.py:13 | for IPv4, `network_cidr` parses back to the same network |
| Summarize.NetworkReader | backend/utils/ip_tools.py:34 | the reader built on `ip_network` returns only valid blocks |
| Summarize.ReadEntries | backend/utils/ip_tools.py:31-34 | the batch of networks read holds only valid blocks, and fails only with `InvalidNetwork` |
| Summarize.ReadEntriesIsBatch | backend/utils/ip_tools.py:31-34 | reading entry by entry, skipping blank ones, is the all-or-nothing batch over the non-blank entries |
| Summarize.ReadEntriesMeaning | backend/utils/ip_tools.py:31-34 | the batch succeeds exactly when every non-blank entry is a network, and then holds each non-blank entry's network, in order |
| Summarize.ReadValues | backend/utils/ip_tools.py:31-34 | a successful batch holds, in order, the network of each non-blank entry |
| Summarize.ReadFails | backend/utils/ip_tools.py:34 | a failed batch failed on an entry that is not a network |
| Summarize.MembersMeaning | backend/utils/ip_tools.py:35-36 | iterating a network yields exactly the addresses of its block |
| Summarize.ExpandSnoc | backend/utils/ip_tools.py:35-36 | handling one more network appends its addresses to the list |
| Summarize.CoversMeaning | backend/utils/ip_tools.py:31-36 | an address is covered exactly when one of the networks read holds it |
| Summarize.ExpandMeaning | backend/utils/ip_tools.py:31-36 | `address_list` holds exactly the addresses some network read holds |
| Summarize.Insert | backend/utils/ip_tools.py:38 | inserting into an increasing sequence keeps it increasing and adds exactly x |
| Summarize.SortedDistinct | backend/utils/ip_tools.py:38 | `sorted(set(xs))` is increasing (so duplicate-free) and holds exactly the values of xs |
| Summarize.SortAddresses | backend/utils/ip_tools.py:38 | fails (`MixedFamilies`) exactly when both families occur; otherwise gives an increasing sequence of values of the one family holding exactly the listed addresses |
| Summarize.RunsOf | backend/utils/ip_tools.py:41-59 | the walk makes no run exactly when there is no address; every run has lo ≤ hi; the last run ends at the last address walked |
| Summarize.RunsSeparated | backend/utils/ip_tools.py:41-59 | over increasing addresses, each run ends more than one address before the next begins (ascending, disjoint, non-adjacent, so maximal) |
| Summarize.SeparatedOrdered | backend/utils/ip_tools.py:41-59 | separated runs are pairwise disjoint and in increasing order |
| Summarize.RunsCover | backend/utils/ip_tools.py:41-59 | the runs formed so far cover exactly the addresses walked so far |
| Summarize.CoverStep | backend/utils/ip_tools.py:45-54 | one more step adds exactly the address walked to the runs' coverage |
| Summarize.RunsPrintable | backend/utils/ip_tools.py:49-59 | every run ends at an address of the family, so it can be printed |
| Summarize.PrintsV4 | backend/utils/ip_tools.py:50 | an IPv4 address is printed in dotted decimal |
| Summarize.RunTexts | backend/utils/ip_tools.py:49-59 | one text per run |
| Summarize.RunTextsAt | backend/utils/ip_tools.py:49-59 | text k is the text of run k: a bare address for a one-address run, otherwise "start-end" |
| Summarize.RunTextV4 | backend/utils/ip_tools.py:49-59 | an IPv4 run text splits on '-' into one part for a one-address run and two parts otherwise, and the parts parse back to the run's first and last addresses |
| Summarize.MergeRuns | backend/utils/ip_tools.py:39-61 | the walk appends exactly the texts of the runs of the sorted addresses |
| Summarize.SortedWithin | backend/utils/ip_tools.py:38 | the sorted addresses lie in their family's address space |
| Summarize.SummaryRuns | backend/utils/ip_tools.py:27-61 | the runs of a successful summary are printable in their family |
| Summarize.EntriesHoldMeaning | backend/utils/ip_tools.py:31-36 | an address is held by the entries exactly when some non-blank entry is read as a network holding it |
| Summarize.EntriesCover | backend/utils/ip_tools.py:31-36 | the networks read cover an address exactly when the entries hold it |
| Summarize.ExpandFamily | backend/utils/ip_tools.py:35-38 | `address_list` has an address of a family exactly when some non-blank entry is a network of that family |
| Summarize.FamilyFromAddress | backend/utils/ip_tools.py:35-38 | each collected address comes from an entry of its family |
| Summarize.AddressFromEntry | backend/utils/ip_tools.py:35-38 | each entry read contributes an address of its family |
| Summarize.SummaryErrors | backend/utils/ip_tools.py:27-63 | fails exactly when a non-blank entry is no network (`InvalidNetwork`) or when entries of both families occur (`MixedFamilies`) |
| Summarize.SummaryFamily | backend/utils/ip_tools.py:32-38 | on success, every non-blank entry is a network of the summary's family |
| Summarize.SummaryCoverage | backend/utils/ip_tools.py:27-59 | on success the runs are separated, and an address is in some run exactly when some non-blank entry's network holds it (the union of the runs is the union of the blocks) |
| Summarize.SummaryTexts | backend/utils/ip_tools.py:39-61 | on success the result has one text per run, in order, each the run's text |
| Summarize.SummaryEmpty | backend/utils/ip_tools.py:27-61 | the result is the empty list exactly when every entry is blank |
| Summarize.BlankSummary | backend/utils/ip_tools.py:32-33 | an empty or all-blank input gives the empty list |
| Summarize.EntrySummary | backend/utils/ip_tools.py:32-38 | a non-blank entry never leaves the result empty |
| Summarize.CollectAddresses | backend/utils/ip_tools.py:30-36 | the collection loop succeeds exactly when reading the entries does, with the same error, and otherwise builds the expansion of the networks read |
| Summarize.CollectStep | backend/utils/ip_tools.py:31-36 | one entry of the collection loop: a blank entry changes nothing, an unreadable one fails the batch, and a network is added |
| Summarize.AppendMembers | backend/utils/ip_tools.py:35-36 | appending a network's addresses one by one appends exactly its members |
| Summarize.SummarizeIpRanges | backend/utils/ip_tools.py:27-63 | the whole procedure returns what `Summary` specifies |
| FamilyMap.StrictV4ReaderCanonical | backend/utils/ip_tools.py:72 | `IPv4Address(entry.strip())` reads only the canonical dotted text of the address it returns |
| FamilyMap.PtonReader | backend/utils/ip_tools.py:86 | the IPv6 reader ignores whitespace around an entry: an entry and its stripped text read the same |
| FamilyMap.Packed | backend/utils/ip_tools.py:86 | packing a value gives the requested number of bytes |
| FamilyMap.PackedSuffix | backend/utils/ip_tools.py:86 | the last j bytes of a k-byte packing are the j-byte packing |
| FamilyMap.PackedLowBits | backend/utils/ip_tools.py:86 | the 4-byte packing is the octets of the value mod 2^32 |
| FamilyMap.LastFourBytes | backend/utils/ip_tools.py:86 | `inet_ntoa(inet_pton(AF_INET6, s)[-4:])` is the dotted text of the value mod 2^32 |
| FamilyMap.V6ToV4Meaning | backend/utils/ip_tools.py:79-90 | succeeds exactly when every non-blank entry is an IPv6 address, and otherwise fails (`InvalidAddress`) with no partial result; on success there is one text per non-blank entry, in order: the dotted form of that entry's value mod 2^32, which the strict IPv4 parser reads back as that value |
| FamilyMap.V6ToV4Batch | backend/utils/ip_tools.py:81-87 | the loop's result is the all-or-nothing batch over the non-blank entries |
| FamilyMap.V6ToV4Reads | backend/utils/ip_tools.py:81-90 | the batch succeeds exactly when every non-blank entry is read, and fails only with `InvalidAddress` |
| FamilyMap.V6ToV4Texts | backend/utils/ip_tools.py:86-87 | a successful batch holds the dotted text of each entry's value mod 2^32 |
| FamilyMap.ConvertIpV6ToV4 | backend/utils/ip_tools.py:79-90 | the loop returns what `V6ToV4` specifies |
| FamilyMap.V6ToV4Step | backend/utils/ip_tools.py:83-87 | one entry: a blank entry is skipped, an unreadable one fails the batch, and a read one appends its last four bytes in dotted form |
| FamilyMap.ConvertIpV4ToV6 | backend/utils/ip_tools.py:65-77 | the loop returns what `V4ToV6` specifies |
| FamilyMap.V4ToV6Step | backend/utils/ip_tools.py:69-74 | one entry: a blank entry is skipped, a failing one fails the batch, and a converted one appends the printed IPv6 address |
| FamilyMap.RoundTripEntry | backend/utils/ip_tools.py:72-74 | with a prefix that puts the IPv4 value in the low 32 bits, converting one entry to IPv6 and back gives the dotted text of its IPv4 address |
| FamilyMap.RoundTrip | backend/utils/ip_tools.py:65-90 | with such a prefix, converting the first n entries to IPv6 and back gives the canonical texts of their IPv4 addresses |
| FamilyMap.V4ToV6Read | backend/utils/ip_tools.py:69-72 | a successful IPv4-to-IPv6 batch read every non-blank entry as an IPv4 address |
| FamilyMap.V4ToV6ToV4 | backend/utils/ip_tools.py:65-90 | `convert_ip_v6_to_v4(convert_ip_v4_to_v6(entries, prefix))` returns the stripped non-blank entries whenever the prefix puts the IPv4 value in the low 32 bits and the printed IPv6 text reads back |

## Left out

- The IPv6 literal grammar (section 2.2 of RFC 4291) and IPv6 printing (section 4 of RFC 5952) are parameters: `parse6`/`read6` are partial functions to values below 2^128, and `show6` is a total function from them. Everything said about IPv6 holds for any such parameters.
- FamilyMap.ConvertIpV4ToV6: the text `ipv6_prefix + str(ipv4)` goes to the abstract IPv6 parser. Only the integer effect is stated. `CarriesLowBits` is the assumption that the prefix puts the IPv4 value in the low 32 bits, as a prefix ending in "::" does. `ReadsBack` is the assumption that the printed IPv6 text is read back.
- Entry readers (`Summarize.Reader`, `FamilyMap.V4Reader`, `FamilyMap.V6Reader`) are given the raw entry and strip it themselves. `NetworkReader`, `StrictV4Reader` and `PtonReader` build them from the concrete parsers. The methods take the reader as a parameter.
- `is_private` in `get_network_info` is not modelled: it depends on the ipaddress module's tables of reserved ranges.
- Error messages are not modelled: each failure is an `Error` variant naming the check that failed first.
- Whitespace and digits are ASCII only. Python's `str.strip()` and `int()` also accept other Unicode whitespace and digits. On ASCII the two whitespace sets are modelled apart: `str.strip()` removes tab to carriage return, 0x1C..0x1F and space (`IsSpace`), while `int()` skips only tab to carriage return and space (`IsIntSpace`).
- Python's limit on the number of digits `int()` converts is not modelled.
- IPv6 scope ids (`%zone`): `IPv6Network` keeps the zone of a text such as `fe80::%eth0/64`, and `str()` of its addresses prints it. The model's IPv6 values are plain 128-bit numbers and `show6` prints a value only, so a report that carries a zone is not modelled.
- The `try`/`except` wrappers only change the message: `ValueError` passes through as the same `Err`, and in `get_network_info` any failure of `ip_network` is `InvalidNetwork`.
- Summarize.SummarizeIpRanges: memory and running time are unbounded in the model. The program lists every address of every block, so a large block (`2001:db8::/64`) exhausts memory or does not finish; `except Exception` at ip_tools.py:62 turns a `MemoryError` into `ValueError`. For such input `Summary` returns `Ok` where the program fails or never returns.
- `get_network_info` works on any text `ip_network` accepts. The IPv4 lemmas (`GetNetworkInfoV4` and the lemmas after it) state the results for dotted input with a prefix, a netmask or a hostmask. `GetNetworkInfoBlock` states the same for either family once the address and the prefix have been read, with the IPv6 grammar left abstract.
- Python objects are values: the lists the source builds are sequences, and nothing is shared or aliased.
