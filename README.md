# Policy ACL client of OF-DPA, modelled in Dafny

`client_acl` is the OF-DPA example client that adds, lists and deletes flows
of the Policy ACL flow table. It works in three parts, and the model has a
counterpart for each:

- **The option decoder, `parse_opt`.**
  - Every command-line option updates one argument record. It covers:
    - MAC addresses in three layouts;
    - IPv4 addresses as dotted quads or numbers;
    - IPv6 addresses;
    - prefix lengths, which become masks;
    - range-checked numeric fields, where a zero means "any";
    - flow actions;
    - the positional words `delete` and `list`.
  - At the end of the input, it checks the address family against the ethertype.
  - Modules `OptionDecoder`, `MacText`, `PrefixMasks` and `DecoderProperties`.
- **The address sequencer, `incrementMac`.** It adds one, in place, to the six
  bytes of a MAC address, treated as a big-endian 48-bit counter. Module
  `AddressSequencer`.
- **The batch drivers of `main`.**
  - The add batch writes `count` flows. After each success it advances the
    destination MAC, and it stops at the first failure.
  - The list/delete walk probes the template and falls back to the next
    entry if the probe fails. It then follows the table's enumeration order,
    optionally deleting each entry it passes.
  - The remote flow table is given by contract only: a class holding a set of
    entries, a key order and a log of calls. Any call may fail.
  - Modules `FlowTable` and `TableDriver`.

`parse_opt` is modelled twice:
- `OptionDecoder.Decode` is a pure specification function. Each of its cases
  follows one `case` of the C `switch`, with the same branches, limits and
  error exits.
- `OptionDecoder.ParseOpt` is a method, proved equal to `Decode`. It is a
  method because the IPv6 prefix options fill their mask words in a loop.
  That loop is `PrefixMasks.FillPrefix`, in place on an array.

`argp_error` ends the process, so every error path is a terminal
`Exit(failure)`. A key that `parse_opt` does not handle returns
`ARGP_ERR_UNKNOWN`; the model calls that outcome `Unknown`.

The decoder takes a `MaskRule`, which selects how prefix masks are computed:
- `AsWritten` computes them exactly as the C expressions do.
- `Intended` gives the prefix masks those expressions are meant to compute.

Both are proved about; see "## Findings".

In these places the code does something a reader might not expect; the
model follows the code. Citations are to `src/example/client_acl.c`, whose
option help text is at lines 136-176.
- **VLAN id:** 4096 is accepted, because `VLANID_MAX` is 4096 (lines 80 and 580).
- **Zero values:** a zero VLAN priority or DSCP still gets its mask set
  (lines 405 and 483). Such a zero is matched, whereas a zero VLAN id,
  protocol or L4 port clears its mask and becomes a wildcard.
- **Prefix lengths:** the help text gives 32 as the default IPv4 prefix
  length (lines 152 and 155) and 0 as the default IPv6 one (lines 157 and 159). The default
  record has the exact IPv4 masks and all-zero IPv6 masks to match. An IPv6
  prefix option writes only the words its prefix reaches (lines 218-225):
  words past the prefix keep their earlier value rather than being cleared.
- **`count`:** the help text calls it the number of ACLs to add, delete or
  list (line 138), but it is an `int` (line 123).
  - A large `--count` wraps to a negative value. With a negative count, the
    add batch adds nothing and the walk visits at most one entry.
  - A count of 0 adds nothing, but lets the walk run to the end of the table
    (line 1047).
- **"No more entries" message:** it depends only on `list`, NOT_FOUND and
  `i < count` (line 1056). So it never appears with an unbounded count (0),
  whichever lookup found nothing.

## Model

| member | source | states |
|---|---|---|
| AddressSequencer.IncrementMac | src/example/client_acl.c:851-867 | in place on the six bytes, the array afterwards is `Increment` of the old bytes: the carry runs from the last byte towards the first and stops at the first byte that does not wrap |
| AddressSequencer.NextMac | src/example/client_acl.c:851-867 | the next address's 48-bit value is the old value plus one, modulo 2^48 |
| AddressSequencer.Increment | src/example/client_acl.c:851-867 | for a counter of any width, the value after the increment is the old value plus one, wrapping to 0 from the largest value |
| AddressSequencer.IncrementCarry | src/example/client_acl.c:855-866 | when the carry stops at byte k, the bytes before k are unchanged, byte k goes up by one and the 0xFF bytes after it become zero |
| AddressSequencer.IncrementWrap | src/example/client_acl.c:855-866 | all-0xFF bytes wrap to all zeros (the overflow past the first byte is silent) |
| AddressSequencer.IncrementExamples | src/example/client_acl.c:851-867 | 00:00:00:00:00:FF is followed by 00:00:00:00:01:00, and FF:FF:FF:FF:FF:FF by 00:00:00:00:00:00 |
| PrefixMasks.PrefixWord | src/example/client_acl.c:302-311 | the intended IPv4 prefix mask: the 32-bit value of a bit string whose first k bits are set and whose other bits are clear |
| PrefixMasks.ShiftedOnesIsPrefix | src/example/client_acl.c:302-311 | `~0 << n` on a 32-bit word, for n <= 32, is the mask of a prefix of 32 - n bits |
| PrefixMasks.Ip4MaskAsWritten | src/example/client_acl.c:302-311 | the parser's `~0 << (32 - p)` is the prefix mask of p bits for every p from 1 to 32 |
| PrefixMasks.Ip4ZeroPrefixAsWritten | src/example/client_acl.c:302-311 | on a host that takes the shift count modulo 32, prefix 0 gives the all-ones mask, whereas the prefix mask of 0 bits is 0 |
| PrefixMasks.CoverPrefix | src/example/client_acl.c:216-225 | a prefix of p bits sets every word wholly inside it to all ones, puts the partial word in the one word it ends inside, and leaves the words it does not reach unchanged |
| PrefixMasks.FillPrefix | src/example/client_acl.c:216-225 | the mask loop, in place on the four words: the p / 32 words wholly inside the prefix become all ones, the word the prefix ends inside gets the partial word, and the words after it are unchanged |
| PrefixMasks.Ip6PrefixMaskWords | src/example/client_acl.c:210-226 | the intended IPv6 mask of an empty mask has, in each word w, exactly the prefix's bits falling in w set (0, all 32, or the p - 32w leading ones) |
| PrefixMasks.Ip6MaskAsWritten | src/example/client_acl.c:216-225 | the parser's IPv6 mask equals the prefix mask in every word but the one the prefix ends inside, which as written gets 32 - p % 32 leading ones |
| PrefixMasks.Ip6PartialWordAsWritten | src/example/client_acl.c:221-224 | as written, the word the prefix ends inside gets 32 - p % 32 leading ones, where p % 32 are meant |
| PrefixMasks.Ip6MaskAsWrittenAgrees | src/example/client_acl.c:210-226 | the written and the intended IPv6 masks agree if and only if p % 32 is 0 or 16 |
| PrefixMasks.Ip6Prefix8AsWritten | src/example/client_acl.c:210-226 | with prefix 8 the first word is 0xFFFFFF00 as written and 0xFF000000 as intended |
| MacText.ParseMac | src/example/client_acl.c:324-345 | the address is rejected if and only if the colon, the dash and the dotted layouts all fail; otherwise it is the colon reading when that succeeds, else the dash reading when that succeeds, else the dotted reading |
| MacText.ScanOctets | src/example/client_acl.c:325-329 | an octet layout fails exactly when one of its six two-digit conversions or separators fails; otherwise byte i is the i-th value read |
| MacText.ScanGroups | src/example/client_acl.c:331-341 | the dotted layout fails exactly when one of its three four-digit conversions or separators fails; otherwise bytes 2i and 2i+1 are the high and low byte of the i-th group |
| MacText.ScanFieldsRoundTrip | src/example/client_acl.c:325-326 | fields of fixed width written in hex with a separator read back as the same values, whatever text follows them |
| MacText.OctetsDecode | src/example/client_acl.c:325-329 | an address written as six two-digit octets with either separator reads back as the same six bytes in that layout |
| MacText.ColonLayoutDecodes | src/example/client_acl.c:325-326 | colon-separated text decodes to its address, with anything after it |
| MacText.DashLayoutDecodes | src/example/client_acl.c:328-329 | dash-separated text decodes to its address: the colon layout stops at the first dash and the dash layout reads it |
| MacText.OctetsRejectDotted | src/example/client_acl.c:325-331 | neither octet layout reads dotted text, because a third hex digit stands where the separator must be |
| MacText.GroupsDecode | src/example/client_acl.c:331-341 | the dotted layout reads three 16-bit groups and stores each high byte first (after `htons`) |
| MacText.DottedLayoutDecodes | src/example/client_acl.c:324-345 | dotted text decodes to its address through the third layout |
| MacText.LayoutsAgree | src/example/client_acl.c:324-345 | the three layouts of one address decode to the same six bytes |
| MacText.NoLeadingDigitRejected | src/example/client_acl.c:324-335 | text whose first non-blank character is not a hex digit is rejected |
| OptionDecoder.ToInt32 | src/example/client_acl.c:257-265 | `count` holds `strtoul`'s result reduced into a signed 32-bit `int`: in range and congruent to the value modulo 2^32 |
| OptionDecoder.ToUint32 | src/example/client_acl.c:210-214 | `prefixLen` holds `strtoul`'s result reduced into a `uint32_t`, congruent modulo 2^32 |
| OptionDecoder.PrefixLength | src/example/client_acl.c:302-308 | a prefix length is accepted if and only if `strtoul` succeeds and its 32-bit value is within the family's bound, and is then that value |
| OptionDecoder.Ip6MaskWords | src/example/client_acl.c:216-225 | the parser's mask loop gives the four words that `CoverPrefix` describes |
| OptionDecoder.Decode | src/example/client_acl.c:179-696 | every key `parse_opt` knows is handled, and only an unknown key gives `ARGP_ERR_UNKNOWN`; an error on a positional word names the word, and an error on any option is that option's invalid value |
| OptionDecoder.ParseOpt | src/example/client_acl.c:179-696 | one call of `parse_opt`, with the IPv6 prefix masks filled by the parser's word loop, gives what `Decode` specifies for every key |
| OptionDecoder.DefaultArguments | src/example/client_acl.c:880-919 | the record before any option: count 1, neither `delete` nor `list`, no address family seen, ethertype IPv4, and accepted unchanged at the end of the input |
| DecoderProperties.BoundedOptionDecodes | src/example/client_acl.c:313-589 | a range-checked option is rejected if and only if `strtoul` fails or the number exceeds the option's limit; otherwise the number is stored in its field (the whole new record is given by `EtherTypeDecodes`, `ZeroIsWildcard` and `MaskAlwaysSet`) |
| DecoderProperties.EtherTypeDecodes | src/example/client_acl.c:313-322 | the ethertype is rejected if and only if `strtoul` fails or the number is at least 0xFFFF; otherwise it is stored and nothing else changes |
| DecoderProperties.UnboundedOptionDecodes | src/example/client_acl.c:257-275 | the count and the priority (and, at lines 554-574 and 591-599, the ICMP type and code and the tunnel id) are rejected exactly when `strtoul` fails; otherwise the number is stored as read, the count cut to a 32-bit `int`, the ICMP masks set to 0xFF, and nothing else changes |
| DecoderProperties.IntfDecodes | src/example/client_acl.c:377-394 | `all` in any case stores port 0 with mask 0 and is always accepted; other text is rejected exactly when `strtoul` fails, and otherwise stores that port with the exact-match port mask; nothing else changes |
| DecoderProperties.ActionOptionDecodes | src/example/client_acl.c:601-653 | the group, queue, VLAN priority, DSCP and output tunnel port actions are rejected exactly when `strtoul` fails; otherwise each stores the number, and queue, VLAN priority and DSCP also set their action flag; the match and the rest of the record are unchanged |
| DecoderProperties.FixedActionDecodes | src/example/client_acl.c:654-661 | discard and copy are always accepted: discard sets clear-actions, copy sets the output port to the controller; nothing else changes |
| DecoderProperties.ZeroIsWildcard | src/example/client_acl.c:459-589 | an accepted zero VLAN id, protocol or L4 port clears its mask; any other value leaves the mask as it was; the value and that mask are all that change in the record |
| DecoderProperties.MaskAlwaysSet | src/example/client_acl.c:396-575 | VLAN priority, DSCP and ICMP type and code set their mask (0x7 or 0xFF) for every value, zero included; an accepted VLAN priority or DSCP changes nothing else in the record |
| DecoderProperties.Ip4AddressDecodes | src/example/client_acl.c:277-300 | an IPv4 address is rejected if and only if both `inet_pton` and `strtoul` fail; dotted text wins, otherwise `strtoul`'s number is stored; zero clears the mask and leaves `ipv4Found`, any other value sets `ipv4Found` and leaves the mask; nothing else changes |
| DecoderProperties.Ip4PrefixDecodes | src/example/client_acl.c:302-311 | rejected if and only if `strtoul` fails or the 32-bit length exceeds 32; otherwise the mask is the prefix mask, always with the intended rule and for p >= 1 as written, and the host's `~0 << 32` for p = 0 as written; only that mask changes |
| DecoderProperties.Ip6AddressDecodes | src/example/client_acl.c:198-209 | rejected if and only if `inet_pton` rejects the text; otherwise the 16 bytes are stored, `ipv6Found` is set, and nothing else changes |
| DecoderProperties.Ip6PrefixDecodes | src/example/client_acl.c:210-226 | rejected if and only if `strtoul` fails or the length exceeds 128; whole words become all ones, later words keep their value, and the partial word gets p % 32 leading ones (intended) or 32 - p % 32 (as written); only that mask changes |
| DecoderProperties.MacOptionDecodes | src/example/client_acl.c:324-352 | a MAC option is rejected if and only if no layout reads the text; the address is stored, an all-zero address also zeroes its mask, and nothing else changes |
| DecoderProperties.MacOptionStores | src/example/client_acl.c:324-352 | text the MAC decoder reads as an address makes the option store exactly that address |
| DecoderProperties.MacOptionLayouts | src/example/client_acl.c:324-352 | the colon, dash and dotted text of one address make the option store the same six bytes |
| DecoderProperties.MacMaskOptionDecodes | src/example/client_acl.c:353-376 | a source (and, at lines 435-458, destination) MAC mask is rejected exactly when no layout reads the text; otherwise the address read becomes the mask and nothing else changes |
| DecoderProperties.PositionalWords | src/example/client_acl.c:662-676 | `delete` and `list`, compared ignoring case, set their flag and nothing else; any other word ends the process |
| DecoderProperties.DeleteInAnyCase | src/example/client_acl.c:662-676 | `DELETE` and `Delete` are the word `delete`; `deleted` is not, and `lost` is not `list` |
| DecoderProperties.EndOfInput | src/example/client_acl.c:679-690 | at the end of the input the record is accepted unchanged if and only if its families agree with the ethertype; the IPv6 check comes first |
| DecoderProperties.DefaultsWellFormed | src/example/client_acl.c:880-919 | the default record is within every range, has each zero field with a zero mask, and is family-consistent |
| DecoderProperties.DecodeKeeps | src/example/client_acl.c:179-696 | every accepted option keeps the ranges and the wildcard masks, changes the ethertype only if it is the ethertype option, and never clears `ipv4Found` or `ipv6Found` |
| DecoderProperties.ParseAllAccepted | src/example/client_acl.c:179-696 | a command line the parser accepts, from a well-formed record, leaves a well-formed and family-consistent record |
| DecoderProperties.Ipv6NeedsEthertype | src/example/client_acl.c:679-684 | with ethertype 0x0800 and no ethertype option, no command line that names an IPv6 address is accepted |
| DecoderProperties.Ipv6WithoutEthertypeRejected | src/example/client_acl.c:679-684 | from the defaults, a source IPv6 address alone is rejected at the end of the input for its ethertype |
| FlowTable.Table.Add | src/example/client_acl.c:1067 | the contract `ofdpaFlowAdd` is taken to keep: the entry is stored only when OK, and only if its key is free; the table stays key-unique and the call is logged |
| FlowTable.Table.StatsGet | src/example/client_acl.c:1028 | the probe: OK only for a stored key, NOT_FOUND only for an absent one; the table is unchanged |
| FlowTable.Table.NextGet | src/example/client_acl.c:1031 | OK gives the stored entry whose key comes first after the cursor's; NOT_FOUND means no stored key comes after it; otherwise the cursor is handed back |
| FlowTable.Table.Delete | src/example/client_acl.c:1041 | OK removes exactly the entry stored under the key; any other result leaves the table unchanged |
| FlowTable.LeastRankExists | src/example/client_acl.c:1049 | every non-empty set of entries has one whose key comes first, so a successor always exists for NextGet to return |
| TableDriver.AdvanceValue | src/example/client_acl.c:1065-1076 | k increments of the destination MAC add k to its 48-bit value, modulo 2^48 |
| TableDriver.Batch | src/example/client_acl.c:1065-1076 | the flows the add loop writes: `count` of them, the k-th being the template with its destination MAC advanced k times |
| TableDriver.BatchValues | src/example/client_acl.c:1065-1076 | the k-th flow of a batch has the template's destination MAC plus k, modulo 2^48 |
| TableDriver.BatchSteps | src/example/client_acl.c:1065-1076 | consecutive flows of a batch differ only in the destination MAC, the next being `incrementMac` of the previous |
| TableDriver.BatchDistinct | src/example/client_acl.c:1065-1076 | a batch of at most 2^48 flows never repeats a destination MAC |
| TableDriver.AddBatch | src/example/client_acl.c:1063-1077 | the add loop makes exactly the adds of the batch up to the first failure, logs them and the failed add in order, adds those entries to the table, and adds `count` flows (none when `count` <= 0) when nothing fails |
| TableDriver.WalkFollowsOrder | src/example/client_acl.c:1028-1054 | each entry the walk visits after the first is the entry whose key comes first after the previous one's |
| TableDriver.Probe | src/example/client_acl.c:1028-1032 | the walk's start: the table is unchanged; the log holds the stats probe of the template and, when it was not OK, one NextGet from the template; the loop then starts from a state the loop invariant holds in, on the template when the probe found it and otherwise on the first entry after it |
| TableDriver.Visit | src/example/client_acl.c:1039-1054 | one loop pass: a delete of the cursor when deleting, then a NextGet unless the count is used up; `rc` is the NextGet's result or NOT_FOUND, whatever the delete returned, and the log gains exactly these calls; the table loses the cursor's entry exactly when the delete returns OK and is otherwise unchanged |
| TableDriver.WalkLoop | src/example/client_acl.c:1033-1055 | the loop runs passes until `rc` is not OK; `i` counts the visited entries, and the log gains the calls of the passes in order; the table is then the starting table less exactly the visited entries whose delete returned OK |
| TableDriver.ListOrDelete | src/example/client_acl.c:1024-1060 | the walk starts at the template when the probe finds it and otherwise at the first entry after it; it visits entries in key order, skipping none from the template to the last; it removes exactly the visited entries whose delete returned OK (none when listing), so a failed delete leaves its entry stored; its log is the probe, the fallback NextGet when the probe failed, then per pass the delete and the NextGet; its `rc` is the last NextGet's result, or NOT_FOUND at the count; the "no more entries" condition holds exactly when the source prints it |
| TableDriver.SingleRuleWalk | src/example/client_acl.c:1028-1054 | with count 0, a template that is stored and has no entry after it: exactly one entry is processed, and the log is the probe, the delete when deleting, and one NextGet whose result ends the walk |
| TableDriver.Template | src/example/client_acl.c:1000-1012 | the entry the batch starts from: the initialised entry with idle time 30, plus the decoded ACL fields and priority unless listing |
| TableDriver.RunClient | src/example/client_acl.c:1000-1079 | listing or deleting runs the walk from `Template(args, init)`, with its log, outcome and the exact set of entries removed, and adds nothing; adding runs the batch from that template, with its log, entries and count, and visits nothing; listing alone changes nothing |

## Left out

- The C library's parsers (`strtoul` with base 0, and `inet_pton` for both families) are oracles in `Libc`. Their syntax is not modelled: decimal, octal and `0x` forms, leading signs, `errno` on overflow.
- The result of `~0 << 32` is undefined in C, so it is an oracle too (`Libc.fullShift`).
- `PrefixMasks.Shl`: `~0` is the signed `int` -1, and section 6.5.7, paragraph 4 of C11 leaves a left shift of a negative value undefined for every count n >= 1, not only for 32. For n from 1 to 31 the model assumes the two's-complement result, the word `~0 << n` read as unsigned 32 bits (`Shl(AllOnes32, n)`), which is what the compilers the client targets produce.
- MAC text: `sscanf`'s `%x` also accepts a sign or a `0x` prefix inside the field width. `MacText` reads plain hex digits only.
- Field widths from `ofdpa_api.h` are not modelled. Numeric fields keep the value `strtoul` returned, and are not truncated to the width of their C field.
  - Range checks therefore compare the full value, as the C code does when the field is as wide as the number.
  - `count` (an `int`) and `prefixLen` (a `uint32_t`) are the exceptions: their truncation is modelled.
- The constants of `ofdpa_api.h` are parameters in `Api`. These are the exact-match masks and the controller port.
- Host byte order of the IPv6 mask words is not modelled. Each word written through `s6_addr32` is read as a number, most significant bit first.
- The argp wiring is left out: option table, help and usage text, version string, and the doc buffer built in `main`.
- `ParseAll` feeds options one at a time and ends with `ARGP_KEY_END`. It does not emit `ARGP_KEY_NO_ARGS`, which `parse_opt` accepts without change (`Decode` covers it).
- Client initialisation (`ofdpaClientInitialize`) and its failure exit are left out.
- `ofdpaFlowEntryInit` is also left out. `RunClient` takes the initialised entry as a parameter.
- The remote table's wire protocol, and its specific error codes beyond OK and NOT_FOUND, are left out. Failure is nondeterministic, and the key order is a parameter.
- `displayAcl` and every `printf` are output only, and are not modelled.
- `FlowTable.Table.StatsGet`: the flow statistics it returns are not modelled. Only its use as an existence probe is.

## Findings

| source | as written | input that shows it | evidently intended | confidence | as-written member | corrected member |
|---|---|---|---|---|---|---|
| src/example/client_acl.c:221-224 | the word an IPv6 prefix ends inside is set to `~0 << (prefixLen % 32)`, which has 32 - p % 32 leading ones (the same at lines 252-255) | `--srcip6pfx 8` on an empty mask: first word 0xFFFFFF00 | the p % 32 leading bits, 0xFF000000 for p = 8, so that the mask has exactly p leading ones | high; not executed | PrefixMasks.Ip6Prefix8AsWritten | PrefixMasks.Ip6PrefixMaskWords |
| src/example/client_acl.c:302-311 | the IPv4 mask is `~0 << (32 - prefixLen)`; for prefix 0 that is a shift by the full word width, which C leaves undefined (the same at lines 527-537) | `--dstip4pfx 0` on a host that takes the shift count modulo 32 (x86): mask 0xFFFFFFFF, an exact match | prefix 0 means "any address", mask 0 | medium; not executed | PrefixMasks.Ip4ZeroPrefixAsWritten | DecoderProperties.Ip4PrefixDecodes |

For both rows the decoder is parameterised by `MaskRule`. `AsWritten` keeps the expressions of the source. `Intended` computes the prefix masks, and `Ip4PrefixDecodes` and `Ip6PrefixDecodes` prove the intended masks correct for every accepted prefix length.
