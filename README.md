# IP address utilities and routing demonstrations, modelled in Dafny

This project models a small networking teaching repository and proves
properties of the model.

- **The `iputils` package** (`iputils/iputils.py`). Dotted-quad IPv4
  addresses are held as 32-bit vectors (`IP`). CIDR blocks (`CIDRBlock`) are
  held with their host bits cleared, their subnet mask and their last
  address. The package also has the pairwise longest-prefix test `lpm`,
  `matches` and `ip_parser`, which tells the two notations apart. Python's
  `re.match`, `str.split`, `str.join`, `int()`, `str()`, numpy's
  `binary_repr` and `bitarray` are modelled on text and bit sequences
  (modules `PyText`, `Patterns`, `Bits`). Both patterns are anchored only
  at the start. The CIDR pattern needs two mask digits, so a block printed
  with a prefix length below 10 (`"10.0.0.0/8"`) does not parse back. The
  model reproduces that and proves it.
- **The older top-level `iputils.py`** (module `LegacyIpUtils`). The
  address is kept verbatim. Octets are not range-checked. A block keeps its
  host bits and its mask unchecked. The constructor builds the bit vector
  with a loop.
- **`bellman_ford.py`** (module `BellmanFord`). One relaxation pass over
  every directed edge per node, starting from the "infinity" sentinel (the
  sum of all weights plus one). For non-negative weights the model proves
  the Bellman-Ford guarantee: afterwards no edge can lower its target. It
  also proves that every distance below the sentinel is exactly the weight
  of a walk from the source.
- **`bf_short.py`** (module `HopCount`). One sweep of hop-count relaxation
  over every (node, neighbour) pair, and the `"k:v "` rendering, which is
  proved to read back.
- **`spanning_tree.py`** (module `SpanningTree`). The matrix and message
  construction. The result is shown to be a symmetric 0/1 matrix inside the
  upper triangle of the input. It is also shown not to be a tree in
  general: on the program's own sample graph it marks the cycle 0-1-4-2-0.

Classes whose fields never change after construction are datatypes. Their
constructors return `None` where the source raises. In the package they are
functions. In the legacy module they are methods, because `IP` builds its
bits with a loop. The
loops of the source are methods, proved against functional specifications
(`Pass`, `Run`, `Rows`); the properties are then proved about those
functions.

## Model

| member | source | states |
|---|---|---|
| Patterns.DigitRun | iputils/iputils.py:24 | `[0-9]` repeated: the length of the longest digit prefix; everything before it is a digit and the next character is not |
| Patterns.MatchesIp | iputils/iputils.py:24 | definition of `re.match` with the address pattern; characterized by `MatchesIpIntro` and `MatchesIpElim` |
| Patterns.MatchesCidr | iputils/iputils.py:31 | definition of `re.match` with the CIDR pattern; characterized by `MatchesCidrIntro` and `MatchesCidrElim` |
| Patterns.MatchesIpIntro | iputils/iputils.py:24 | any text that starts with four 1-3 digit numerals separated by dots matches the address pattern, whatever follows |
| Patterns.MatchesIpElim | iputils/iputils.py:24 | every text the address pattern matches has that shape: four 1-3 digit numerals and an arbitrary tail |
| Patterns.MatchesCidrIntro | iputils/iputils.py:31 | an address followed by `/` and two digits matches the CIDR pattern, whatever follows |
| Patterns.MatchesCidrElim | iputils/iputils.py:31 | every text the CIDR pattern matches is four numerals, `/`, exactly two digits and a tail |
| Patterns.CidrFields | iputils/iputils.py:33 | splitting a matching text at `/` gives the dotted quad first, which splits at `.` into its four numerals |
| Patterns.PatternsNeedSeparators | iputils/iputils.py:167-170 | a text the CIDR pattern matches contains `/`, one the address pattern matches contains `.` |
| PyText.NatToDecimal | iputils/iputils.py:127 | `str(n)`: one or more digits, no leading zero, whose decimal value is `n` |
| PyText.Split | iputils/iputils.py:21 | `str.split(sep)`: never empty, and the whole text when `sep` does not occur; properties in `SplitJoin` and `JoinSplit` |
| PyText.Join | iputils/iputils.py:14 | definition of `sep.join(parts)`; properties in `SplitJoin` and `JoinSplit` |
| PyText.SplitJoin | iputils/iputils.py:14-17 | `split` undoes `join` when no part contains the separator |
| PyText.JoinSplit | iputils/iputils.py:19-21 | `join` undoes `split` |
| PyText.PyInt | iputils/iputils.py:26 | `int(t)`: a text that starts with a digit never reads as negative; properties in `PyIntOfDecimal` and `CanonicalNumeral` |
| PyText.PyIntAll | iputils/iputils.py:26 | `map(int, fields)` succeeds exactly when every field is readable, and then gives each field's value |
| PyText.PyIntOfDecimal | iputils/iputils.py:35 | `int(str(n)) == n` |
| PyText.CanonicalNumeral | iputils/iputils.py:6-8 | a numeral without leading zeros prints back as itself: `str(int(s)) == s` |
| Bits.NatToBits | iputils/iputils.py:20-21 | `binary_repr(n, width=w)`: exactly `w` bits; properties in `NatToBitsRoundTrip` |
| Bits.BitsToNat | iputils/iputils.py:6-8 | the value of `0b` followed by the bits, below 2 to the number of bits; properties in `BitsToNatRoundTrip` |
| Bits.NatToBitsRoundTrip | iputils/iputils.py:20-21 | `binary_repr(n, width=w)` read back as a number is `n` for `n < 2^w` |
| Bits.BitsToNatRoundTrip | iputils/iputils.py:6-8 | a bit string's value printed at its own width gives the same bits |
| Bits.OctetsToBitsAt | iputils/iputils.py:19-21 | octet `k` of the address occupies bits `8k..8k+8`, most significant first, and reads back as its value |
| Bits.OctetsRoundTrip | iputils/iputils.py:13-17 | cutting 32 bits into four octets and joining their 8-bit forms gives the bits back |
| Bits.OctetsOfOctetsToBits | iputils/iputils.py:13-21 | four octets turned into bits and cut back into octets are the same octets |
| Bits.Xor | iputils/iputils.py:81 | `^`: bitwise inequality, same length |
| Bits.FirstTrue | iputils/iputils.py:81 | `index(True)`: the first set position, with no set bit before it, or failure when no bit is set |
| Bits.And | iputils/iputils.py:122 | `&`: bitwise conjunction, same length |
| Bits.Or | iputils/iputils.py:123 | `\|`: bitwise disjunction, same length |
| Bits.Not | iputils/iputils.py:123 | `~`: every bit flipped |
| Bits.ToBitString | iputils/iputils.py:10-11 | definition of `bitarray.to01`; properties in `BitStringRoundTrip` |
| Bits.BitStringRoundTrip | iputils/iputils.py:10-11 | `to01()` gives one `'0'`/`'1'` per bit, `'1'` exactly for a set bit, and `bitarray(text)` reads it back |
| Bits.MaskBits | iputils/iputils.py:121 | definition of the bitmask of `m` ones and `32 - m` zeros; properties in `MaskBitsShape` |
| Bits.MaskBitsShape | iputils/iputils.py:121 | `bitarray('1'*m + '0'*(32-m))` has 32 bits, bit `i` set exactly when `i < m` |
| IpUtils.IsValidIp | iputils/iputils.py:23-28 | definition of `_is_valid_ip`; properties in `NewIp`, `QuadIsValid` and `OctetOutOfRange` |
| IpUtils.QuadValues | iputils/iputils.py:19-21 | the fields of a valid four-field quad are four octets in 0..255 |
| IpUtils.DottedQuadToBits | iputils/iputils.py:19-21 | the 32 bits cut into octets give exactly the values `int` reads from the fields |
| IpUtils.NewIp | iputils/iputils.py:55-64 | construction succeeds iff the text starts with the address pattern and every field is in 0..255; the bits are the four octets |
| IpUtils.GenOctet | iputils/iputils.py:6-8 | definition of `_gen_octet`; properties in `ToStringIsQuad` and `QuadIsValid` |
| IpUtils.BitsToDottedQuad | iputils/iputils.py:13-17 | definition of `_bits_to_dotted_quad`; properties in `ToStringIsQuad`, `QuadIsValid` and `QuadParsesBack` |
| IpUtils.ToString | iputils/iputils.py:70-72 | definition of `IP.tostring`; properties in `ToStringIsQuad`, `IpRoundTrip` and `TextRoundTrip` |
| IpUtils.ToBitString | iputils/iputils.py:74-76 | `tobitstring` is 32 characters of `'0'`/`'1'` that read back as the address bits |
| IpUtils.ToStringIsQuad | iputils/iputils.py:70-72 | `tostring` is the four octet values in decimal, joined by dots |
| IpUtils.QuadIsValid | iputils/iputils.py:23-28 | four octets printed as a dotted quad make a valid address whose fields read back as those octets |
| IpUtils.IpRoundTrip | iputils/iputils.py:55-72 | `IP(ip.tostring())` is `ip` for every address |
| IpUtils.TextRoundTrip | iputils/iputils.py:62-72 | a valid four-field text written without leading zeros prints back as itself |
| IpUtils.IpEq | iputils/iputils.py:86-87 | definition of `IP.__eq__`; properties in `IpEqIsTextEq` |
| IpUtils.IpEqIsTextEq | iputils/iputils.py:86-87 | two addresses are equal exactly when they print alike |
| IpUtils.OctetOutOfRange | iputils/iputils.py:26-27 | `"256.0.0.0"` is not a valid address |
| IpUtils.IsValidCidr | iputils/iputils.py:30-37 | definition of `_is_valid_cidr`; properties in `CidrQuadFields`, `CidrMaskValue`, `NewCidr` and `CidrTextValid` |
| IpUtils.CidrQuadFields | iputils/iputils.py:31-33 | a text the CIDR pattern matches has a slash and a four-field address part |
| IpUtils.CidrMaskValue | iputils/iputils.py:35-36 | the prefix length of a valid CIDR text is at most 32 |
| IpUtils.NewCidr | iputils/iputils.py:105-123 | succeeds iff `_is_valid_cidr`; then the mask has exactly `_mask` leading ones, `first` is the written address with every bit past the prefix cleared, and `last` is `first` with every host bit set |
| IpUtils.Lpm | iputils/iputils.py:78-84 | definition of `IP.lpm`; properties in `LpmSpec` |
| IpUtils.LpmSpec | iputils/iputils.py:78-84 | `lpm` fails exactly when the address is the block's first address; otherwise it is the prefix length if the block matches the address, else 0 |
| IpUtils.Matches | iputils/iputils.py:137-140 | definition of `CIDRBlock.matches`; properties in `MatchesIffMasked`, `MatchesBoundary` and `MatchesIffInRange` |
| IpUtils.MatchesIffMasked | iputils/iputils.py:137-140 | `matches(ip)` holds iff `ip & bitmask == first` |
| IpUtils.MatchesBoundary | iputils/iputils.py:137-140 | a /0 block matches every address; a /32 block matches only its own address |
| IpUtils.MatchesIffInRange | iputils/iputils.py:129-140 | an address matches iff, read as a 32-bit number, it lies between `first` and `last` inclusive |
| IpUtils.MaskValue | iputils/iputils.py:121 | the subnet mask as a number is `2^32 - 2^(32-mask)` |
| IpUtils.CidrToString | iputils/iputils.py:125-127 | definition of `CIDRBlock.tostring`; properties in `CidrTextParts`, `CidrTextValid` and `CidrRoundTrip` |
| IpUtils.CidrTextParts | iputils/iputils.py:125-127 | `tostring` splits at `/` into exactly the dotted quad of `first` and the decimal mask |
| IpUtils.CidrEq | iputils/iputils.py:142-143 | definition of `CIDRBlock.__eq__`; properties in `CidrEqIff` |
| IpUtils.CidrEqIff | iputils/iputils.py:142-143 | two constructed blocks compare equal (by `tostring`) exactly when they are identical |
| IpUtils.CidrTextValid | iputils/iputils.py:30-37 | a printed block with a prefix length of 10 to 32 is a valid CIDR text whose address and mask read back as the block's |
| IpUtils.CidrRoundTrip | iputils/iputils.py:105-127 | `CIDRBlock(c.tostring())` is `c` for every constructed block with a prefix length of at least 10 |
| IpUtils.ShortMaskText | iputils/iputils.py:31 | a block with a prefix length below 10 prints as a text the CIDR pattern rejects |
| IpUtils.ShortMaskRejected | iputils/iputils.py:117-118 | so printing such a block and constructing again fails |
| IpUtils.BlockPrefix | iputils/iputils.py:119-122 | the constructed `first` agrees with the written address on the prefix |
| IpUtils.SamePrefixSameBlock | iputils/iputils.py:119-123 | two constructed blocks with the same length and the same prefix bits are the same block |
| IpUtils.HostBitsIgnored | iputils/iputils.py:119-123 | two valid CIDR texts construct the same block iff they have the same prefix length and the same address bits inside the prefix |
| IpUtils.GetRange | iputils/iputils.py:129-131 | definition of `CIDRBlock.getrange`; properties in `RangeAndMaskText` |
| IpUtils.GetMask | iputils/iputils.py:133-135 | definition of `CIDRBlock.getmask`; properties in `RangeAndMaskText` and `MaskValue` |
| IpUtils.RangeAndMaskText | iputils/iputils.py:129-135 | the texts of `getrange` and `getmask` are valid addresses that read back as `first`, `last` and the mask |
| IpUtils.QuadParsesBack | iputils/iputils.py:13-21 | any 32 bits printed as a dotted quad read back as the same bits |
| IpUtils.IpParser | iputils/iputils.py:149-171 | a block iff the text is a valid CIDR text, and then exactly `CIDRBlock(addr)`; an address iff the CIDR pattern does not match and the text is a valid address, and then exactly `IP(addr)`; otherwise failure |
| IpUtils.ParseAddressText | iputils/iputils.py:169-170 | the parser reads a printed address as that address |
| IpUtils.ParseBlockText | iputils/iputils.py:167-171 | the parser reads a printed block back as the block for prefix lengths of at least 10, and fails below 10 |
| LegacyIpUtils.AddressBits | iputils.py:10-12 | an accepted text has eight bits per dot-separated field |
| LegacyIpUtils.ExtendOctets | iputils.py:10-12 | the loop that extends an empty bit vector field by field yields every field's 8-bit form, in order, negative fields in two's complement |
| LegacyIpUtils.NewIp | iputils.py:7-12 | succeeds iff the address pattern matches at the start and `int` reads every field; the text is kept verbatim and the bits are the fields' 8-bit forms |
| LegacyIpUtils.FieldOctet | iputils.py:12 | `binary_repr(v, width=8)` for -128..255 writes the one octet congruent to `v` modulo 256, which is `v` itself when `v` is not negative |
| LegacyIpUtils.FieldOctets | iputils.py:11-12 | the octet of every field, in order |
| LegacyIpUtils.NegativeField | iputils.py:8-12 | only the first four fields are held to the pattern: `"0.0.0.0.-1"` is accepted, and its fifth field is written as eight ones |
| LegacyIpUtils.ToString | iputils.py:14-15 | definition of `IP.tostring`, the text kept; properties in `NewIp` and `CidrTextVerbatim` |
| LegacyIpUtils.ToBits | iputils.py:17-19 | `tobits` is one `'0'`/`'1'` per bit and reads back as the bits |
| LegacyIpUtils.FieldBits | iputils.py:11-12 | every field's octet reads back from its own eight bits, and so does the field itself when it is not negative |
| LegacyIpUtils.NoRangeCheck | iputils.py:7-8 | `"256.0.0.0"` is accepted here although the package rejects it |
| LegacyIpUtils.AgreesWithPackage | iputils.py:7-12 | on valid four-field addresses the bits are the package's |
| LegacyIpUtils.Lpm | iputils.py:21-26 | definition of `IP.lpm`; properties in `LpmSpec` |
| LegacyIpUtils.LpmSpec | iputils.py:21-26 | `lpm` fails exactly when the bit vectors differ in length or are identical; otherwise the mask if the prefixes agree, else 0 |
| LegacyIpUtils.CidrParts | iputils.py:29-32 | a text the CIDR pattern matches has an accepted address before its slash and a mask `int` cannot read as negative |
| LegacyIpUtils.NewCidr | iputils.py:29-32 | succeeds iff the CIDR pattern matches, the address part is accepted and the mask is readable; the address is kept unmodified and the mask as read, not range-checked |
| LegacyIpUtils.CidrToString | iputils.py:34-35 | definition of `CIDRBlock.tostring`; properties in `CidrTextVerbatim` |
| LegacyIpUtils.CidrTextVerbatim | iputils.py:34-35 | `tostring` gives back the text the block was built from when its mask is written canonically |
| LegacyIpUtils.Prefix | iputils.py:42 | Python's `s[:n]`: the first `min(n, len(s))` characters |
| LegacyIpUtils.Matches | iputils.py:40-42 | definition of `CIDRBlock.matches`; properties in `MatchesZero` and `LpmSpec` |
| LegacyIpUtils.MatchesZero | iputils.py:40-42 | a mask of 0 matches every address |
| LegacyIpUtils.IpParser | iputils.py:48-53 | a block iff the block constructor accepts, and then with the address text, its bits and the mask `CIDRBlock(addr)` builds; an address iff the CIDR pattern fails and the address constructor accepts, and then with the text and the bits `IP(addr)` builds; otherwise failure |
| BellmanFord.Initial | bellman_ford.py:20-22 | the keys are the nodes and the source; the source is 0 and every other node the sentinel |
| BellmanFord.InitialDistances | bellman_ford.py:19-22 | the starting dictionary is `Initial`: every node at the sentinel `sum(weights) + 1`, then the source at 0 |
| BellmanFord.Relax | bellman_ford.py:26-27 | only the edge's target changes, to the smaller of itself and the source's distance plus the weight |
| BellmanFord.PassUpTo | bellman_ford.py:25-27 | the first `j` edges relaxed in order; keeps the keys; properties in `PassUpToMono` and `PassEdge` |
| BellmanFord.Pass | bellman_ford.py:25-27 | one pass of the inner loop, keeping the keys; properties in `PassEdge` and `PassesStep` |
| BellmanFord.Passes | bellman_ford.py:24-27 | `k` passes of the outer loop, keeping the keys; properties in `PassesMono`, `UpperBound`, `Distances` and `Settled` |
| BellmanFord.RelaxEdges | bellman_ford.py:25-27 | the inner loop fails (KeyError) iff an edge has an end that is not a key; otherwise it is one pass over the edges in order |
| BellmanFord.BellmanFord | bellman_ford.py:18-28 | fails iff there is at least one node and an edge end is not a key; otherwise it returns the distances after `len(nodes)` passes |
| BellmanFord.PassUpToMono | bellman_ford.py:25-27 | within a pass no distance goes up |
| BellmanFord.PassesStep | bellman_ford.py:24-27 | each pass leaves every distance at most what it was |
| BellmanFord.PassesMono | bellman_ford.py:24-27 | a later pass never has a larger distance than an earlier one |
| BellmanFord.PassEdge | bellman_ford.py:25-27 | after a pass every edge's target is at most the source's distance before the pass plus the weight |
| BellmanFord.UpperBound | bellman_ford.py:24-27 | after `k` passes every node is at most the weight of any walk of at most `k` edges from a key, counted from that key's starting distance |
| BellmanFord.Distances | bellman_ford.py:19-27 | with non-negative weights the source stays 0, every distance lies between 0 and the sentinel, and a distance below the sentinel is exactly the weight of some walk from the source |
| BellmanFord.Settled | bellman_ford.py:24-27 | the Bellman-Ford guarantee: with non-negative weights, after the passes every edge `(u, v, w)` has `distance[v] <= distance[u] + w` |
| HopCount.Initial | bf_short.py:3-4 | the keys are `G`'s keys and the source; the first key and the source are 0 and every other key `len(G) + 1` |
| HopCount.InitialCounts | bf_short.py:3-4 | the starting dictionary is `Initial`: the first key at 0, every other key at `len(G) + 1`, then the source at 0 |
| HopCount.Order | bf_short.py:3-4 | the dictionary's key order holds exactly `G`'s keys and the source |
| HopCount.Step | bf_short.py:8-9 | the two `min` updates for one pair, keeping the keys; properties in `StepSpec` and `PairClose` |
| HopCount.Run | bf_short.py:6-9 | the updates over a sequence of pairs, keeping the keys; properties in `RunMono` and `RunBounds` |
| HopCount.StepSpec | bf_short.py:8-9 | after a pair the two counts are within one of each other, neither went up, and each either kept its value or became the other's plus one; nothing else changes |
| HopCount.SweepRow | bf_short.py:7-9 | the inner loop fails (KeyError) iff a neighbour is not a key; otherwise it steps through the list's pairs in order |
| HopCount.BellmanFord | bf_short.py:1-12 | fails iff a neighbour is neither a key nor the source; otherwise it returns the rendering of the counts after one sweep over every pair |
| HopCount.RunMono | bf_short.py:8-9 | counts never go up |
| HopCount.RunBounds | bf_short.py:8-9 | counts that start within `[0, hi]` stay there |
| HopCount.HopsBounded | bf_short.py:3-9 | after the sweep every count is in `[0, len(G) + 1]`, at most its start, and the source's is 0 |
| HopCount.PairClose | bf_short.py:8-9 | right after a pair, the neighbour is at most the node plus one and the node at most the neighbour plus one |
| HopCount.Render | bf_short.py:11-12 | definition of the `"k:v "` rendering; properties in `RenderIsJoin` and `RenderParses` |
| HopCount.RenderIsJoin | bf_short.py:11-12 | the rendering is the `key:value` entries joined by blanks, with a final blank |
| HopCount.EntrySplit | bf_short.py:11 | an entry splits at its colon into the key and the decimal count, which `int` reads back |
| HopCount.RenderParses | bf_short.py:11-12 | split at blanks the rendering is one entry per key plus an empty tail, and each entry gives back its key and count |
| SpanningTree.SpanningTree | spanning_tree.py:4-20 | the result is a fresh `n`-by-`n` matrix that is 1 exactly where the sweep marked a link, in either orientation, and 0 elsewhere |
| SpanningTree.SweepRow | spanning_tree.py:12-19 | the inner loop for row `i`: the messages and marks afterwards are those of visiting `(i, j)` for `j = i + 1 .. n - 1` in order from the messages before, and the matrix is still 1 exactly at the marked links |
| SpanningTree.Visit | spanning_tree.py:14-18 | one inner-loop step, keeping the message count; properties in `VisitGood` |
| SpanningTree.Rows | spanning_tree.py:11-19 | the first `i` rows swept, keeping the message count; properties in `RowsGood` and `MatrixShape` |
| SpanningTree.VisitGood | spanning_tree.py:14-18 | one visit keeps the message invariants and marks only links `(i, j)` with `i < j` and `G[i][j] == 1` |
| SpanningTree.RowsGood | spanning_tree.py:11-19 | every message names itself, has a root no later than itself and records its distance from that root, and every mark is an upper-triangle edge of `G` |
| SpanningTree.MatrixShape | spanning_tree.py:7-19 | the matrix is symmetric, 0 on the diagonal and 1 only where `G` has a 1 above the diagonal |
| SpanningTree.UpperTriangleOnly | spanning_tree.py:13-14 | two inputs that agree above the diagonal give the same result |
| SpanningTree.CycleKept | spanning_tree.py:11-19 | on the 4-cycle every edge is marked, so the result can hold a cycle |
| SpanningTree.SampleSweep | spanning_tree.py:24-29 | on the sample graph the marks are 0-1, 0-2, 1-4, 2-3 and 2-4, closing the cycle 0-1-4-2-0 |

## Left out

- The `trie` class in both files is an empty stub with no behaviour.
- `exec` in `_gen_octet` is modelled as the decimal value of eight bits.
- Exception types are not told apart. TypeError, AssertionError, ValueError (from `int()` or from `index(True)`) and KeyError are all the one failure result `None`.
- IpUtils.NewIp: requires that a valid text has exactly four fields. Under Python 2 `map` pads unequal lists with `None`, and under Python 3 it stops at the shorter list, so a fifth field has no single meaning.
- IpUtils.IpParser: requires the same of texts that reach the address branch.
- LegacyIpUtils.NewIp: requires every field `int` reads to be in -128..255. numpy's `binary_repr(v, width=8)` writes such a field in exactly eight bits, two's complement when negative. Below -128 or above 255 it needs more than eight bits, and those fields are not modelled.
- LegacyIpUtils.NewCidr: has the same requirement for the address part.
- LegacyIpUtils.IpParser: has the same requirement for both branches.
- `int()` is modelled for ASCII digits with an optional sign and surrounding ASCII whitespace. Underscores and non-ASCII digits are not modelled.
- The classes are values. `CIDRBlock.__init__` clearing host bits in place (`first &= bitmask`) is one expression that builds the block, so aliasing of `bitarray` objects is not modelled. `getbits` is the `bits` field.
- `IpUtils.CidrRoundTrip` and `IpUtils.ParseBlockText` read back only blocks with a prefix length of at least 10. This is what the source does, because the CIDR pattern requires two mask digits.
- The sample values of the package's own tests are not proved one by one: the range of `160.4.0.0/15`, the mask of a /20, and `lpm` of `68.211.6.120`. The general lemmas above cover them (`MatchesIffInRange`, `MaskValue`, `LpmSpec`, `RangeAndMaskText`).
- `print` calls, the `__main__` drivers of every file, `lpm_example.py` (a print-only driver), `iputils/__init__.py` (re-exports) and `iputils/test.py` (unit tests) are not modelled.
- BellmanFord.BellmanFord: returns the distance dictionary instead of printing it after each pass.
- Nodes are a set (the driver passes `set(...)`). Edges are a sequence in the dictionary's iteration order. A node list with repeats, which would add passes, is not modelled.
- Dictionary iteration order is a fixed sequence. In `bf_short.py` it is `G`'s keys in order, then the source when it is not a key, which is insertion order.
- HopCount.BellmanFord: requires distinct keys, as any dictionary has.
- BellmanFord.Relax: an edge with an end that is not a key leaves the map unchanged. The source raises KeyError, which the methods report before any such edge is relaxed.
- HopCount.Step: handles such a pair the same way.
- SpanningTree.SpanningTree: requires every row read to be at least `len(G)` long. A shorter row makes the source raise IndexError, which is not modelled as a result.
- SpanningTree.SpanningTree: the numpy matrix is a Dafny `array2<int>`, with no numpy dtype behaviour.
- The spanning-tree result being a tree is not claimed. `CycleKept` and `SampleSweep` show it need not be one.
