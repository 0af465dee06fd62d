# ip-cidr in Dafny

A model of the `ip-cidr` crate. The crate does two things:
- It parses IPv4 and IPv6 addresses with an optional `/prefix` (CIDR notation, section 3.1 of RFC 4632).
- It computes with CIDR blocks: mask, network and broadcast address, block size, membership, and indexed lookup.

The model has three layers.

- **The text parser** (`src/parser.rs`).
  - `ParserSpec` gives each handler of the parser's state machine as a function on a snapshot of the parser's fields.
  - `IpParser.Parser` is the parser object itself. It is a class with the same fields and an eight-slot `array` for the component buffer. Its `on_*` methods update the fields in place. `read_ip` splices the IPv6 zero run into the buffer in place. `parse` is a `while` loop over the input bytes.
  - Every method is proved to leave the fields and return the result exactly as the matching `ParserSpec` function does. So `IpParser.ParseIp(text) == ParserSpec.Parse(text)`.
  - `ParserProperties`, `ParserZeroRun`, `ParserPrefix` and `ParserErrors` prove what the parser promises about `ParserSpec.Parse`:
    - round trips from the textual forms of addresses (dotted decimal, eight hexadecimal groups, `::` compression as in section 2.2 of RFC 4291, each with or without `/prefix`);
    - the error each malformed input gets;
    - the bounds that keep every buffer write in range.
- **The CIDR engine** (`src/base.rs`).
  - `Base` is written once over the width `bits`. An address is its bit pattern, a natural number below 2^bits.
  - `Bits` holds the operations the engine uses on words of width `w`. `&`, `|` and `!` are defined bit by bit, and their arithmetic meaning is proved. `<<` and `wrapping_add` are defined arithmetically modulo 2^w.
  - `V4` and `V6` instantiate the engine at 32 and 128 bits. They prove the crate's own test expectations for each family.
- **The dual-family façade** (`src/lib.rs`). `IpCidr.Cidr` is the `V4`/`V6` enum. Its operations dispatch to the engine, and the IPv4 index is truncated to 32 bits.

Supporting modules:
- `Net`: the `core::net` address values as integers, with the octet and segment constructors and their inverses.
- `Radix`: `from_str_radix` over bytes, and a formatter of shortest numerals. Parsing a formatted number is proved to give it back. The converse does not hold, because of leading zeros, a leading `+` and upper-case hex.
- `AddressText`: the textual forms of addresses, used as the reference in the parser's round-trip lemmas.

Behaviour the model follows as the code is written:
- `256.0.0.1` fails with `Ipv4ComponentOverflow(256)`, not `InvalidComponent`. Any decimal component up to 65535 is stored, and `read_ip` rejects it later.
- A `.` right after a `:` (`1:.`) reports `InvalidIpv4` (line 157). A `.` after a digit once IPv6 is committed reports `InvalidIpv6` (line 150).
- A single trailing `:` is accepted once a `::` was read: `1::2:` parses to `1::2`.
- A `::` may stand for no group at all: eight groups around a `::` parse.
- Embedded IPv4 in IPv6 text is not accepted.
- `size()` of a `/0` block is the representation's maximum, 2^bits − 1, not 2^bits. `mask(0)` is zero.

## Model

| member | source | states |
|---|---|---|
| Base.New | src/base.rs:23-32 | `None` exactly when the prefix exceeds `BITS_LEN`; otherwise the block's address and prefix are the inputs, unchanged |
| Base.Mask | src/base.rs:59-67 | zero for prefix 0; for 1 ≤ p ≤ bits, exactly the top p bits set (2^bits − 2^(bits−p)); all ones when the saturating shift is 0 |
| Base.MaskBits | src/base.rs:59-67 | bit i of `mask(p)` is set exactly when i ≥ bits − p, for 1 ≤ p ≤ bits |
| Base.NetworkAddr | src/base.rs:71-75 | `addr & mask` is the address with its low bits − prefix bits cleared (0 for /0), never above the address |
| Base.BroadcastAddr | src/base.rs:79-83 | `addr \| !mask` is the network address plus 2^(bits−prefix) − 1 (all ones for /0), never below the address and within the word |
| Base.Size | src/base.rs:87-92 | 2^(bits−prefix) for a prefix of at least 1; the representation maximum 2^bits − 1 for /0 |
| Base.Contains | src/base.rs:109-111 | the masked-address comparison holds exactly when network ≤ addr ≤ broadcast |
| Base.GetUnchecked | src/base.rs:134-137 | network address plus idx, wrapping modulo 2^bits |
| Base.Get | src/base.rs:121-127 | `None` exactly when idx ≥ size; otherwise `get_unchecked(idx)`, which then does not wrap and is contained in the block |
| Base.IndexInBlock | src/base.rs:121-127 | every index below the size lands at or below the broadcast address |
| Base.NetworkBroadcastBounds | src/base.rs:71-111 | network ≤ addr ≤ broadcast, and the block contains its network address, its broadcast address and its own address |
| Base.NetworkIdempotent | src/base.rs:71-75 | taking the network address twice is the same as taking it once |
| Base.ContainsSameNetwork | src/base.rs:109-111 | an address is contained exactly when it has the block's network address |
| Base.SizeSpansBlock | src/base.rs:79-92 | for a prefix of at least 1, network + size − 1 is the broadcast address |
| Base.GetEnumeratesBlock | src/base.rs:121-137 | every contained address at offset below the size is what `get` returns at that offset |
| Base.GetInjective | src/base.rs:121-137 | distinct successful indices give distinct addresses |
| Base.SlashZeroSaturation | src/base.rs:87-137 | in a /0 block `get` never returns the all-ones address, while `get_unchecked` reaches it |
| Base.Compare | src/base.rs:11-16 | the derived ordering: equal exactly for equal blocks, less exactly when the prefix is smaller or the prefixes tie and the address is smaller |
| Base.CompareIsTotalOrder | src/base.rs:11-16 | the derived ordering is antisymmetric and transitive |
| V4.WordRange | src/v4.rs:16 | the engine's word range at width 32 is the `u32` range |
| V4.PrefixBound | src/v4.rs:7-16 | an IPv4 block with prefix 33 is refused and one with prefix 32 accepted |
| V4.SlashZero | tests/ipv4.rs:9-13 | `0.0.0.0/0` has size `u32::MAX`; `get(u32::MAX)` is `None`; `get(u32::MAX - 1)` is `255.255.255.254` |
| V4.PrefixSizes | tests/ipv4.rs:15-22 | for prefixes 1 to 32 the size is 2^(32−p) and every address below it is in `0.0.0.0/p` |
| V4.WrapAround | tests/ipv4.rs:26-34 | `255.255.255.30/31` has size 2; `get_unchecked` gives .30, .31, the next address, `255.255.255.255` at 225 and wraps to `0.0.0.0` at 226 |
| V6.WordRange | src/v6.rs:16 | the engine's word range at width 128 is the `u128` range |
| V6.PrefixBound | src/v6.rs:7-16 | an IPv6 block with prefix 129 is refused and one with prefix 128 accepted |
| V6.SlashZero | tests/ipv6.rs:9-13 | `::/0` has size `u128::MAX`; `get(u128::MAX)` is `None`; `get(u128::MAX - 1)` is `ffff:…:fffe` |
| V6.PrefixSizes | tests/ipv6.rs:14-23 | for prefixes 1 to 128 the size is 2^(128−p), and `::` and the address size − 1 are in `::/p` |
| V6.WrapAround | tests/ipv6.rs:26-34 | `ffff:…:fffc/127` has size 2; `get_unchecked` gives consecutive addresses up to all ones at 3 and wraps to `::` at 4 |
| IpCidr.Width | src/lib.rs:26-28 | the family's bit length: 32 for IPv4, 128 for IPv6 |
| IpCidr.NewV4 | src/lib.rs:45-50 | `None` exactly when the prefix exceeds 32; otherwise the IPv4 block of the inputs |
| IpCidr.NewV6 | src/lib.rs:56-61 | `None` exactly when the prefix exceeds 128; otherwise the IPv6 block of the inputs |
| IpCidr.New | src/lib.rs:34-39 | `None` exactly when the prefix exceeds the address family's width; otherwise `addr()` and `prefix()` give back the inputs |
| IpCidr.Addr | src/lib.rs:65-70 | the stored address, in the block's family |
| IpCidr.Prefix | src/lib.rs:74-79 | the stored prefix, at most the family's width |
| IpCidr.NetworkAddr | src/lib.rs:83-88 | the per-family network address, in the block's family, not above the address |
| IpCidr.BroadcastAddr | src/lib.rs:92-97 | the per-family broadcast address, in the block's family, not below the address |
| IpCidr.Size | src/lib.rs:101-106 | the per-family size; an IPv4 size stays below 2^32 when widened |
| IpCidr.Contains | src/lib.rs:110-116 | false across families; otherwise network ≤ addr ≤ broadcast in the block's family |
| IpCidr.TruncateToU32 | src/lib.rs:122 | `idx as u32` keeps the index below 2^32 unchanged and otherwise drops a multiple of 2^32 |
| IpCidr.Get | src/lib.rs:120-131 | IPv4: `None` exactly when the truncated index reaches the size. IPv6: `None` exactly when the index does. A result is `get_unchecked(idx)` and is contained |
| IpCidr.GetUnchecked | src/lib.rs:138-143 | (network + truncated idx) mod 2^32 for IPv4, (network + idx) mod 2^128 for IPv6 |
| IpCidr.Compare | src/lib.rs:15-22 | the derived enum ordering: every IPv4 block before every IPv6 block; within a family, the engine's ordering |
| IpCidr.CompareIsTotalOrder | src/lib.rs:15-22 | the enum ordering is antisymmetric and transitive |
| IpCidr.NewFromParts | src/lib.rs:34-79 | rebuilding a block from its `addr()` and `prefix()` gives the block back |
| IpCidr.CrossFamilyNeverContains | src/lib.rs:110-116 | no block contains an address of the other family |
| IpCidr.V4IndexTruncation | src/lib.rs:120-125 | `get(2^32)` on `10.0.0.0/24` (size 256) returns `10.0.0.0`, because the index is truncated |
| IpCidr.ContainsNetworkAndBroadcast | src/lib.rs:83-116 | every block contains its own address, its network address and its broadcast address |
| Net.Ipv4FromOctets | src/parser.rs:92 | `Ipv4Addr::new(a, b, c, d)` is the big-endian value of the four octets |
| Net.Ipv4OctetsRoundTrip | src/parser.rs:92 | the four octets are recovered from the address, so the address determines them |
| Net.Ipv6FromSegments | src/parser.rs:118-123 | `Ipv6Addr::new` of eight segments is their big-endian value in base 2^16 |
| Net.Ipv6SegmentsRoundTrip | src/parser.rs:118-123 | the eight segments are recovered from the address |
| Radix.DigitValue | src/parser.rs:50-57 | a byte is a digit exactly when it is 0-9 (radix 10) or an ASCII hex digit (radix 16), and its value is below the radix |
| Radix.FromStrRadix | src/parser.rs:50-57 | succeeds exactly when the digits after an optional leading `+` are non-empty, all digits of the radix, and of value at most the type's maximum; the result is that value |
| Radix.AccumulateCorrect | src/parser.rs:50-57 | the checked multiply-add loop succeeds exactly when every byte is a digit and the unchecked fold stays within the maximum, and then agrees with it |
| Radix.FoldIsValue | src/parser.rs:50-57 | the left-to-right accumulation computes the big-endian value of the digits |
| Radix.LeadingZero | src/parser.rs:50 | a leading `0` does not change the value of a numeral |
| Radix.ParseFormatted | src/parser.rs:232 | parsing the shortest numeral of n gives n back |
| ParserSpec.StartInv | src/parser.rs:364-373 | the parser as `parse_ip` sets it up satisfies the buffer invariant |
| ParserSpec.Slice | src/parser.rs:38-42 | the bytes from the digit start to the separator, empty when the saturating length is zero |
| ParserSpec.ExtractComponent | src/parser.rs:37-71 | extracting a component keeps the count within the buffer and the `::` position within the count |
| ParserSpec.Store | src/parser.rs:62-70 | storing a parsed component keeps the buffer invariant |
| ParserSpec.OctetOverflow | src/parser.rs:77-84 | `None` exactly when all four components are at most 255; otherwise the first one above 255 |
| ParserSpec.ReadIp | src/parser.rs:73-131 | keeps the invariant; a success happens only once a family is committed, and is an address of that family; with no family it is `MissingIp` in `Initial` and `InvalidIp` otherwise |
| ParserSpec.OnDigit | src/parser.rs:134-144 | keeps the invariant |
| ParserSpec.OnV4Sep | src/parser.rs:147-161 | keeps the invariant |
| ParserSpec.OnV6Sep | src/parser.rs:164-195 | keeps the invariant |
| ParserSpec.OnIpEnd | src/parser.rs:198-217 | keeps the invariant; an address is produced only in a committed family, and in that family |
| ParserSpec.OnCidrSep | src/parser.rs:220-252 | No bytes after the `/` is `MissingCidr`. Bytes that are not a decimal `u8` (an optional `+`, digits, at most 255), or no family, give `InvalidCidr` with all the bytes after the `/`. Otherwise the value is the prefix, or the family's prefix-overflow error above 32 or 128 |
| ParserSpec.Step | src/parser.rs:257-286 | one turn of the loop keeps the invariant when the parse goes on |
| ParserSpec.Finish | src/parser.rs:289-292 | at the end of the input a success carries no prefix |
| IpParser.MoveThenZeroIsSplice | src/parser.rs:99-111 | moving the groups after the `::` to the end of the buffer, then zero-filling the gap, gives the groups before the `::`, then 8 − n zeros, then the groups after it |
| IpParser.Parser.constructor | src/parser.rs:364-373 | the parser starts in `Initial`, with no family, no flags, an all-zero buffer and the input text |
| IpParser.Parser.ExtractComponent | src/parser.rs:37-71 | the fields and the result are those of `ParserSpec.ExtractComponent` |
| IpParser.Parser.CopyComponents | src/parser.rs:106-109 | `ptr::copy` on the buffer: the moved range lands at its destination, even when the ranges overlap; nothing else changes |
| IpParser.Parser.ZeroComponents | src/parser.rs:110 | `ptr::write_bytes` zeroes the range and changes nothing else |
| IpParser.Parser.SpliceZeroRun | src/parser.rs:99-111 | the buffer becomes `Splice` of the old buffer at the `::` position and the component count |
| IpParser.Parser.ReadIp | src/parser.rs:73-131 | the fields and the result are those of `ParserSpec.ReadIp` |
| IpParser.Parser.ReadIpV4 | src/parser.rs:87-95 | the IPv4 arm computes `ParserSpec.ReadIp` and changes nothing |
| IpParser.Parser.ReadIpV6 | src/parser.rs:96-125 | the IPv6 arm computes `ParserSpec.ReadIp`, splicing the buffer in place |
| IpParser.Parser.OnDigit | src/parser.rs:134-144 | the fields and the result are those of `ParserSpec.OnDigit` |
| IpParser.Parser.OnV4Sep | src/parser.rs:147-161 | the fields and the result are those of `ParserSpec.OnV4Sep` |
| IpParser.Parser.OnV6Sep | src/parser.rs:164-195 | the fields and the result are those of `ParserSpec.OnV6Sep` |
| IpParser.Parser.OnIpEnd | src/parser.rs:198-217 | the fields and the result are those of `ParserSpec.OnIpEnd` |
| IpParser.Parser.OnCidrSep | src/parser.rs:220-252 | the result is that of `ParserSpec.OnCidrSep`, and no field changes |
| IpParser.Parser.Parse | src/parser.rs:254-293 | the loop returns the machine's run over the whole input, starting from the parser's fields at the call |
| IpParser.ParseIp | src/parser.rs:361-375 | `parse_ip` returns exactly `ParserSpec.Parse` of the input bytes |
| ParserErrors.SeparatorFirst | src/parser.rs:157-189 | before any digit, `.` fails with `InvalidIpv4`, and `:` only sets the leading-`::` flag and moves to `V6Sep` |
| ParserErrors.SeparatorAfterDigit | src/parser.rs:147-172 | after a digit, `.` with IPv6 committed fails with `InvalidIpv6`, and `:` with IPv4 committed fails with `InvalidIpv4`; otherwise `.` commits to IPv4 and `:` to IPv6 |
| ParserErrors.StepConsistent | src/parser.rs:134-195 | every turn keeps the family and the state consistent: no family before the first separator, and IPv4 never in `V6Sep` |
| ParserErrors.FamilyKept | src/parser.rs:147-195 | once committed, the family never changes |
| ParserErrors.ExtractBounds | src/parser.rs:44-65 | a 5th IPv4 component fails with `Ipv4InvalidComponentSize(5)` and a 9th IPv6 component with `Ipv6InvalidComponentSize(9)`; the count grows by at most one and stays at most 8 |
| ParserErrors.ExtractValue | src/parser.rs:37-70 | the digits since the component start are stored when they form a number below 2^16 in the family's radix, and are otherwise reported as `InvalidComponent` |
| ParserErrors.StepKeepsBounds | src/parser.rs:46-65 | every turn keeps the count within the family's capacity, so every buffer write is in range |
| ParserErrors.ReadIpV4 | src/parser.rs:77-95 | IPv4 succeeds exactly with four components each at most 255, and gives `a.b.c.d` in collection order. A wrong count fails with `Ipv4InvalidComponentSize(n)` before any octet is checked. Otherwise the first octet above 255 fails with `Ipv4ComponentOverflow` |
| ParserErrors.ReadIpV6 | src/parser.rs:96-125 | With a `::` at z and n < 8 components, the buffer becomes the first z components, then 8 − n zeros, then components z to n. With 8 components it is unchanged. Without `::`, n < 8 fails with `Ipv6InvalidComponentSize(n)` |
| ParserErrors.AssembledV4 | src/parser.rs:77-95 | four collected components give the first overflow or the address of the four octets |
| ParserErrors.Ipv4Components | src/parser.rs:77-95 | four dotted decimal components of any 16-bit value (`256.0.0.1` included) fail at the first one above 255, or give the address |
| ParserErrors.TooFewComponents | src/parser.rs:87-115 | two or more components, but fewer than the family needs and with no `::`, fail with the family's component-size error and the count |
| ParserErrors.EndOfInput | src/parser.rs:198-217 | at the end of the input: nothing read is `MissingIp`, a trailing `.` is `InvalidIpv4`, a trailing single `:` is `InvalidIpv6`, a `::` with no groups is the unspecified address, and digits with no family are `InvalidIp` |
| ParserErrors.DigitsOnly | src/parser.rs:126-128 | a non-empty input of hex digits only fails with `InvalidIp` |
| ParserErrors.Reach | src/parser.rs:257-287 | the machine run up to position k keeps the invariant when it continues |
| ParserErrors.RunReach | src/parser.rs:257-292 | a run is the run up to k followed by the run from k |
| ParserErrors.ReachStopsOnError | src/parser.rs:257-285 | without a `/` the loop stops only with an error |
| ParserErrors.FirstUnexpectedByte | src/parser.rs:280-284 | the first byte outside hex digits, `.`, `:` and `/` (non-ASCII included) fails the parse with `UnexpectedCharacter(byte, index)`, unless an earlier byte already failed it |
| ParserErrors.EmptyInput | src/parser.rs:215 | empty input is `MissingIp` |
| ParserErrors.DoubleColonAlone | src/parser.rs:207-209 | `::` alone is the unspecified address |
| ParserErrors.SecondDoubleColon | src/parser.rs:174-177 | `0:::` fails with `Ipv6MultipleZeroAbbrv` |
| ParserErrors.LeadingColonThenDigit | src/parser.rs:137 | `:1` fails with `InvalidIpv6` |
| ParserErrors.TrailingDot | src/parser.rs:206 | `1.` fails with `InvalidIpv4` |
| ParserErrors.TrailingColon | src/parser.rs:214 | `1:` fails with `InvalidIpv6` |
| ParserErrors.DotAfterColon | src/parser.rs:157 | `1:.` fails with `InvalidIpv4` |
| ParserErrors.TrailingColonAfterGap | src/parser.rs:207-211 | `1::2:` is accepted as `1::2` |
| ParserErrors.UnexpectedFirstByte | src/parser.rs:280-281 | `x` fails with `UnexpectedCharacter('x', 0)` |
| ParserProperties.StayInDigit | src/parser.rs:136 | a run of hex digits in the `Digit` state leaves the rest of the run unaffected, as if they were skipped |
| ParserProperties.NumeralThenSep | src/parser.rs:147-172 | a numeral followed by the family's separator stores its value in the next slot and commits to the family |
| ParserProperties.RunJoined | src/parser.rs:257-287 | reading separated numerals collects all but the last in order and leaves the last pending |
| ParserProperties.ParseJoined | src/parser.rs:254-293 | a whole input of separated numerals collects them in order and ends in the address assembled from them |
| ParserProperties.Ipv4RoundTrip | src/parser.rs:361-375 | dotted decimal text of four octets parses to their address with no prefix |
| ParserProperties.Ipv6RoundTrip | src/parser.rs:361-375 | eight colon-separated hexadecimal groups parse to their address with no prefix |
| ParserZeroRun.Expanded | src/parser.rs:99-111 | the groups before the `::`, zeros, then the groups after it, eight in all |
| ParserZeroRun.RunGap | src/parser.rs:164-189 | the groups before a `::` and the `::` itself bring the parser to the recorded zero run at slot `\|head\|` |
| ParserZeroRun.StoreTail | src/parser.rs:62-65 | the groups after the `::` follow those before it in the zeroed buffer |
| ParserZeroRun.OutcomeGap | src/parser.rs:96-124 | groups collected around a `::` make the address of the expanded groups |
| ParserZeroRun.FinishGap | src/parser.rs:207-212 | input ending right after the `::` gives the expanded address |
| ParserZeroRun.RunTail | src/parser.rs:257-292 | the groups after the `::`, to the end of the input, give the expanded address |
| ParserZeroRun.Ipv6CompressedRoundTrip | src/parser.rs:361-375 | `head::tail`, with at most eight groups in all and either side possibly empty, parses to the address of the groups with the zero run between them |
| ParserPrefix.CidrSuffix | src/parser.rs:220-252 | no bytes after the `/` is `MissingCidr`; `InvalidCidr` of all those bytes exactly when they are not a decimal `u8` (trailing bytes included); otherwise their value, with `+` and leading zeros allowed, is the prefix or the family's overflow error |
| ParserPrefix.CidrSepSuffix | src/parser.rs:220-252 | `on_cidr_sep` at the `/` is `CidrSuffix` of the bytes after it |
| ParserPrefix.StepSlash | src/parser.rs:271-279 | a `/` ends the address as the end of input would, then reads the prefix |
| ParserPrefix.RunPrefix | src/parser.rs:257-279 | the run over `address/rest` is the run over the address alone, then the prefix |
| ParserPrefix.PrefixSplit | src/parser.rs:254-293 | `address/rest` parses as the address does, then takes its prefix from `rest`. Errors in the address come first |
| ParserPrefix.NoSlashNoPrefix | src/parser.rs:289-292 | input without a `/` never yields a prefix |
| ParserPrefix.SuffixFormatted | src/parser.rs:232-249 | the decimal text of a prefix is read back: the prefix, or the family's prefix-overflow error |
| ParserPrefix.Ipv4PrefixRoundTrip | src/parser.rs:220-279 | `a.b.c.d/p` parses to the address and p, or fails with `Ipv4CidrPrefixOverflow(p)` when p > 32 |
| ParserPrefix.Ipv6PrefixRoundTrip | src/parser.rs:220-279 | `s0:…:s7/p` parses to the address and p, or fails with `Ipv6CidrPrefixOverflow(p)` when p > 128 |
| ParserPrefix.Ipv6CompressedPrefixRoundTrip | src/parser.rs:220-279 | `head::tail/p` parses to the expanded address and p, or fails with `Ipv6CidrPrefixOverflow(p)` when p > 128 |
| ParserPrefix.DigitsOnlyThenPrefix | src/parser.rs:271-275 | hex digits with no separator, then `/`, fail with `InvalidIp` before the prefix is read |
| ParserPrefix.Ipv4Suffix | src/parser.rs:254-293 | `a.b.c.d/rest` is the address with whatever prefix or error `rest` makes |
| ParserPrefix.Ipv4PrefixTrailingByte | src/parser.rs:232-250 | `a.b.c.d/24x` fails with `InvalidCidr("24x")` |
| ParserPrefix.Ipv4PrefixSignAndZeros | src/parser.rs:232-239 | `a.b.c.d/+024` parses with prefix 24 |
| ParserPrefix.MissingPrefix | src/parser.rs:221-224 | a valid address followed by a bare `/` fails with `MissingCidr` |

## Left out

- The `Display` implementations of `ParseError`, `Cidr<A>` and the façade are not modelled. They only format strings.
- `ParseError::NonAsciiCharacter` is not modelled. It is declared but never constructed, and non-ASCII bytes take the `UnexpectedCharacter` path. The character payload of `UnexpectedCharacter` is the offending byte.
- The text payloads of `InvalidComponent` and `InvalidCidr` are byte sequences. The unchecked `&str` slicing is not modelled, and neither are lifetimes.
- `u8::from_str_radix` and `u16::from_str_radix` are library calls. `Radix.FromStrRadix` stands in for them: it fails on empty input, a lone `+`, a non-digit, and overflow, and it accepts one leading `+`.
- `core::net` addresses are their bit patterns. `Ipv4Addr::new` and `Ipv6Addr::new` are modelled as `Net.Ipv4FromOctets` and `Net.Ipv6FromSegments`. The address orderings are numeric order on the bit patterns, as `Base.Compare` uses. That matches `Ipv4Addr` and `Ipv6Addr`. Conversions other than these two are not modelled.
- The flag byte `flags` is two booleans, one per flag bit. No other bit is ever set.
- `const fn` evaluation, the `NetworkAddress` trait with its `Debug`/`Display` bounds, and the `Copy`/`Clone`/`Debug` derives carry no behaviour and are not modelled.
- The raw-pointer `ptr::copy` and `ptr::write_bytes` are modelled as an element-by-element memmove on the buffer array, copying in whichever direction is safe for overlapping ranges, and a zero fill.
- ParserSpec.ExtractComponent, ParserSpec.Store, ParserSpec.OnDigit, ParserSpec.OnV4Sep, ParserSpec.OnV6Sep and ParserSpec.Step: their own contracts state only that the buffer invariant is kept. Their outcomes are stated by the `ParserErrors`, `ParserProperties`, `ParserZeroRun` and `ParserPrefix` lemmas.
- ParserErrors.FamilyKept requires `Consistent` (the states that can be reached from the start), not every field combination.
- ParserProperties.RunJoined, ParserProperties.ParseJoined, ParserZeroRun.Ipv6CompressedRoundTrip and the prefix round trips are stated for the canonical shortest numerals `AddressText` writes. Leading zeros are covered for single numerals by `Radix.LeadingZero`, but not for whole addresses.
