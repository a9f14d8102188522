# Library linking and pool-price encoding of a local Uniswap V3 deployment

The deployment script `scripts/deploy.js` brings up a Uniswap V3 stack on a local chain. Two of
its utilities carry logic of their own, and this project models both and proves what they promise:

- **`linkLibraries`** links deployed library addresses into a contract's bytecode. It takes
  - a `0x`-prefixed hex bytecode string;
  - a link-reference map `file -> library -> [{start, length}]`;
  - a map `library -> address`.

  It visits every file, library and occurrence in key order. For each library, it throws if
  the name has no address, and otherwise normalises the address with
  `utils.getAddress(...).toLowerCase().slice(2)`. It then splices that address over the hex
  characters `[2 + 2*start, 2 + 2*start + 2*length)` of each occurrence.
- **`encodePriceSqrt`** turns a reserve ratio into the pool's initial price as a "64x96"
  fixed-point number: floor(sqrt(reserve1 / reserve0) · 2^96).

The project has four files:

- `results.dfy` (`Results`) holds the `Option` and `Result` wrappers. A thrown JavaScript
  error becomes an `Err` or a `None`.
- `linker.dfy` (`Linker`) holds the link-reference data, address normalisation and JavaScript's
  `slice`. It also holds the specification function `Link`, which resolves every library
  (`FilePatches`) and then splices one patch per occurrence (`Apply`). The methods
  `LinkLibraries`, `LinkFile` and `SpliceOccurrences` are the source's three nested `forEach` loops
  reassigning `bytecode`, and `LinkLibraries` is proved equal to `Link`.
- `linker_properties.dfy` (`LinkerProperties`) proves what linking guarantees:
  - when it fails, and which error it reports;
  - that the `0x` prefix is kept;
  - when the length is kept;
  - which characters change, and which do not;
  - that the visiting order does not matter;
  - idempotence;
  - the deployment's own call with the `NFTDescriptor` library at byte 1261.
- `price.dfy` (`PriceEncoder`) holds the exact integer square root and `EncodePriceSqrt`. It
  proves:
  - the floor square-root bounds;
  - the error cases;
  - the 1:1 price the deployment uses;
  - perfect squares;
  - scale invariance;
  - monotonicity.

The code behaves differently from two claims sometimes made about linking. The model follows the
code:

- **Linking keeps the bytecode length only when every occurrence is a 20-byte slot inside the
  bytecode.** `linkLibraries` never checks `length`. An occurrence of any other length that lies
  inside the bytecode changes the length by 40 − 2·length (`SpliceLength`). For example, a
  `{start: 5, length: 2}` occurrence inside the bytecode grows the string by 36 characters; it
  does not overwrite bytes [5, 7). An occurrence running past the end is cut off at the end and
  the address is appended, so even a 20-byte slot then grows the string.
- **Re-linking an already linked bytecode with the same references and addresses does not corrupt
  it.** When the occurrences are well-formed (20 bytes, inside the bytecode, not overlapping), it
  returns the same string (`LinkIdempotent`).

## Model

| member | source | states |
|---|---|---|
| Linker.NormaliseAddress | scripts/deploy.js:28-31 | `getAddress(s).toLowerCase().slice(2)` succeeds exactly for `(0x)?` followed by 40 hex digits; the result is those 40 digits, each lower-cased |
| Linker.Resolve | scripts/deploy.js:25-31 | a library resolves iff its name has an own entry and that entry is an address; `Missing link library name` is reported exactly when the name is absent; otherwise the error is the one `getAddress` throws for a malformed address |
| Linker.Slice | scripts/deploy.js:36-39 | JavaScript `slice` with clamping: an in-range slice is the sub-sequence, a range running past the end stops at the end, and a range starting at or past the end (or empty) gives "" |
| Linker.SpliceOccurrences | scripts/deploy.js:32-41 | the innermost loop leaves `bytecode` equal to the patches of all occurrences of one library performed in order |
| Linker.LinkFile | scripts/deploy.js:24-42 | the middle loop over one file's libraries returns the first unresolvable library's error, or the code with every occurrence of every library spliced in order |
| Linker.LinkLibraries | scripts/deploy.js:16-45 | the nested loops return exactly `Link`: the first unresolvable library's error, or the bytecode with every occurrence spliced in iteration order |
| LinkerProperties.SpliceLength | scripts/deploy.js:34-39 | one splice changes the length by 40 − 2·length inside the string; past the end it truncates and appends; a start beyond the end appends the address |
| LinkerProperties.SpliceContents | scripts/deploy.js:36-39 | inside the string, a splice keeps the text before `start2`, writes the address, and keeps the text after `start2 + length2` |
| LinkerProperties.ApplyDisjoint | scripts/deploy.js:32-43 | non-overlapping, length-preserving splices write each address over its own range and leave every other character unchanged |
| LinkerProperties.ApplyOrderIndependent | scripts/deploy.js:23-43 | the same non-overlapping splices performed in any order give the same string |
| LinkerProperties.ApplyIdempotent | scripts/deploy.js:32-43 | performing the same non-overlapping splices a second time changes nothing |
| LinkerProperties.FilePatchesMatchSites | scripts/deploy.js:23-41 | resolution yields exactly one patch per occurrence, in iteration order, carrying its library's normalised address at `2 + 2*start` with width `2*length` |
| LinkerProperties.LinkSucceedsIff | scripts/deploy.js:23-31 | linking succeeds iff every library named anywhere in the map has a supplied, well-formed address |
| LinkerProperties.LinkFailsAtFirstUnresolved | scripts/deploy.js:23-31 | a failure is the error of the first library, in iteration order, that cannot be resolved; it is `MissingLibrary` (the only error message the script itself produces) exactly when that name has no entry |
| LinkerProperties.LinkMissingLibraryFails | scripts/deploy.js:25-27 | a library named in the map without an address makes linking throw, even with no occurrences |
| LinkerProperties.LinkWithoutOccurrences | scripts/deploy.js:23-44 | with no occurrences anywhere, a successful link returns the bytecode unchanged |
| LinkerProperties.LinkKeepsPrefix | scripts/deploy.js:34-39 | the `0x` prefix survives linking, since every splice starts at hex position 2 or later |
| LinkerProperties.LinkKeepsLength | scripts/deploy.js:34-39 | when every occurrence is a 20-byte slot inside the bytecode, the linked bytecode has the input's length |
| LinkerProperties.LinkWritesEveryOccurrence | scripts/deploy.js:28-41 | for well-formed references, each occurrence's 40 hex characters hold its library's lower-cased, `0x`-less address, and every character outside all occurrences is unchanged |
| LinkerProperties.LinkOrderIndependent | scripts/deploy.js:23-43 | for well-formed references, two maps listing the same occurrences of the same libraries, in any order, link to the same bytecode |
| LinkerProperties.LinkIdempotent | scripts/deploy.js:16-45 | for well-formed references, linking the linked bytecode again returns it unchanged |
| LinkerProperties.NormaliseIdempotent | scripts/deploy.js:28-31 | normalising a normalised address, with or without `0x`, gives it back |
| LinkerProperties.DeployDescriptorLink | scripts/deploy.js:85-102 | the deployment's call puts the `NFTDescriptor` address, lower-cased, on hex characters [2524, 2564) and changes nothing else |
| LinkerProperties.DeployDescriptorMissing | scripts/deploy.js:85-102 | the same call without an `NFTDescriptor` address fails naming that library |
| PriceEncoder.FloorSqrt | scripts/deploy.js:54-56 | the integer square root: r² ≤ m < (r + 1)² |
| PriceEncoder.EncodePriceSqrt | scripts/deploy.js:49-59 | in exact arithmetic, it fails exactly when reserve0 is 0 (Infinity or NaN) or the ratio is negative (square root NaN); otherwise the result n is floor(sqrt(reserve1/reserve0)·2^96), that is n²·reserve0 ≤ reserve1·2^192 < (n + 1)²·reserve0 |
| PriceEncoder.SqrtBoundsUnique | scripts/deploy.js:54-56 | the floor of a square root is unique: at most one n satisfies the bounds |
| PriceEncoder.EncodeOneToOne | scripts/deploy.js:112 | the deployment's `encodePriceSqrt(1, 1)` is exactly 2^96 |
| PriceEncoder.EncodePerfectSquare | scripts/deploy.js:49-59 | a ratio k²·c : c encodes as exactly k·2^96 |
| PriceEncoder.EncodeScaleInvariant | scripts/deploy.js:49-59 | only the ratio matters: scaling both reserves by any non-zero c gives the same result or error |
| PriceEncoder.EncodeMonotoneInReserve1 | scripts/deploy.js:49-59 | for a fixed positive reserve0, the price never decreases as reserve1 grows |
| PriceEncoder.EncodeAntitoneInReserve0 | scripts/deploy.js:49-59 | for a fixed non-negative reserve1, the price never increases as a positive reserve0 grows |

## Left out

- `main` (scripts/deploy.js:61-) is left out. It deploys contracts, creates a pool and logs addresses, which is network and chain I/O; its two calls into the core are modelled as `DeployDescriptorLink`, `DeployDescriptorMissing` and `EncodeOneToOne`.
- Loading artifacts and bytecode JSON files (`require`) is left out; the bytecode and link references are parameters.
- Linker.NormaliseAddress: accepts every mixed-case 40-digit address. `utils.getAddress` also rejects a mixed-case address whose EIP-55 checksum is wrong, which needs Keccak-256 and is not modelled.
- Linker.NormaliseAddress: the ICAP (`XE…`) address form that `utils.getAddress` accepts is not modelled; the model rejects it.
- Linker.Resolve: `InvalidAddress(name)` labels a malformed-address failure with the library's name, so that the error can be traced to its library; the error `utils.getAddress` throws names the rejected address value instead, and its message text is not modelled.
- Non-string library addresses are not modelled; an address is always a string.
- Linker.LinkLibraries: map order is the sequence order given. JavaScript's `Object.keys` puts integer-like keys first in ascending order; the model takes the order as already produced.
- `start` and `length` are naturals. Fractional or negative numbers, which JavaScript's `slice` would coerce, are not modelled.
- PriceEncoder.EncodePriceSqrt: computes the exact floor. bignumber.js rounds the quotient and the square root to 40 places after the decimal point (half-up). The two agree on every ratio whose quotient and square root are exact at 40 places, which includes every ratio k²·c : c (an integer perfect square) and the deployment's 1:1. Below a ratio of roughly 10^-22 few significant digits survive, and multiplying by 2^96 magnifies the rounding: the results can differ by many units, and a ratio below 0.5·10^-40 rounds to 0.
- PriceEncoder.EncodePriceSqrt: a negative ratio whose magnitude is below 0.5·10^-40 rounds to −0 in bignumber.js, whose square root is −0, so the source returns 0 where the model returns `Err(NegativeRatio)`.
- Linker.Slice: lengths and positions count characters. JavaScript's `.length` and `slice` count UTF-16 code units, which differ only for characters outside the Basic Multilingual Plane; a hex bytecode is ASCII and never holds one, but the model does not require hex.
- PriceEncoder.EncodePriceSqrt: reserves are integers. Fractional reserves written as decimal strings are not modelled.
- The `bn.config` global setting (scripts/deploy.js:47) is folded into the exact-floor abstraction above.
- `console.log` output and process exit codes are I/O and are left out.
