# LED gpio patcher for MT7981 firmware images — a Dafny model

The repository patches firmware images in place. A firmware image carries one
or more flattened devicetree blobs (DTBs). Two of them hold LED wiring, so
the patcher rewrites the middle cell of an LED node's `gpios` triplet. It
then recomputes that tree's crc32 and sha1. It writes the new digests over
the old ones in the outer U-Boot FIT tree, which is itself a DTB.

The patcher comes in two forms:
- `fix_led.py` is driven by profiles: targets, each with mapping rules.
- `fix_led_fur602.py` hard-codes two boards, `fur602` and `komi-a31`.

A third script, `extract_mt7981_leds.py`, scrapes `.dts` sources. Three of
its string helpers are modelled here.

Modules, one per part of the program:

| module | what it models |
|---|---|
| `Wrappers`, `Seqs`, `Bytes` | `Option`; Python's `find`, clamped slicing, `startswith`/`endswith`; big-endian words; `align4`; in-place byte writes |
| `FdtHeader` | `DtbHeader.parse` and the 40-byte header (section 5.2 of the Devicetree Specification v0.4) |
| `FdtScan` | `scan_dtbs` |
| `FdtWalk` | the structure-block token walk (sections 5.4.1 and 5.6 of the same specification): `parse_properties` and `collect_node_paths` |
| `FitHashes` | `read_prop_bytes`, `read_c_string_from_value`, `group_fit_image_hashes`, `detect_fit` |
| `GpioPatch` | `patch_gpios_triplet_second` and the two-board `patch_gpios` |
| `FitSync` | the FIT digest sync that ends both patchers |
| `Profile` | `process_single_profile`: target resolution, the mapping loop, digest records, the FIT step |
| `Fur602` | the two-board `main`: board tables, target choice, patch loop, record, exit codes 1/2/0, FIT step |
| `LedScrape` | `extract_board_name`, the brace scan of `parse_led_gpios`, `format_ini_section` |

How the source is represented:
- **Buffers.** The image is an `array<byte>` where the source writes into a
  `bytearray`. It is a `seq<byte>` where the source only reads.
- **Names.** Node paths and property names stay raw bytes.
- **Loops.** Each loop is a `method` proved equal to a recursive function of
  its inputs. The properties are then proved about that function.
- **Exceptions.** `struct.error` and friends become explicit outcomes:
  - `None` when `parse_properties` unpacks a token word past the end of the
    buffer (fix_led.py:119);
  - `Raised` when a patch unpacks its triplet past the end, or packs a value
    that is not an unsigned 32-bit integer;
  - `Crashed` for the two-board `main`.
- **Digests.** CRC-32 and SHA-1 are the two function values of a `Digester`.
  The model places no constraint on them beyond their output lengths.

Two behaviours of the code are worth knowing before reading the model.
First, `process_single_profile` picks a tree by intersecting the wanted
nodes with the node paths of the tree's *properties* (fix_led.py:426-428),
not with `collect_node_paths`. A node with no properties therefore never
makes a tree a candidate. `Profile.AutoSelectChosen` states exactly that.
`FdtWalk.PropertyPathsAreNodePaths` shows that every property path is also
a collected node path or `/`. Second, the code can raise part-way through a
run, after earlier targets have already patched the in-memory image:
- on a truncated token word (fix_led.py:119, unguarded, unlike
  fix_led.py:167-170);
- on a 12-byte `gpios` value running past the buffer (fix_led.py:259);
- on a new value outside 32 bits (fix_led.py:266).

The model carries these raises as outcomes.

## Model

| member | source | states |
|---|---|---|
| Seqs.Find | fix_led.py:94 | `find` returns the least index at or after `lo` where the pattern occurs and fits before `hi`, and -1 only when there is none |
| Seqs.Slice | fix_led.py:151-152 | Python slicing clamps both bounds to the length; each result byte is the source byte at `lo + k` |
| Bytes.UnpackPack | fix_led.py:266 | a word packed big-endian (`>I`) reads back as the same word |
| Bytes.PackUnpack | fix_led.py:259 | packing the word read at `i` gives back the four bytes at `i` |
| Bytes.Be32Injective | fix_led.py:545 | two four-byte windows hold the same word exactly when they hold the same bytes |
| Bytes.Align4 | fix_led.py:85-86 | `align4(x)` is a multiple of 4 with `x <= r < x + 4`, i.e. the least multiple of 4 at or above `x` |
| Bytes.WriteBytes | fix_led.py:555-556 | slice assignment writes `w` at `at`, and every other byte keeps its value |
| FdtHeader.ReadWordsAt | fix_led.py:71 | field `k` of `unpack_from(">10I")` is the big-endian word at `off + 4k` |
| FdtHeader.Parse | fix_led.py:68-74 | no header exactly when fewer than 40 bytes remain or the first word is not 0xD00DFEED; otherwise the ten words at `off` |
| FdtHeader.ParseEncode | fix_led.py:68-74 | a header with the magic, stored at any offset, parses back unchanged |
| FdtHeader.EncodeParse | fix_led.py:68-74 | a parsed header is exactly the 40 bytes it was read from |
| FdtScan.KeptAtAccepted | fix_led.py:97-99 | a magic match contributes a hit exactly when its header parses and `offset + totalsize <= len(blob)` |
| FdtScan.KeepCandidate | fix_led.py:97-99 | the per-match check returns the hit that match contributes |
| FdtScan.KeptAt | fix_led.py:97-99 | one magic match contributes at most one hit, and only at its own offset |
| FdtScan.HitsFrom | fix_led.py:89-101 | the reference scan: a magic word contributes its hit and the search resumes 4 bytes later; its meaning is stated by `HitsAccepted`, `HitsSpaced`, `HitsComplete` and `ScanFindsExactlyAccepted` |
| FdtScan.FindSkipsNoHits | fix_led.py:94-96 | jumping to the next magic match loses no hit, and no match means no more hits |
| FdtScan.ScanDtbs | fix_led.py:89-101 | the scan loop returns the hits of the reference scan from position 0 |
| FdtScan.MagicNoOverlap | fix_led.py:100 | two magic matches are at least 4 bytes apart, so resuming at `idx + 4` skips none |
| FdtScan.ParsedAtMagic | fix_led.py:97 | a header parses only where the magic bytes are |
| FdtScan.HitsAccepted | fix_led.py:89-101 | every reported hit is an accepted blob |
| FdtScan.HitsSpaced | fix_led.py:89-101 | reported offsets increase by at least 4 |
| FdtScan.HitsComplete | fix_led.py:89-101 | every accepted blob is reported, so a rejected candidate does not stop the scan |
| FdtScan.ScanFindsExactlyAccepted | fix_led.py:89-101 | a hit is reported if and only if a blob at that offset is accepted |
| FdtScan.ScanAscending | fix_led.py:89-101 | hits are in strictly ascending offset order and each one fits in the buffer |
| FdtWalk.NodePath | fix_led.py:140 | the node path always starts with `/` |
| FdtWalk.NodePathPush | fix_led.py:127 | pushing the root's `/` (or an empty name) leaves the path as it was; pushing a real name appends one `/`-separated segment |
| FdtWalk.NodePathIsRoot | fix_led.py:140 | the path is `/` exactly when every stack entry is empty or `/`, so the root's name is omitted |
| FdtWalk.Pop | fix_led.py:128-130 | END_NODE pops the innermost name, and on an empty stack it does nothing |
| FdtWalk.StepAt | fix_led.py:118-147 | one token step: the cursor advances by at least 4; BEGIN_NODE pushes a non-empty name; a property's value starts 12 bytes past its token, its length is the next word, and the next cursor is `align4(value_offset + val_len)` |
| FdtWalk.HaltsExactly | fix_led.py:121-147 | the walk stops exactly on END, an unknown token, a node name with no NUL, or a property header past the end |
| FdtWalk.ReadToken | fix_led.py:118-138 | the in-loop token read agrees with the step function |
| FdtWalk.ReadCString | fix_led.py:112-116 | the property name runs up to the first NUL before the strings block's end, or is `?` when there is none |
| FdtWalk.PropsIteration | fix_led.py:118-147 | one loop iteration preserves "recorded so far followed by the rest of the walk", and moves the cursor forward |
| FdtWalk.PropsFrom | fix_led.py:118-147 | the reference walk from a cursor: each FDT_PROP token records one property, and a truncated token makes it `None`; `PropsFromLocated` and `PropsFromOrdered` state what it records |
| FdtWalk.Properties | fix_led.py:104-148 | `parse_properties` walks from the structure block with an empty stack; `PropertiesLocated` states its result |
| FdtWalk.ParseProperties | fix_led.py:104-148 | the loop returns the reference walk's properties, or `None` when the unguarded token unpack raises |
| FdtWalk.PropsFromLocated | fix_led.py:131-141 | every recorded property's value starts 12 bytes past an FDT_PROP word, with its length the word after it |
| FdtWalk.PropsFromOrdered | fix_led.py:134-138 | recorded properties are in file order and never overlap |
| FdtWalk.PropertiesLocated | fix_led.py:104-148 | `parse_properties` returns located properties past the structure start, in ascending, non-overlapping order |
| FdtWalk.CollectNodePaths | fix_led.py:160-196 | the loop returns the reference set of node paths; a truncated token ends it quietly |
| FdtWalk.PathsFrom | fix_led.py:166-195 | the reference collection: each BEGIN_NODE adds the new node's path, and a truncated token ends it quietly; `PathsFromRooted` states its paths |
| FdtWalk.NodePaths | fix_led.py:160-196 | `collect_node_paths` walks from the structure block with an empty stack; `NodePathsRooted` and `PropertyPathsAreNodePaths` state its result |
| FdtWalk.NodePathsRooted | fix_led.py:179-180 | every collected path starts with `/`, so the `"/"` fallback never applies |
| FdtWalk.PropertyPathsAreNodePaths | fix_led.py:140 | every property's node path is `/` or a path `collect_node_paths` returns |
| FitHashes.ReadPropBytes | fix_led.py:151-152 | the value bytes, cut short at the end of the blob, with no bounds check on `value_len` |
| FitHashes.BeforeNul | fix_led.py:157 | `split(b"\x00", 1)[0]` is the longest NUL-free prefix |
| FitHashes.ReadCStringFromValue | fix_led.py:155-157 | the value read up to its first NUL |
| FitHashes.TrimLeft | fix_led.py:220 | `lstrip("/")` drops exactly the leading slashes |
| FitHashes.TrimRight | fix_led.py:220 | `rstrip("/")` drops exactly the trailing slashes |
| FitHashes.Strip | fix_led.py:220 | `strip("/")` is `lstrip` then `rstrip`, whose results `TrimLeft` and `TrimRight` state |
| FitHashes.SplitSlash | fix_led.py:220 | `split("/")` gives at least one piece; `JoinSplit` and `SplitJoin` are its round trips |
| FitHashes.JoinSplit | fix_led.py:220 | `"/".join(s.split("/")) == s` |
| FitHashes.SplitJoin | fix_led.py:227 | splitting a join of slash-free pieces gives the pieces back |
| FitHashes.ImageNodeIsParent | fix_led.py:226-227 | the image node plus `/` plus the last segment is the stripped hash-node path, so the key is the hash node's parent |
| FitHashes.IsHashNode | fix_led.py:220-225 | the path guards: at least 3 segments, `images` first, `hash-` last; `GroupKeysQualify` states that every key passes them |
| FitHashes.ImageNodeOf | fix_led.py:227 | `"/" + "/".join(parts[:-1])`; `ImageNodeIsParent` shows it is the hash node's parent |
| FitHashes.SiblingsMembers | fix_led.py:214-216 | `by_path[path]` holds exactly the properties recorded under `path` |
| FitHashes.FirstNamedNone | fix_led.py:229-231 | `next(...)` finds nothing exactly when no sibling has that name |
| FitHashes.FirstNamedFirst | fix_led.py:229-230 | what `next(...)` finds is the first sibling with that name |
| FitHashes.AlgoOf | fix_led.py:233-235 | only `crc32` and `sha1` are kept, each under its own algorithm |
| FitHashes.ImageEntry.Set | fix_led.py:237 | `image_entry[algo] = value_prop` sets that algorithm and leaves the other as it was |
| FitHashes.Put | fix_led.py:236-237 | `setdefault` keeps the image order and appends a new image at the end |
| FitHashes.PutGet | fix_led.py:236-237 | after a write, the written slot reads the written value and every other slot reads as before |
| FitHashes.GetAbsent | fix_led.py:236 | an image never written reads as nothing |
| FitHashes.PutUnique | fix_led.py:236 | writes keep image keys unique |
| FitHashes.ContributionMeaning | fix_led.py:219-237 | each write comes from a `/images/.../hash-*` property with an `algo` sibling reading `crc32`/`sha1` and a `value` sibling, and is keyed by the parent image |
| FitHashes.Contribution | fix_led.py:220-237 | what the loop body writes for one property, if anything; `ContributionMeaning` states it |
| FitHashes.ContributionByPath | fix_led.py:220-237 | what the loop body writes for a property depends only on its node path |
| FitHashes.FoldLastWriteWins | fix_led.py:236-237 | each slot holds the value of the last write to it |
| FitHashes.FoldKeys | fix_led.py:236 | the keys are unique, and each is the image of some write |
| FitHashes.GroupLastWriteWins | fix_led.py:209-238 | a later hash node with the same algorithm overwrites an earlier one |
| FitHashes.GroupKeysQualify | fix_led.py:219-237 | every key is the parent of a qualifying hash node (at least 3 segments, `images` first, `hash-` last, both siblings, allowed algorithm) |
| FitHashes.Group | fix_led.py:209-238 | the reference grouping: the writes of all properties applied in order; `GroupLastWriteWins`, `GroupKeysQualify` and `GroupDigestsDistinct` state its result |
| FitHashes.GetAt | fix_led.py:236-237 | with unique keys, looking up an image's own node reads that image's entry |
| FitHashes.GroupEntrySource | fix_led.py:236-237 | every value the result holds under an algorithm was written there by some property of the tree |
| FitHashes.GroupDigestsDistinct | fix_led.py:228-237 | an image's crc32 and sha1 values are two properties of the tree from two different hash nodes |
| FitHashes.GroupByPath | fix_led.py:214-216 | the `by_path` loop builds the per-path sibling lists |
| FitHashes.ContributionAt | fix_led.py:220-237 | the loop body for one property computes that property's write |
| FitHashes.GroupIteration | fix_led.py:219-237 | one iteration grows the map by that property's write |
| FitHashes.GroupFitImageHashes | fix_led.py:209-238 | the grouping loops return the reference grouping |
| FitHashes.GuardVacuous | fix_led_fur602.py:228 | the `parts[-2] ... or True` guard is vacuous: the guarded grouping writes exactly what the unguarded one does |
| FitHashes.HasFitNodes | fix_led.py:202-203 | the per-tree test is "both `/images` and `/configurations` are collected node paths" |
| FitHashes.FitAt | fix_led.py:204-205 | the chosen tree's properties are returned, or the raise while parsing them |
| FitHashes.FitFlags | fix_led.py:201-203 | the FIT test of each tree, in order |
| FitHashes.DetectFitNone | fix_led.py:199-206 | `detect_fit` reports nothing exactly when no tree has both nodes |
| FitHashes.DetectFitFirst | fix_led.py:199-206 | otherwise it picks the first tree with both nodes, and returns its properties or raises parsing them |
| FitHashes.DetectFit | fix_led.py:199-206 | the loop agrees with the reference |
| FitHashes.DetectFitSpec | fix_led.py:199-206 | the reference: the first tree with both nodes, parsed; `DetectFitNone` and `DetectFitFirst` state it |
| GpioPatch.SecondCell | fix_led.py:259 | the middle cell is an unsigned 32-bit word |
| GpioPatch.TripletOutcome | fix_led.py:257-266 | the checks in source order (length not 12, unpack past the end, guard mismatch, no change, pack outside u32); `TripletUnchangedCases` and `TripletRaisedCases` state when each outcome occurs |
| GpioPatch.RepackOuterCells | fix_led.py:266 | re-packing the first and third cells as read leaves their bytes unchanged |
| GpioPatch.PackTriplet | fix_led.py:266 | `pack_into(">III", a, new, c)` changes only bytes `[off + 4, off + 8)`, which get the new value big-endian |
| GpioPatch.PatchTripletSecond | fix_led.py:245-267 | the in-place patch returns the outcome of the checks, and the buffer is patched exactly on `True` |
| GpioPatch.TripletUnchangedCases | fix_led.py:257-265 | `False` exactly when the length is not 12, a supplied expected value differs from the middle cell, or the cell already holds the new value |
| GpioPatch.TripletRaisedCases | fix_led.py:259-266 | it raises exactly when a 12-byte value runs past the buffer, or all checks pass but the new value is not an unsigned 32-bit integer |
| GpioPatch.SecondCellFrame | fix_led.py:266 | on success only bytes `[off + 4, off + 8)` change; the middle cell reads the new value; the outer cells and the length are unchanged |
| GpioPatch.TripletIdempotent | fix_led.py:264-265 | after a successful patch the same call returns `False` and changes nothing, whatever the guard |
| GpioPatch.PatchGpios | fix_led_fur602.py:251-260 | the mandatory-guard patch in place: outcome of its checks, and the buffer patched exactly on `True` |
| GpioPatch.GpiosOutcome | fix_led_fur602.py:251-260 | the same checks with the guard mandatory; `GpiosIsGuardedTriplet` relates it to the triplet patch |
| GpioPatch.GpiosIsGuardedTriplet | fix_led_fur602.py:251-260 | `patch_gpios` is the triplet patch with the expected value always supplied |
| GpioPatch.GpiosGuard | fix_led_fur602.py:255-258 | an expected value equal to the new value never patches, and a mismatching cell is never touched |
| FitSync.FirstMatchFrom | fix_led.py:538-547 | the first image, in map order, whose stored crc32 and sha1 both equal the record's old digests, and no earlier one matches |
| FitSync.FindMatchingImage | fix_led.py:537-547 | the inner loop finds that image |
| FitSync.ReadInside | fix_led.py:543-545 | a value that compared equal to a 4- or 20-byte digest lies wholly inside the buffer |
| FitSync.ApplyRecord | fix_led.py:548-556 | one record keeps the buffer length |
| FitSync.SyncAll | fix_led.py:536-557 | the sync keeps the buffer length and updates at most one image per record |
| FitSync.ApplyRecordInPlace | fix_led.py:537-557 | the loop body finds the image and overwrites its 4 + 20 digest bytes |
| FitSync.SyncIteration | fix_led.py:536-557 | one record's in-place step followed by the rest equals the sync over records `i..` |
| FitSync.SyncFitHashes | fix_led.py:535-557 | the outer loop returns the reference sync's buffer and the number of images updated |
| FitSync.ApplyRecordFrame | fix_led.py:548-556 | with no match the buffer is untouched; with one, only its crc32 and sha1 windows change, to the new digests |
| FitSync.ApplyRecordStoresNew | fix_led.py:555-556 | when the two windows do not overlap, the matched image afterwards stores exactly the new digests |
| FitSync.GroupWindowsDisjoint | fix_led.py:555-556 | in an image built from a tree's ordered properties, the 4-byte crc32 window and the 20-byte sha1 window do not overlap |
| FitSync.GroupStoresNew | fix_led.py:536-557 | for the image map of a parsed FIT tree, a matched image afterwards reads exactly the new crc32 and sha1 |
| FitSync.SyncNoMatchUnchanged | fix_led.py:548-553 | when no record matches any image, nothing changes and no image is updated |
| FitSync.FitStep | fix_led.py:526-534 | with no records, or with `--no-fit-hash`, the image is returned unchanged, and its length is always kept |
| FitSync.FitStepInPlace | fix_led.py:526-569 | the in-place FIT step agrees with the reference, and returns `false` exactly when parsing the FIT tree raises |
| Profile.PropMapLastWins | fix_led.py:444-446 | a `(node_path, name)` key is present exactly when some property has it, and maps to the last such property |
| Profile.PropMap | fix_led.py:444-446 | the index `{(p.node_path, p.name): p}`; `PropMapLastWins` states it |
| Profile.PropMapMember | fix_led.py:460 | what the index holds under a key is one of the tree's properties with that key |
| Profile.PropMapValues | fix_led.py:444-446 | every value of the index is one of the tree's properties |
| Profile.AfterRule | fix_led.py:459-487 | one rule keeps the buffer length |
| Profile.MappingsFrom | fix_led.py:458-502 | the mapping loop keeps the length and patches at most one cell per rule |
| Profile.ApplyRule | fix_led.py:459-502 | the loop body: skipped for a missing property, another kind or no `second_to`; otherwise the triplet patch |
| Profile.MappingIteration | fix_led.py:458-502 | a raise ends the loop with the buffer as it was; otherwise one rule is followed by the rest |
| Profile.ApplyMappings | fix_led.py:458-502 | the loop agrees with the reference: buffer, patched-cell count, and whether it raised |
| Profile.MappingsNoChange | fix_led.py:486-487 | a loop that patched nothing left the buffer as it was |
| Profile.MappingsFrame | fix_led.py:473-475 | every changed byte lies in the middle cell of one of the tree's properties |
| Profile.VerdictOf | fix_led.py:426-428 | a tree is wanted exactly when it parses and has a property under a wanted node; it is passed over exactly when it parses without one |
| Profile.Verdicts | fix_led.py:425-428 | the test of each tree, in order |
| Profile.AutoSelectChosen | fix_led.py:423-431 | the automatic choice is the first tree with a property under a wanted node, every earlier tree being passed over |
| Profile.AutoSelectNone | fix_led.py:431-435 | no tree is chosen exactly when every tree parses and is passed over |
| Profile.WantedMeetsPaths | fix_led.py:427-428 | the intersection is non-empty exactly when some property lies under a wanted node |
| Profile.AutoSelect | fix_led.py:423-436 | the selection loop agrees with the reference |
| Profile.ResolvePriority | fix_led.py:418-436 | the target's own index wins, then the command line's; only without both is a tree chosen by its properties |
| Profile.ResolveTargetIndex | fix_led.py:416-436 | the resolution agrees with the reference |
| Profile.ResolveTarget | fix_led.py:416-440 | the reference resolution; `ResolvePriority` and `AutoSelectChosen` state it |
| Profile.PatchTree | fix_led.py:442-523 | patching a tree keeps the length and never lowers `total_changes` |
| Profile.RecordFor | fix_led.py:504-517 | the record holds the crc32 (packed `>I`) and sha1 of the tree's bytes before and after |
| Profile.TargetStep | fix_led.py:416-523 | an out-of-range index or no candidate skips the target; otherwise the tree is patched |
| Profile.TargetsFrom | fix_led.py:416-523 | the targets loop keeps the length and never lowers `total_changes` |
| Profile.TargetStepEffect | fix_led.py:416-517 | a target changes only middle cells of properties of the tree it resolved to, and appends a record exactly when it patched that tree and the tree's bytes changed; the record holds the digests of its bytes before and after, and otherwise the records stay as they were |
| Profile.TargetsNoChange | fix_led.py:486-517 | targets that patched nothing leave the image and the records as they were |
| Profile.ProfileNoChangeUntouched | fix_led.py:504-526 | `total_changes == 0` means the image is untouched, FIT digests included |
| Profile.ProfileSpec | fix_led.py:394-571 | the reference for the whole profile: the targets in order, then the FIT step; `ProfileNoChangeUntouched` states it |
| Profile.PatchTreeInPlace | fix_led.py:442-523 | the in-place body for a chosen tree agrees with the reference |
| Profile.ProcessTarget | fix_led.py:416-523 | one target in place agrees with the reference |
| Profile.ProcessSingleProfile | fix_led.py:394-571 | the whole profile in place: the image and `total_changes` of the reference, or `None` when it raises |
| Fur602.BoardTables | fix_led_fur602.py:316-325 | both boards map green 4→8; red maps 5→0x22 on komi-a31 and 5→0x0D on fur602; the two rows name distinct nodes and are patchable |
| Fur602.BoardMapping | fix_led_fur602.py:315-325 | the per-board `mapping` table, stated by `BoardTables` |
| Fur602.LedPresence | fix_led_fur602.py:282-286 | one green flag per tree, or a raise |
| Fur602.GreenIn | fix_led_fur602.py:285 | `any(p.node_path.endswith("/green"))` |
| Fur602.CollectLedPresence | fix_led_fur602.py:282-286 | the `led_presence` loop agrees with the reference |
| Fur602.GreenIndicesSpec | fix_led_fur602.py:301 | the candidates are exactly the green trees, in ascending order |
| Fur602.ChooseTarget | fix_led_fur602.py:293-302 | a chosen index is always in range |
| Fur602.ChooseTargetSpec | fix_led_fur602.py:293-302 | an explicit index outside `[0, count)` is rejected and one inside is taken; otherwise the first green tree, or 0 when there is none |
| Fur602.ChooseTargetIndex | fix_led_fur602.py:293-302 | the choice agrees with the reference |
| Fur602.AfterRow | fix_led_fur602.py:332-341 | one row keeps the buffer length |
| Fur602.RowOutcome | fix_led_fur602.py:332-341 | a row whose node has no `gpios` is skipped; otherwise `patch_gpios` with the row's old and new values |
| Fur602.RowsFrom | fix_led_fur602.py:332-341 | the rows loop keeps the length and patches at most one cell per row |
| Fur602.ApplyRows | fix_led_fur602.py:332-341 | the loop in place agrees with the reference |
| Fur602.RowsNoChange | fix_led_fur602.py:337-341 | rows that patched nothing leave the buffer as it was |
| Fur602.RowsFrame | fix_led_fur602.py:332-341 | every changed byte lies in the middle cell of a table node's `gpios` |
| Fur602.RowCell | fix_led_fur602.py:313-333 | the `gpios` property a row finds is one of the tree's properties, under the row's node |
| Fur602.PatchRowsFrame | fix_led_fur602.py:311-341 | patching changes only middle cells of the `gpios` of `/leds/green` and `/leds/red` |
| Fur602.PatchChosenUntouched | fix_led_fur602.py:356-358 | exit code 2 (nothing patched) leaves the image untouched |
| Fur602.RunUntouchedUnlessPatched | fix_led_fur602.py:276-358 | every non-zero exit (no tree, bad `--dtb-index`, nothing patched) leaves the image untouched |
| Fur602.PatchRowsSpec | fix_led_fur602.py:311-354 | the reference for the chosen tree: parse, rows, and a record only when the tree's bytes changed; `PatchRowsFrame` states its changes |
| Fur602.PatchChosen | fix_led_fur602.py:311-397 | exit 2 when no cell was patched, otherwise the FIT step; `PatchChosenUntouched` and `PatchChosenNoFitFrame` state it |
| Fur602.RunSpec | fix_led_fur602.py:276-397 | the reference `main`; `RunUntouchedUnlessPatched` and `RunNoFitFrame` state it |
| Fur602.PatchChosenNoFitFrame | fix_led_fur602.py:332-361 | with `--no-fit-hash` only those `gpios` cells of the chosen tree change |
| Fur602.RunNoFitFrame | fix_led_fur602.py:276-361 | with `--no-fit-hash`, every byte a successful run changes lies in a `gpios` middle cell of `/leds/green` or `/leds/red` of the one tree `ChooseTarget` picked |
| Fur602.PatchRows | fix_led_fur602.py:311-354 | the chosen tree is parsed, its rows patched and its record made, as the reference says |
| Fur602.RunChosen | fix_led_fur602.py:304-397 | the patch, exit 2 and FIT steps in place agree with the reference |
| Fur602.Run | fix_led_fur602.py:276-397 | `main` from the scan to the output agrees with the reference: exit 1, 2 or 0 with the image, or an escaped raise |
| LedScrape.LastSegmentNoSlash | extract_mt7981_leds.py:47 | a path without `/` is its own last segment |
| LedScrape.LastSegmentAfterSlash | extract_mt7981_leds.py:47 | `split("/")[-1]` is what follows the last `/` |
| LedScrape.LastSegment | extract_mt7981_leds.py:47 | `split('/')[-1]`, stated by `LastSegmentNoSlash`, `LastSegmentAfterSlash` and `LastSegmentSlashFree` |
| LedScrape.LastSegmentSlashFree | extract_mt7981_leds.py:47 | the last segment never contains `/` |
| LedScrape.RemoveAll | extract_mt7981_leds.py:48 | `replace(pat, "")` never lengthens the text |
| LedScrape.RemoveAllFree | extract_mt7981_leds.py:48 | text with no occurrence passes through unchanged |
| LedScrape.RemoveAllAbsent | extract_mt7981_leds.py:48 | `replace(pat, "")` only deletes: a character absent before is absent after |
| LedScrape.ExtractBoardName | extract_mt7981_leds.py:44-49 | the last segment, then `mt7981-` removed, then `.dts` removed; `ExtractBoardNameFragment` and `ExtractBoardNameTypical` state it |
| LedScrape.ExtractBoardNameFragment | extract_mt7981_leds.py:44-49 | for every path, the name holds no `/`, is no longer than the file name, and is empty for a path ending in `/` |
| LedScrape.RemoveAllSuffix | extract_mt7981_leds.py:48 | a trailing occurrence after text not containing its first character is removed |
| LedScrape.RemovePrefixTypical | extract_mt7981_leds.py:48 | `mt7981-<name>.dts` loses the `mt7981-` |
| LedScrape.ExtractBoardNameTypical | extract_mt7981_leds.py:44-49 | the usual `<dir>/mt7981-<board>.dts` gives back the board name |
| LedScrape.RemoveAllSinglePass | extract_mt7981_leds.py:48 | `replace` is a single pass: an occurrence the removal brings together survives |
| LedScrape.RemoveAllKeep | extract_mt7981_leds.py:48 | a character that does not start an occurrence is kept |
| LedScrape.RemoveAllDrop | extract_mt7981_leds.py:48 | an occurrence at the front is dropped |
| LedScrape.FirstCloseUnique | extract_mt7981_leds.py:70-79 | the closing brace at depth 0 is unique, and a closed block is not also unclosed |
| LedScrape.Depth | extract_mt7981_leds.py:65-79 | the brace counter: `{` adds one and `}` subtracts one |
| LedScrape.DepthStep | extract_mt7981_leds.py:71-79 | one more character moves the depth up by one for `{`, down by one for `}`, and leaves it otherwise |
| LedScrape.FirstClose | extract_mt7981_leds.py:65-79 | the `}` the scan stops at is the first one at depth 0; `FirstCloseUnique` and `LedsSection` use it |
| LedScrape.LedsSection | extract_mt7981_leds.py:60-82 | empty without `leds {`; otherwise exactly the text between `leds {` and the first `}` at depth 0, or empty when there is none |
| LedScrape.LessIrreflexive | extract_mt7981_leds.py:132 | string order is irreflexive |
| LedScrape.LessTransitive | extract_mt7981_leds.py:132 | string order is transitive |
| LedScrape.LessTotal | extract_mt7981_leds.py:132 | string order is total on distinct strings |
| LedScrape.Less | extract_mt7981_leds.py:132 | Python's `str` order, by code point with a proper prefix first; `LessIrreflexive`, `LessTransitive` and `LessTotal` show it is a strict total order |
| LedScrape.SortedOfUnique | extract_mt7981_leds.py:132 | a set has only one strictly ascending listing |
| LedScrape.InsertSorted | extract_mt7981_leds.py:132 | insertion adds one element |
| LedScrape.InsertSortedSpec | extract_mt7981_leds.py:132 | inserting a new key into a sorted listing gives the sorted listing of the larger set |
| LedScrape.SortKeys | extract_mt7981_leds.py:132 | `sorted(leds.keys())` lists the keys in strictly ascending order |
| LedScrape.NatTextRoundTrip | extract_mt7981_leds.py:137 | `str(n)` uses digits only and reads back as `n` |
| LedScrape.PresentKeys | extract_mt7981_leds.py:132-137 | every kept key has a present value |
| LedScrape.PresentKeysSpec | extract_mt7981_leds.py:132-137 | the kept keys are exactly those with a non-`None` value, in ascending order |
| LedScrape.EntriesOfPresentKeys | extract_mt7981_leds.py:132-137 | entry line `i` is `name = N->N` for the `i`-th kept key |
| LedScrape.EntryLine | extract_mt7981_leds.py:137 | the line `name = N->N` |
| LedScrape.Entries | extract_mt7981_leds.py:132-137 | the lines for the present keys in listing order, stated by `EntriesOfPresentKeys` |
| LedScrape.JoinTrailingEmpty | extract_mt7981_leds.py:138-139 | a final empty line makes the output end in a newline |
| LedScrape.Join | extract_mt7981_leds.py:139 | `"\n".join(lines)`; `JoinTrailingEmpty` states its final newline |
| LedScrape.IniLines | extract_mt7981_leds.py:127-138 | the header, comment, entry lines and final empty line, stated by `IniShape` |
| LedScrape.AppendEntries | extract_mt7981_leds.py:132-137 | the loop over the sorted keys appends exactly the `name = N->N` lines of the present keys, in order, after the lines already there |
| LedScrape.FormatIniSection | extract_mt7981_leds.py:122-139 | `""` for an empty map; otherwise the lines for the sorted keys, joined by newlines |
| LedScrape.IniShape | extract_mt7981_leds.py:127-139 | the lines are `[board]`, the dtb_index comment, one `name = N->N` per present key in order, and a final empty line |

## Left out

- `main` in all three scripts is left out: argparse, file reads and writes, output naming, the refusal to overwrite the input, `--list` mode, and the per-profile fresh copy (fix_led.py:665). `Fur602.Run` stops where the output would be written.
- `load_ini_config` and `load_single_profile_config` (fix_led.py:293-388) are left out, because they are thin wrappers over `configparser` and `int(x, 0)`. Targets and rules are taken as already-parsed values.
- `print` output is left out, because it is reporting only.
- Profile.ProcessSingleProfile: returns `total_changes` but not `summary_lines`, because those lines are reporting text only.
- The digest functions are function values, not CRC-32 and SHA-1 themselves, because `binascii` and `hashlib` are foreign library code. Only their output lengths are fixed: 4 bytes after `& 0xFFFFFFFF` and packing, and 20 bytes.
- UTF-8 decoding with `errors="replace"` is not modelled. Names and paths are compared as raw bytes.
  - For the ASCII constants the code compares against, the two comparisons agree.
  - With invalid UTF-8 they can differ: two distinct invalid byte strings decode to the same text. That case is not captured.
- The regex matching of LED blocks and labels in `parse_led_gpios` (extract_mt7981_leds.py:84-119) is left out, because it rests on library regex semantics. Only the brace scan before it is modelled.
- `fetch_file_list` and `fetch_dts_content` are left out, because they are network I/O.
- LedScrape.ExtractBoardName: the exact board name is proved only for the usual `<dir>/mt7981-<board>.dts` shape (`ExtractBoardNameTypical`). For other paths only what `ExtractBoardNameFragment` and `RemoveAllSinglePass` state is proved, because `replace` can re-form an occurrence and the result then depends on the exact text.
- The copies of `DtbHeader.parse`, `align4`, `scan_dtbs`, `parse_properties`, `collect_node_paths`, `detect_fit` and `group_fit_image_hashes` in fix_led_fur602.py are modelled once. Only their vacuous `parts[-2]` guard differs, which `FitHashes.GuardVacuous` covers.
- When a raise escapes, the model does not state the image's contents: the model reports `None` or `Crashed`. For the profile that raised, nothing is written: its copy of the image is left partly patched in memory. Each profile patches its own copy of the input (fix_led.py:665) and is written inside the profile loop (fix_led.py:659-700), so the outputs of profiles handled before the raising one are already on disk.
- The DTB index stored in each digest record (fix_led.py:511) is left out, because the sync never reads it.
- The dataclass `PropertyRef` stores decoded `str` names; here they are bytes (see above).
- `DtbHeader` fields other than `totalsize`, `off_dt_struct`, `off_dt_strings` and `size_dt_strings` are read but not used. The model parses all ten, like the source.
