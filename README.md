# Duplicate-photo grouping of photosort, in Dafny

This project models the perceptual-hash duplicate search of photosort's
`start_analysis` command (`src-tauri/src/commands/analysis.rs`), with proofs
about the model. The command works in four steps:

1. It collects the walked files whose extension, lower-cased, is one of
   `jpg`, `jpeg`, `png`, `webp`, `bmp`, `gif`.
2. It returns no groups when no file was collected.
3. It hashes every photo; a photo whose metadata cannot be read is dropped,
   and one whose image cannot be decoded is kept without a hash. It returns
   no groups when the analysis was cancelled.
4. It groups photos greedily. In index order, every photo that is not yet
   used and has a hash becomes a seed. Every later unused photo with a hash
   joins the seed's group and is marked used when
   `1 - hamming / (8 * seed hash bytes) > 0.85`. A group is kept when it
   holds at least two photos, and it reports similarity 0.9.

Files:

- `wrappers.dfy`: the `Option` type.
- `hamming.dfy` (module `Hamming`): bytes, hashes, `hamming_distance`, and
  its properties:
  - symmetry;
  - the 8-bits-per-byte bound;
  - the distance is taken over the common prefix only, so a hash is at
    distance 0 from each of its prefixes;
  - for hashes of one length, distance 0 exactly when the hashes are equal;
  - for hashes of one length, the triangle inequality.
- `grouping.dfy` (module `Grouping`):
  - `GroupsOf` is a recursive reference definition of the grouping pass.
    `UngroupedPhotosNotClose` proves it complete: two hashed photos left out
    of every group are never close.
  - `GroupSimilarPhotos` and `ScanFromSeed` are the source's nested loops
    over an `array<bool>` of used flags, proved equal to `GroupsOf`.
  - The lemmas state what the groups satisfy.
- `analysis.dfy` (module `Analysis`): the extension filter, the collecting
  loop, the hashing stage and `StartAnalysis` with its two early returns.

The similarity test `1 - d / (8 * n) > 0.85` is written in integers as
`20 * d < 3 * (8 * n)`, where `n` is the length of the seed's hash.
`Grouping.ThresholdMatchesRatio` proves the two forms equivalent over the
reals. With an empty seed hash the source computes `0 / 0`, a NaN, which is
not greater than 0.85; the integer form is false there too. For the 8-byte
hash the source configures (`hash_size(8, 8)`), the test means "at most 9
differing bits". The denominators are then powers of two, so the `f32`
arithmetic is exact at that boundary.

Photos in a group are identified by their index in the list of hashed
photos. `Photo` records are carried through unchanged in the source, so
indices lose nothing.

## Model

| member | source | states |
|---|---|---|
| `Hamming.DifferingBits` | src-tauri/src/commands/analysis.rs:190 | `count_ones` of `x ^ y` over `k` bits, as the number of bit positions where `x` and `y` differ; at most `k`. `DifferingBitsZero` gives its meaning: zero exactly for equal numbers |
| `Hamming.HammingDistance` | src-tauri/src/commands/analysis.rs:187-192 | the distance is at most 8 bits per byte of either hash |
| `Hamming.ByteDistance` | src-tauri/src/commands/analysis.rs:190 | two bytes differ in at most 8 bit positions |
| `Hamming.ByteDistanceZero` | src-tauri/src/commands/analysis.rs:190 | two bytes differ in no bit exactly when they are equal |
| `Hamming.HammingSelf` | src-tauri/src/commands/analysis.rs:187-192 | a hash is at distance 0 from itself |
| `Hamming.HammingSymmetric` | src-tauri/src/commands/analysis.rs:187-192 | the distance does not depend on argument order |
| `Hamming.HammingCommonPrefix` | src-tauri/src/commands/analysis.rs:188-189 | the zip stops at the shorter hash: the distance equals the distance of the two prefixes of the common length |
| `Hamming.HammingPrefixZero` | src-tauri/src/commands/analysis.rs:188-189 | a hash is at distance 0 from each of its prefixes, because the zip stops at the shorter hash |
| `Hamming.HammingZeroIffEqual` | src-tauri/src/commands/analysis.rs:187-192 | hashes of equal length are at distance 0 exactly when they are equal |
| `Hamming.HammingTriangle` | src-tauri/src/commands/analysis.rs:187-192 | for hashes of one length the distance obeys the triangle inequality |
| `Grouping.Similar` | src-tauri/src/commands/analysis.rs:156-160 | no contract: the similarity test in integers. `ThresholdMatchesRatio` relates it to the source's ratio, and `EightByteThreshold` to at most 9 differing bits |
| `Grouping.Absorbed` | src-tauri/src/commands/analysis.rs:143-163 | the photos a seed takes are exactly the later photos that are unclaimed, hashed and close to the seed, in increasing order |
| `Grouping.ScanFromSeed` | src-tauri/src/commands/analysis.rs:139-164 | the inner loop yields the seed followed by what it absorbs; the used flags after the seed become "claimed or taken now"; flags up to the seed are unchanged; no flag is ever cleared |
| `Grouping.GroupSimilarPhotos` | src-tauri/src/commands/analysis.rs:125-174 | the nested loop over used flags returns exactly the groups of the reference definition `GroupsOf` |
| `Grouping.GroupsFrom` | src-tauri/src/commands/analysis.rs:129-174 | no contract: the outer loop from seed position `i` on, given the photos earlier groups claimed. The `GroupsFrom...` lemmas state its properties |
| `Grouping.GroupsOf` | src-tauri/src/commands/analysis.rs:125-174 | no contract: the reference definition of the grouping pass. `GroupSimilarPhotos` is proved equal to it, and the lemmas below state what it returns |
| `Grouping.NoGroupAtSeed` | src-tauri/src/commands/analysis.rs:129-173 | a seed that is used, has no hash or takes no other photo adds no group, and the pass goes on with the next position |
| `Grouping.GroupsFromShape` | src-tauri/src/commands/analysis.rs:129-173 | every group emitted from a position on has at least two photos, similarity 0.9, hashed photos in increasing order, members close to the seed, and only photos at or after that position that earlier groups did not claim |
| `Grouping.GroupsFromDisjoint` | src-tauri/src/commands/analysis.rs:129-173 | no photo is in two groups emitted from a position on |
| `Grouping.GroupsFromSeedsIncrease` | src-tauri/src/commands/analysis.rs:129-173 | groups emitted from a position on appear in increasing order of seed |
| `Grouping.GroupsFromGreedy` | src-tauri/src/commands/analysis.rs:129-173 | every unclaimed hashed photo after a group's seed and close to it is in that group or an earlier one |
| `Grouping.GroupsFromComplete` | src-tauri/src/commands/analysis.rs:129-173 | two hashed photos at or after a position, both unclaimed and in no group emitted from there, are not close |
| `Grouping.UngroupedPhotosNotClose` | src-tauri/src/commands/analysis.rs:129-173 | completeness: two hashed photos that are in no group are not close, taking the earlier one as the seed; an empty result is therefore possible only when no two hashed photos are close |
| `Grouping.GroupsHaveTwoOrMore` | src-tauri/src/commands/analysis.rs:166-173 | every group has at least two photos and reports similarity 0.9 |
| `Grouping.UnhashedNeverGrouped` | src-tauri/src/commands/analysis.rs:134-151 | a photo without a hash is in no group, neither as seed nor as member |
| `Grouping.MembersCloseToSeed` | src-tauri/src/commands/analysis.rs:140-163 | the first photo of a group is the seed; every other photo comes after it, has a hash and is close to the seed |
| `Grouping.MembersInIndexOrder` | src-tauri/src/commands/analysis.rs:140-163 | the photos of a group appear in increasing index order |
| `Grouping.SeedsInIndexOrder` | src-tauri/src/commands/analysis.rs:129-173 | groups appear in increasing order of their seed's index |
| `Grouping.GroupsDisjoint` | src-tauri/src/commands/analysis.rs:126-162 | no photo is in two groups |
| `Grouping.SeedTakesEveryClosePhoto` | src-tauri/src/commands/analysis.rs:143-163 | every hashed photo after a group's seed and close to it is in that group or an earlier one |
| `Grouping.ThresholdMatchesRatio` | src-tauri/src/commands/analysis.rs:156-160 | the integer test is equivalent to `1 - d / (8 * n) > 0.85` over the reals for a non-empty seed hash, and is false for an empty one |
| `Grouping.RatioAboveThreshold` | src-tauri/src/commands/analysis.rs:157-160 | for a positive bit count, `1 - d / bits > 0.85` holds exactly when `20 * d < 3 * bits` |
| `Grouping.EightByteThreshold` | src-tauri/src/commands/analysis.rs:156-160 | for an 8-byte seed hash a photo is close exactly when at most 9 bits differ |
| `Grouping.CloseToSameSeed` | src-tauri/src/commands/analysis.rs:156-160 | two hashes close to the same seed, all of one length, are less than twice the threshold apart |
| `Grouping.MembersWithinTwiceThreshold` | src-tauri/src/commands/analysis.rs:140-163 | members of one group whose hashes have the seed's length are less than twice the threshold apart |
| `Grouping.IdenticalHashesFormOneGroup` | src-tauri/src/commands/analysis.rs:125-174 | photos that all share one non-empty hash form a single group holding every photo in order |
| `Grouping.SeedCentredNotTransitive` | src-tauri/src/commands/analysis.rs:129-174 | with hashes 0x00, 0x01, 0x02 one group holds all three, though 0x01 and 0x02 are not close to each other |
| `Analysis.AfterLast` | src-tauri/src/commands/analysis.rs:43-44 | the result is the suffix after the last separator: it holds no separator and is preceded by one whenever it is not the whole string |
| `Analysis.FileName` | src-tauri/src/commands/analysis.rs:43-44 | no contract: the last component of the path, `AfterLast` at `/`. `DirectoryDotIgnored` shows its effect |
| `Analysis.Extension` | src-tauri/src/commands/analysis.rs:43-45 | no contract: `Path::extension` of a file name. `ExtensionIsTextAfterLastDot` characterises it |
| `Analysis.LowerChar` | src-tauri/src/commands/analysis.rs:46 | an ASCII capital becomes the matching lower-case letter (its code plus 32); every other character is unchanged |
| `Analysis.Lower` | src-tauri/src/commands/analysis.rs:46 | the result has the same length and no ASCII capital; each character is unchanged or is a capital lowered to its letter |
| `Analysis.SupportedExtensionsLowerCase` | src-tauri/src/commands/analysis.rs:14 | every supported extension is written in lower-case ASCII letters |
| `Analysis.WhitelistIgnoresCase` | src-tauri/src/commands/analysis.rs:46-49 | an extension passes the whitelist test exactly when it spells a supported extension with any of its letters in upper case |
| `Analysis.IsSupportedPath` | src-tauri/src/commands/analysis.rs:43-49 | no contract: the test for one path. `WhitelistIgnoresCase`, `ExtensionIsTextAfterLastDot` and the examples below give its meaning |
| `Analysis.ExtensionIsTextAfterLastDot` | src-tauri/src/commands/analysis.rs:43-45 | a file name has extension `e` exactly when the name is not `..` and `e` is the text after a `.` that is not the name's first character and after which no `.` follows |
| `Analysis.UpperCaseExtensionAccepted` | src-tauri/src/commands/analysis.rs:43-49 | `a/B.JPG` is collected: the extension is compared in lower case |
| `Analysis.HiddenFileHasNoExtension` | src-tauri/src/commands/analysis.rs:43-48 | `a/.jpg` is not collected: a leading dot starts no extension |
| `Analysis.OnlyLastExtensionCounts` | src-tauri/src/commands/analysis.rs:43-49 | `a/b.jpg.x` is not collected: only the last extension counts |
| `Analysis.DirectoryDotIgnored` | src-tauri/src/commands/analysis.rs:43-48 | `a.jpg/b` is not collected: the extension is taken from the file name only |
| `Analysis.SupportedPaths` | src-tauri/src/commands/analysis.rs:43-52 | no contract: the reference filter over the walked files. `SupportedPathsMembers` gives its members |
| `Analysis.SupportedPathsMembers` | src-tauri/src/commands/analysis.rs:43-52 | a path is kept exactly when it is a walked file with a supported extension; no more paths are kept than were walked |
| `Analysis.CollectPhotoPaths` | src-tauri/src/commands/analysis.rs:32-54 | the collecting loop keeps exactly the supported paths, in walk order |
| `Analysis.HashPhotos` | src-tauri/src/commands/analysis.rs:79-111 | every hashed photo comes from a path whose metadata could be read, with that path's hash outcome; every such path yields a photo |
| `Analysis.NoSupportedFileNoPhotos` | src-tauri/src/commands/analysis.rs:43-59 | with no walked file of a supported extension no path is kept |
| `Analysis.StartAnalysis` | src-tauri/src/commands/analysis.rs:56-174 | no groups when the 32-bit photo count is zero or when the analysis was cancelled; otherwise exactly the groups of the hashed supported photos |
| `Analysis.GroupedPhotosAreSupportedAndHashed` | src-tauri/src/commands/analysis.rs:43-174 | every grouped photo is a walked file with a supported extension whose image the hashing stage decoded |

## Left out

- Walking the folders (`WalkDir`, following links, skipping unreadable entries and non-files) is left out. The walked regular files are the input `files`, in walk order.
- Reading metadata (`create_photo_from_path`), decoding, thumbnailing and gradient hashing of images are not modelled. They are the input function `probe`: no metadata drops the photo; otherwise the photo is kept, with a hash when decoding succeeded.
- The parallel hashing (rayon) is modelled as a sequential map that keeps input order, as `collect` does. The per-item cancellation test inside it is not modelled. It can only drop photos from a run that the test after hashing then ends with no groups, because nothing clears the flag once the run has started.
- The cancellation flag is one boolean parameter: its value when read after hashing. `cancel_analysis`, the reset at the start of the run, and concurrent writers are not modelled.
- Progress events, the progress counter, the emitted status texts and the group UUIDs are not modelled. The events and UUIDs do not affect the result.
- `Photo` records are not modelled. Groups hold indices into the hashed photo list, and each photo keeps only its path.
- Analysis.Lower: lower-cases ASCII letters only, where Rust lower-cases all of Unicode. The only non-ASCII characters whose lower case is an ASCII letter are the Kelvin sign (to `k`) and the dotted capital I (to `i` plus a combining dot, which is two characters), so the whitelist decision is the same; this is argued, not proved.
- Analysis.FileName: splits paths at `/` only. The Windows `\` separator, non-UTF-8 names (`to_str` failing) and paths ending in `..` are not modelled; the walk yields file paths, which end in a file name.
- Grouping.ThresholdMatchesRatio: relates the integer test to the real-number ratio, not to `f32` rounding. For the 8-byte hashes the hasher is configured to produce, the `f32` computation is exact.
- Bytes are integers from 0 to 255. `count_ones` of `x ^ y` is counted as the number of bit positions where `x` and `y` differ, which is the same number.
- `set_similarity_threshold`, the Python clustering sidecar, the database, the trash and the photo commands are not part of this model.
