# Descriptor matching core of a monocular visual-odometry front end

This project models, in Dafny, the two components of the visual-odometry front end that
hold checkable logic:

- **Hamming distance** (`src/hamming.rs`): two byte strings are paired position by
  position, stopping at the end of the shorter one (Rust's `zip`). Each pair contributes
  the number of 1-bits of its exclusive or (`count_ones`). The result is the sum.
- **Feature matcher** (`src/matcher.rs`): for every keypoint/descriptor of image A, a linear
  scan over every keypoint/descriptor of image B keeps the best candidate. A candidate
  replaces the running best when its distance is `<=` the best distance so far, which
  starts at the cutoff `max_hamming_distance`. A pair `(a, b)` is emitted only when some
  candidate qualified.

Files:

- `common.dfy` (module `Common`): the shapes of `KeyPoint` and `Descriptor` from
  `src/common.rs`, plus `Option` and `Min`. A keypoint's `f32` fields are kept as raw
  IEEE-754 bit patterns (`bv32`), because the matcher only copies keypoints.
- `hamming.dfy` (module `Hamming`): bytes are `bv8`. `CountOnes` is a recursive popcount
  that takes one bit at a time. `HammingDistance` is a recursive function over the two
  sequences. Its lemmas are reflexivity, symmetry, truncation to the shorter input, the
  bounds, zero-iff-equal, additivity over concatenation and the triangle inequality. Further
  lemmas relate it to the count of differing byte positions and check the source's test
  vectors.
- `matcher.dfy` (module `Matcher`): `MatchFeatures` is a method with the source's two nested
  loops. The result grows by appending to a local sequence, as the source's `Vec` grows by
  `push`. Its postcondition ties the result to the functional specification `Matches`.
  The specification functions take the distance as a parameter `dist`. `MatchFeatures`
  computes `hamming_distance` as the source does, and its postcondition instantiates `dist`
  with `Distance`, the Hamming distance of the two descriptors' bytes. So the facts about
  the scan hold for the Hamming distance and, because they never look inside `dist`, for any
  other distance too. `BestCandidate` is the candidate the inner scan keeps. `BestCandidateSpec` proves that
  this is the LAST index attaining the minimum distance, provided that minimum is within the
  cutoff, and nothing otherwise. `MatchesSpec` sums up the whole result: how many matches
  there are, their order, where each one comes from, that each is optimal, and exactly when
  an A-feature is left unmatched.

Two points where the code's behaviour is easy to misread:

- Because the comparison is `<=` (src/matcher.rs:20), a later candidate at the same distance
  replaces an earlier one. So the kept candidate is the last index attaining the minimum,
  not the first, and the model does the same. `TieKeepsLastCandidate` shows this on two
  identical B descriptors.
- The doc comment of `hamming_distance` (src/hamming.rs:1-4) speaks of strings of equal
  length and of differing positions. The code counts differing bits, and `zip` silently
  truncates to the shorter input. The model counts bits and truncates.
  `HammingBetweenPositions` relates the two notions. `HammingTriangleNeedsEqualLengths` shows
  that truncation breaks the triangle inequality when lengths differ.

The matcher's inputs are Dafny sequences, which are immutable values. So "the inputs are
unchanged and the result is fresh" holds by construction. Determinism holds because
`Matches` is a function.

## Model

| member | source | states |
|---|---|---|
| `Hamming.OnesBelow` | src/hamming.rs:9 | the number of 1-bits among the low `w` bits is at most `w`, and it is zero exactly when those bits are all clear |
| `Hamming.CountOnes` | src/hamming.rs:9 | `count_ones` of a byte is at most 8, and it is zero exactly when the byte is zero |
| `Hamming.OnesBelowXor` | src/hamming.rs:9 | the popcount of an exclusive or is at most the sum of the two popcounts |
| `Hamming.HammingDistance` | src/hamming.rs:5-12 | the distance over the zipped pairs is at most 8 times the shorter length |
| `Hamming.DifferingPositions` | src/hamming.rs:1-4 | the number of differing zipped byte positions is at most the shorter length |
| `Hamming.HammingSelf` | src/hamming.rs:5-12 | every byte string is at distance 0 from itself |
| `Hamming.HammingSymmetric` | src/hamming.rs:6-9 | the distance is symmetric in its two arguments |
| `Hamming.HammingTruncate` | src/hamming.rs:8 | the distance equals the distance of the two prefixes of the shorter length |
| `Hamming.HammingIgnoresTail` | src/hamming.rs:8 | appending bytes to the longer input does not change the distance |
| `Hamming.HammingZeroIff` | src/hamming.rs:1-12 | the distance is 0 exactly when the zipped prefixes are equal; for equal lengths, exactly when the inputs are equal |
| `Hamming.HammingAppend` | src/hamming.rs:9-10 | if the first parts have equal length, the distance of two concatenations is the sum of the distances of the parts |
| `Hamming.HammingTriangle` | src/hamming.rs:6-10 | for inputs of equal length, the triangle inequality holds |
| `Hamming.HammingTriangleNeedsEqualLengths` | src/hamming.rs:8 | with unequal lengths, truncation breaks the triangle inequality (`[0]`, `[]`, `[0xFF]`) |
| `Hamming.HammingBetweenPositions` | src/hamming.rs:1-10 | the bit distance lies between the number of differing byte positions and 8 times that number |
| `Hamming.HammingFitsU32` | src/hamming.rs:6-11 | when fewer than 2^29 pairs are zipped, the sum fits the source's `u32` accumulator |
| `Hamming.HammingTestVectorsLastByte` | src/hamming.rs:16-42 | the first seven expected distances of `test_hamming_distance`, where the strings differ in the last byte |
| `Hamming.HammingTestVectorsWholeBytes` | src/hamming.rs:44-58 | the last four expected distances of `test_hamming_distance`, where the strings differ in whole bytes |
| `Hamming.CountOnesTestValues` | src/hamming.rs:9 | test helper for the two rows above: `count_ones` of the bytes 0x00 to 0x05 and 0xFF |
| `Hamming.HammingFourBytes` | src/hamming.rs:6-10 | test helper for the two rows above: the distance of two 4-byte strings is the sum of the four bytewise popcounts |
| `Matcher.Distance` | src/matcher.rs:19 | no contract: the `hamming_distance` of the two descriptors' bytes; its properties are those of `Hamming.HammingDistance` and `Matcher.DistinctDescriptorsSeparated` |
| `Matcher.BestCandidate` | src/matcher.rs:15-24 | the index the inner scan keeps, if any, is a candidate index |
| `Matcher.BestCandidateSpec` | src/matcher.rs:15-24 | the scan keeps nothing exactly when every candidate is beyond the cutoff; otherwise it keeps an index within the cutoff, at minimum distance, with every later candidate strictly farther (ties go to the last) |
| `Matcher.LastBestUnique` | src/matcher.rs:18-24 | at most one index is the last one at minimum distance, so the kept candidate is determined |
| `Matcher.BestCandidateExtend` | src/matcher.rs:19-23 | one step of the inner loop: candidate `j` becomes the kept one exactly when its distance is `<=` the running best distance (the cutoff while nothing is kept); otherwise the kept one stays |
| `Matcher.MatchOf` | src/matcher.rs:15-28 | no contract: the match one A-feature contributes; described by `Matcher.MatchOfSpec` |
| `Matcher.MatchOfSpec` | src/matcher.rs:14-28 | A-feature `i` yields a match exactly when some zipped B-feature is within the cutoff; the match pairs `keypoints1[i]` with `keypoints2[j]` for the last minimum-distance `j` |
| `Matcher.MatchesUpTo` | src/matcher.rs:12-29 | the first `i` A-features yield at most `i` matches |
| `Matcher.MatchedIndices` | src/matcher.rs:14-28 | the indices of the A-features that are matched are below `i` and strictly increasing |
| `Matcher.MatchedIndicesComplete` | src/matcher.rs:26-28 | an A-index is among the matched indices exactly when that feature has a match |
| `Matcher.MatchesUpToShape` | src/matcher.rs:12-29 | the `t`-th match is the match of the `t`-th matched A-index |
| `Matcher.Matches` | src/matcher.rs:12-31 | no contract: the functional form of `match_features`; described by `Matcher.MatchesSpec`, and `Matcher.MatchFeatures` is proved equal to it |
| `Matcher.MatchesSpec` | src/matcher.rs:5-31 | the result has at most `min(|keypoints1|, |descriptors1|)` entries. Their first components are `keypoints1[i]` for strictly increasing `i`. Each second component is `keypoints2[j]` for a zipped `j` that is within the cutoff, at minimum distance, and the last such. A-feature `i` is unmatched exactly when every zipped B-feature is beyond the cutoff |
| `Matcher.MatchesUpToEmptyB` | src/matcher.rs:18-28 | with no zipped B-feature, no prefix of A yields a match |
| `Matcher.MatchesEmptyB` | src/matcher.rs:18-28 | with no zipped B-feature, the result is empty |
| `Matcher.MatchFeatures` | src/matcher.rs:5-32 | the nested loops return exactly `Matches` of the inputs under the Hamming distance |
| `Matcher.DistinctDescriptorsSeparated` | src/matcher.rs:19 | among distinct descriptors of one length, the Hamming distance `Distance` is 0 between two of them exactly when they are the same one |
| `Matcher.MatchesUpToIdentical` | src/matcher.rs:14-28 | for a set whose descriptors are at distance 0 exactly from themselves, matched against itself, the first `i` matches pair each feature with itself |
| `Matcher.MatchesIdentical` | src/matcher.rs:43-107 | a set with distinct descriptors of one length, matched against itself at any cutoff, pairs each feature with itself |
| `Matcher.MatchFeaturesTestVectors` | src/matcher.rs:89-106 | the test data of `test_match_features` gives three self-matches at cutoff 0 and at cutoff 100 |
| `Matcher.TieKeepsLastCandidate` | src/matcher.rs:20-22 | of two B-features at the same minimum distance, the later one is kept |

## Left out

- `HammingDistance`: the source sums into a `u32` (src/hamming.rs:6). The model sums into an unbounded `nat`, so it does not model overflow (a panic in debug builds, wrap-around in release builds). `HammingFitsU32` shows overflow cannot occur below 2^29 zipped pairs.
- `MatchFeatures`: `max_hamming_distance` and the result `usize` are unbounded `nat`s. No platform width is modelled.
- KeyPoint equality: Rust compares `f32` fields by IEEE-754 rules (NaN differs from itself, and -0.0 equals 0.0). The model compares bit patterns. The matcher never compares keypoints; it only copies them. So this affects only how the tests' expected values read.
- `src/slam.rs` (the pipeline orchestrator) is not part of this model. It drives greyscale conversion and Gaussian blur, corner detection, descriptor computation (BRIEF) and essential-matrix estimation (RANSAC) through modules whose source is not available, using floating-point geometry.
- `examples/slamiam.rs` is not part of this model. It is command-line handling, image file decoding, timing and console output.
- `src/common.rs` holds data definitions only. Its `KeyPoint` and `Descriptor` shapes are taken over in `common.dfy`. `KeyPoint::new` is the datatype constructor. The `Image` type is not used by the modelled code.
- `src/lib.rs` is only a module list. The modules it names that are not available (`rand`, `descriptors`, `essential`, `fast_detect`, `image_impl`) are not part of this model.
