# CAD redundancy analyzer: similarity and grouping engine in Dafny

This project models the core of a tool that fingerprints 3D mesh parts and
groups parts whose fingerprints are alike, to surface likely duplicate parts
in a CAD library. It covers two source files.

- `SimilarityDetector` (`cadRedundancyAnalyzer/core/similarity.py`).
  - The pairwise score of two `GeometricSignature`s. Equal geometric hashes
    short-circuit to 1.0. Otherwise the score is the weighted sum
    0.5·volume + 0.3·area + 0.2·bbox of zero-aware min/max ratios, where bbox
    is the mean of the three per-axis extent ratios.
  - `find_duplicates`, the greedy seed-based grouping pass.
- The pure part of `FileSystemCrawler` (`cadRedundancyAnalyzer/discovery/filesystem.py`).
  - The default extension list.
  - The case-insensitive CAD-file test on a path's suffix.
  - The project name inferred from the path below the scan root.

All arithmetic is over exact `real`s.

Files:

- `models.dfy` (module `Models`): the signature record, its bounding box and extents, and the
  well-formedness the producer promises but nothing checks.
- `similarity.dfy` (module `Similarity`): the score and its properties.
- `grouping.dfy` (module `Grouping`): a reference definition of `find_duplicates`.
  - The outer loop is the fold `PassUpTo` and the inner loop is the fold `ScanFrom`.
  - The imperative `FindDuplicates` has the source's nested loops over a `grouped` set, a
    `currentGroup` list and a `duplicateGroups` list. It is proved equal to the folds.
  - The lemmas about the groups are proved on the folds.
- `filesystem.dfy` (module `Filesystem`): the crawler as a value.
  - Its only field is set once by the constructor.
  - A path is the sequence of its pathlib parts, anchor first.

The grouping lemmas are stated for any pairwise score function. `FindDuplicates` and the
concrete examples use `Similarity.CalculateSimilarity`.

Where the program's own claims and its code disagree, the model follows the code.

- The threshold test (tests/test_analyzer.py:128-135) expects a lower threshold to find the
  same number of groups or more. The greedy pass does not guarantee this:
  `Grouping.LooserThresholdCanMergeGroups` shows four entries that form two groups at 0.99
  and one group at 0.90. The test checks one fixture only.
- The docstring of `calculate_similarity` (cadRedundancyAnalyzer/core/similarity.py:11-12)
  promises a score in [0, 1] for any two signatures. The code keeps this bound only for
  non-negative volumes and areas and for boxes that are not inverted, so the bound lemmas
  require `WellFormed`.

## Model

| member | source | states |
|---|---|---|
| `Similarity.PropertySimilarity` | cadRedundancyAnalyzer/core/similarity.py:32-45 | equal inputs give 1.0. For non-negative inputs the result lies in [0, 1], equals 1.0 exactly when the inputs are equal, and equals 0.0 exactly when one input is zero and the other is not |
| `Similarity.PropertySimilaritySymmetric` | cadRedundancyAnalyzer/core/similarity.py:41-45 | the ratio does not depend on argument order |
| `Similarity.PropertySimilarityScaleInvariant` | cadRedundancyAnalyzer/core/similarity.py:40-45 | scaling both values by the same positive factor leaves the ratio unchanged |
| `Similarity.BoundingBoxSimilarity` | cadRedundancyAnalyzer/core/similarity.py:47-73 | boxes with equal extents give 1.0. For non-inverted boxes the mean of the three per-axis ratios lies in [0, 1] and is 1.0 exactly when all three extents agree |
| `Similarity.BoundingBoxSimilaritySymmetric` | cadRedundancyAnalyzer/core/similarity.py:47-73 | the box score does not depend on argument order |
| `Similarity.CalculateSimilarity` | cadRedundancyAnalyzer/core/similarity.py:9-30 | equal hashes give exactly 1.0 whatever the other fields hold. For well-formed signatures the score lies in [0, 1] |
| `Similarity.SimilaritySymmetric` | cadRedundancyAnalyzer/core/similarity.py:9-30 | score(a, b) == score(b, a) |
| `Similarity.SameMeasurementsScoreOne` | cadRedundancyAnalyzer/core/similarity.py:18-30 | equal volume, area and extents give 1.0 even when the hashes differ |
| `Similarity.ScoreOneIffSameMeasurements` | cadRedundancyAnalyzer/core/similarity.py:18-30 | for well-formed signatures with different hashes, the score is 1.0 if and only if volume, area and all three extents agree |
| `Similarity.SmallVersusLargePartScoresLow` | tests/test_similarity.py:55-75 | a unit cube against a 100-unit cube scores below 0.5 |
| `Similarity.NearDuplicateScoresHigh` | tests/test_similarity.py:77-97 | (100, 220, 10×5×2) against (102, 224, 10.1×5.1×2) scores strictly between 0.9 and 1.0 |
| `Grouping.ScanFrom` | cadRedundancyAnalyzer/core/similarity.py:100-108 | reference definition of one seed's inner loop: the group so far and the grouped set after the first k entries. The lemmas below state its properties |
| `Grouping.PassUpTo` | cadRedundancyAnalyzer/core/similarity.py:91-113 | reference definition of the outer loop: the groups and the grouped set after the first k seeds. A grouped seed is skipped, and a scan is kept only when it found a partner |
| `Grouping.Groups` | cadRedundancyAnalyzer/core/similarity.py:87-115 | reference definition of the output of find_duplicates: the pass over all entries |
| `Grouping.FindDuplicates` | cadRedundancyAnalyzer/core/similarity.py:75-115 | the threshold defaults to 0.95. The nested loops compute the reference definition. Empty input gives []. Every group has at least two members, all input names. With distinct names, no name is emitted twice and every group is seeded. Any two different entries left out of every group score below the threshold |
| `Grouping.ScanShape` | cadRedundancyAnalyzer/core/similarity.py:100-108 | a seed's scan starts with the seed. It adds only names not yet grouped, each once. Its grouped set is the old set plus exactly the added names |
| `Grouping.ScanGrows` | cadRedundancyAnalyzer/core/similarity.py:103-108 | during a scan the grouped set only grows |
| `Grouping.SeedNotScanned` | cadRedundancyAnalyzer/core/similarity.py:104 | with distinct names the seed never joins its own group a second time (the `i != j` guard) |
| `Grouping.PassInvariant` | cadRedundancyAnalyzer/core/similarity.py:91-113 | between seeds the grouped set equals the set of emitted names. No group is a singleton. Every member is an input name. With distinct names no name appears twice across or within groups |
| `Grouping.PassGrows` | cadRedundancyAnalyzer/core/similarity.py:95-113 | from one seed to the next the grouped set only grows, so a grouped seed stays skipped |
| `Grouping.ScanSeeded` | cadRedundancyAnalyzer/core/similarity.py:100-108 | with distinct names every member after the seed is another entry. It scored at least the threshold against the seed and comes from an index the scan has passed. The members follow input order |
| `Grouping.GroupsAreSeeded` | cadRedundancyAnalyzer/core/similarity.py:95-113 | soundness: with distinct names every emitted group is its seed followed by entries that each scored at least the threshold against that seed, in input order. Completeness is `SeedTakesEveryCandidate` |
| `Grouping.ScanComplete` | cadRedundancyAnalyzer/core/similarity.py:103-108 | during a seed's scan, every other entry not grouped when the scan began that reaches the threshold against the seed joins the group |
| `Grouping.PassKeepsGroups` | cadRedundancyAnalyzer/core/similarity.py:110-112 | groups once emitted stay in the output, in place, as later seeds are processed |
| `Grouping.SeedTakesEveryCandidate` | cadRedundancyAnalyzer/core/similarity.py:95-113 | completeness: if seed i is ungrouped on its turn, entry j is ungrouped then too, and j reaches the threshold against i, then the output holds a group that starts with i and contains j |
| `Grouping.UngroupedPairsScoreBelowThreshold` | cadRedundancyAnalyzer/core/similarity.py:95-113 | two different entries that are in no group score below the threshold against each other |
| `Grouping.NoSimilarPairNoGroups` | cadRedundancyAnalyzer/core/similarity.py:110-113 | when no two entries reach the threshold, the output is empty |
| `Grouping.SingleEntryNoGroups` | cadRedundancyAnalyzer/core/similarity.py:103-113 | a single entry never forms a group, for any score function |
| `Grouping.TwoIdenticalEntriesGroup` | cadRedundancyAnalyzer/core/similarity.py:95-113 | two entries with one signature form the group [a, b] for any threshold up to 1.0 |
| `Grouping.FourPartGrouping` | tests/test_similarity.py:99-118 | for any score: three copies of a part, with a third entry that scores below the threshold against them, give exactly [[part1, part2, part4]] |
| `Grouping.FourPartScores` | tests/test_similarity.py:104-113 | the test's odd part scores 0.3 against the repeated part |
| `Grouping.FourPartExample` | tests/test_similarity.py:104-118 | given the test's signatures, the odd part scores 0.3, and threshold 0.95 gives exactly [[part1.stl, part2.stl, part4.stl]] |
| `Grouping.SeedDecidesMembership` | cadRedundancyAnalyzer/core/similarity.py:103-108 | for any score: when two later entries both reach the threshold against the seed, the seed takes both, whatever they score against each other |
| `Grouping.VolumeSpreadScores` | cadRedundancyAnalyzer/core/similarity.py:18-30 | on equal unit boxes and areas, volumes 90 and 110 score at least 0.95 against 100 but below 0.95 against each other |
| `Grouping.MembersNotComparedWithEachOther` | cadRedundancyAnalyzer/core/similarity.py:103-108 | at 0.95 the entries with volumes 100, 90 and 110 form the single group [A, B, C], although B and C score below 0.95 against each other |
| `Grouping.StrictThresholdTwoGroups` | cadRedundancyAnalyzer/core/similarity.py:95-113 | for any score: two pairs of copies whose cross score is below the threshold form two groups |
| `Grouping.LooseThresholdOneGroup` | cadRedundancyAnalyzer/core/similarity.py:95-113 | for any score: when the cross score reaches the threshold, the first seed takes all four entries |
| `Grouping.ThresholdCanMergeGroups` | cadRedundancyAnalyzer/core/similarity.py:95-113 | for any score: two pairs of copies whose cross score lies between two thresholds form two groups at the higher threshold and one group at the lower |
| `Grouping.NearVariantScores` | cadRedundancyAnalyzer/core/similarity.py:18-30 | a part against a variant with 5% less volume and the same area and box scores 0.975 |
| `Grouping.LooserThresholdCanMergeGroups` | tests/test_analyzer.py:128-135 | for a part and its 5% variant, two copies each: 0.99 gives two groups and 0.90 gives one, so lowering the threshold can reduce the number of groups |
| `Filesystem.NewCrawler` | cadRedundancyAnalyzer/discovery/filesystem.py:8-11 | the list defaults to missing. A missing or empty list gives ['.stl']. A non-empty list is kept as given. The resulting list is never empty |
| `Filesystem.Name` | cadRedundancyAnalyzer/discovery/filesystem.py:23 | the file name is the last part of the path. It is empty exactly for the empty path, a bare anchor ("/" or the POSIX two-slash "//"), or an empty last part |
| `Filesystem.Lower` | cadRedundancyAnalyzer/discovery/filesystem.py:23 | each ASCII upper-case letter becomes its lower-case partner and every other character stays in place, so the length is kept, no upper-case letter remains, and a string without upper-case letters is unchanged |
| `Filesystem.Suffix` | cadRedundancyAnalyzer/discovery/filesystem.py:23 | the suffix is empty, or it is a proper tail of the name that starts with its only '.' and has at least one more character. It is empty exactly when the name is empty, ends in '.', or has no '.' after its first character |
| `Filesystem.FileSystemCrawler.IsCadFile` | cadRedundancyAnalyzer/discovery/filesystem.py:21-23 | a path is a CAD file exactly when the lower-cased suffix of its name is in the list. If the list has no empty entry, such a name contains a '.' |
| `Filesystem.SuffixOfLower` | cadRedundancyAnalyzer/discovery/filesystem.py:21-23 | lower-casing the name and taking the suffix commute |
| `Filesystem.IsCadFileIgnoresCase` | cadRedundancyAnalyzer/discovery/filesystem.py:21-23 | two paths whose names agree up to case are both CAD files or neither |
| `Filesystem.UppercaseEntryNeverMatches` | cadRedundancyAnalyzer/discovery/filesystem.py:21-23 | only the name is lower-cased: a list entry with an upper-case letter never equals a lower-cased suffix |
| `Filesystem.WithExtension` | cadRedundancyAnalyzer/discovery/filesystem.py:21-23 | a name made of a non-empty stem and a one-dot extension is a CAD file exactly when the lower-cased extension is in the list |
| `Filesystem.DefaultCrawlerExamples` | tests/test_filesystem.py:30-37 | for every non-empty stem, the default crawler accepts stem.stl and stem.STL and rejects stem.txt (the test uses test and bracket) |
| `Filesystem.RelativeTo` | cadRedundancyAnalyzer/discovery/filesystem.py:29 | a relative path exists exactly when the root is a prefix of the path and both are absolute (anchored at "/" or "//") or both relative, so the empty root '.' rejects an absolute file. Then root + relative == path |
| `Filesystem.FileSystemCrawler.ExtractProjectInfo` | cadRedundancyAnalyzer/discovery/filesystem.py:25-35 | the result is "Unknown" or a part of the path. Any other result is the first part below a root that is a prefix of the path, with the same absoluteness, and at least one more part follows it |
| `Filesystem.ProjectInfoCases` | cadRedundancyAnalyzer/discovery/filesystem.py:27-35 | the first part below the root when the file is at least one directory below it. "Unknown" when it sits directly in the root or is the root. "Unknown" when it is not under the root, including an absolute file under the empty root (the caught ValueError) |
| `Filesystem.ProjectInfoExamples` | tests/test_filesystem.py:78-97 | /projects/ProjectA/parts/bracket.stl under /projects gives ProjectA. /engineering/VehicleDesign/chassis/frame.stl gives VehicleDesign. /parts/bracket.stl under /parts gives Unknown |
| `Filesystem.EmptyRootProjectInfo` | cadRedundancyAnalyzer/discovery/filesystem.py:27-35 | under the empty root, files anchored at "/" or "//" give Unknown (the caught ValueError), and a relative file gives its first part |
| `Filesystem.DoubleSlashProjectInfo` | cadRedundancyAnalyzer/discovery/filesystem.py:27-35 | //projects/A/b.stl under //projects gives A |

## Left out

- Floating point: scores are exact reals, so no IEEE-754 rounding is modelled. Equalities
  and threshold comparisons of scores hold for the real-valued formula, not necessarily for
  the doubles the source computes, except the literal 1.0 of the hash fast path.
- Similarity.ScoreOneIffSameMeasurements: the "only if" half holds over exact reals only. In
  doubles, with equal volumes and boxes, areas 1.0 and 1.0000000000000002 give an area ratio
  just below 1.0, yet the weighted sum rounds to exactly 1.0. Measurements that differ can
  therefore still score exactly 1.0.
- `Similarity.BoundingBoxSimilarity` is a pure function. The source builds its list of
  per-axis ratios by appending in a loop. That list is only summed and averaged, and the
  zero-aware rule it repeats inline is the same as `PropertySimilarity`.
- Similarity.CalculateSimilarity: the [0, 1] bound is stated only for well-formed signatures
  (non-negative volume and area, max >= min on every axis). The source does not validate its
  input, and negative values or inverted boxes can push the score outside [0, 1].
- Grouping.FindDuplicates: exclusivity and the seed and order properties are stated only for
  distinct names. The source tracks membership by name, and its caller passes dictionary keys
  (core/analyzer.py:55). The reference definition itself follows the by-name behaviour exactly
  for any input.
- Threshold monotonicity is not stated, because it is false for this greedy pass (see
  `Grouping.LooserThresholdCanMergeGroups`). The source's test checks it for one fixture only.
- `discover_files` (recursive `rglob` walk) is filesystem I/O.
- The STL handler, the handler base class, the analyzer orchestration and `ComponentMetadata`
  are thin I/O wrappers or plain data.
- Path strings are not parsed: file and root paths are given as their pathlib parts.
  `relative_to` is modelled with POSIX semantics: a component-wise prefix test, plus the
  rule that an absolute path is never relative to a relative root (the empty root being
  '.'). Both POSIX anchors are modelled: "/" and exactly two leading slashes, "//". Three or
  more leading slashes collapse to "/" when the string is parsed, which is outside the model.
  Windows case folding and drives are not modelled.
- Filesystem.Lower: `str.lower()` is modelled for ASCII letters only. Other Unicode case
  mappings are not modelled.
- Filesystem.Suffix follows pathlib's long-standing rule: the text from the last '.', unless
  that dot starts or ends the name. Newer Python versions treat a trailing dot differently,
  and the model makes no claim for that case.
