# Merkle tree tools, modelled in Dafny

The repository has three command-line tools:

- `buildmtree.py` parses a list argument such as `"[alice, bob, carlol, david]"`. It builds a binary Merkle tree over the strings and writes the leaves, the levels and the root to `merkle.tree`.
- `checkinclusion.py` looks a string up in that tree. It prints `no`, or `yes` with the sibling hashes met on the way from the string's leaf to the root.
- `checkconsitency.py` parses an old list and a new list. It answers `no` unless the old list is a prefix of the new one. Otherwise it prints `yes` and a "consistency proof": the sibling walk, over the new tree, from the position of the last old leaf.

This project models the following parts:

- the argument parser `parse_input_list`;
- the tree builder `build_merkle_tree`;
- the part of the builder's `main` that rejects an empty list and picks the root;
- `get_inclusion_proof`;
- `get_consistency_proof`;
- the prefix test in the consistency tool's `main`.

`checkconsitency.py` repeats `parse_input_list` (lines 9-14) and `build_merkle_tree` (lines 16-39) statement for statement; only their comments differ. `ParseInput` and `MerkleBuild` model both copies.

The digest `sha256(s.encode('utf-8')).hexdigest()` is the parameter `h: string -> string` of every member that hashes. Nothing below depends on properties of SHA-256.

Modules:

- `ParseInput`: Python's `str.strip()`, `split(',')`, the bracket removal and the filtering comprehension, as functions. Lemmas cover a brackets-and-commas round trip and the case of one unmatched bracket.
- `MerkleBuild`: the leaf records and levels as reference functions (`LeafHashes`, `NextLevel`, `Levels`). `BuildMerkleTree` keeps the source's loops and is proved equal to those functions; its inner pairing loop is the method `PairLevel`. `BuildFromArgument` is `main` up to writing the file: it parses the argument and hands the list to `TreeRecord`.
- `AuditPath`: the sibling walk that both proof functions loop through (`Walk`). Python indexing is modelled exactly:
  - a negative position counts from the end;
  - a position outside the level is `IndexError`;
  - `//` by 2 is floor division.
- `Inclusion`: `get_inclusion_proof` as a method with the source's two loops. It is proved equal to "first matching leaf, then `Walk`".
- `Consistency`: the prefix test and `get_consistency_proof`. It is proved equal to `Walk` over `levels[:-1]`. An empty old list makes the walk start at `-1`.
- `Scenarios`: small trees written out entry by entry.

## Model

| member | source | states |
|---|---|---|
| ParseInput.IsSpace | buildmtree.py:11 | definition: the characters `str.isspace()` accepts, which `strip()` removes; characterised by `TrimStart`, `TrimEnd` and `Strip` |
| ParseInput.TrimStart | buildmtree.py:11 | the leading characters dropped are all whitespace, and what is left does not start with whitespace |
| ParseInput.TrimEnd | buildmtree.py:11 | the trailing characters dropped are all whitespace, and what is left does not end with whitespace |
| ParseInput.TrimStartSuffix | buildmtree.py:11 | what is left after dropping leading whitespace is a suffix of the input |
| ParseInput.TrimEndPrefix | buildmtree.py:11 | what is left after dropping trailing whitespace is a prefix of the input |
| ParseInput.Strip | buildmtree.py:11 | the result has no whitespace at either end (the `str.isspace` set), and the input is leading whitespace, then the result, then trailing whitespace |
| ParseInput.StripOfStripped | buildmtree.py:11 | stripping a string with no surrounding whitespace changes nothing |
| ParseInput.StripAfterSpace | buildmtree.py:15 | one leading whitespace character before a stripped string is removed by `strip()` |
| ParseInput.StripKeepsFirst | buildmtree.py:11 | a string whose first character is not whitespace keeps that character first after `strip()` |
| ParseInput.StripKeepsLast | buildmtree.py:11 | a string whose last character is not whitespace keeps that character last after `strip()` |
| ParseInput.SplitOnComma | buildmtree.py:15 | `split(',')` gives at least one piece, no piece holds a comma, and joining the pieces with "," gives the input back |
| ParseInput.SplitFirst | buildmtree.py:15 | when the string does not start with a comma, the first piece starts with the first character |
| ParseInput.SplitLast | buildmtree.py:15 | when the string does not end with a comma, the last piece ends with the last character |
| ParseInput.SplitNoComma | buildmtree.py:15 | a string without a comma splits into itself alone |
| ParseInput.SplitAtComma | buildmtree.py:15 | splitting `a + "," + b`, with `a` comma-free, gives `a` followed by the pieces of `b` |
| ParseInput.SplitCommaSpace | buildmtree.py:15 | splitting comma-free items joined by ", " gives the first item, then each later item preceded by one space |
| ParseInput.StripPieces | buildmtree.py:15 | the comprehension keeps at most all the pieces; each kept piece is non-empty and stripped; comma-free pieces stay comma-free |
| ParseInput.StripPiecesFirst | buildmtree.py:15 | when the first piece does not strip to empty, its stripped form is the first element |
| ParseInput.StripPiecesLast | buildmtree.py:15 | when the last piece does not strip to empty, its stripped form is the last element |
| ParseInput.StripPiecesCons | buildmtree.py:15 | a non-empty stripped first piece is kept unchanged at the front |
| ParseInput.StripPiecesClean | buildmtree.py:15 | items that are non-empty and stripped survive the comprehension unchanged when each is preceded by a space |
| ParseInput.StripPiecesOfPadded | buildmtree.py:15 | the first item plus the later items, each preceded by a space, strip back to the items |
| ParseInput.StripPiecesOfJoined | buildmtree.py:15 | clean items joined with ", ", split and stripped, give the items back |
| ParseInput.ParseInputList | buildmtree.py:9-15 | every element of the parsed list is non-empty, has no surrounding whitespace and contains no comma |
| ParseInput.Unbracket | buildmtree.py:12-13 | a string that starts with `[` and ends with `]` is the result wrapped in that pair of brackets; any other string is returned unchanged |
| ParseInput.UnbracketFormatted | buildmtree.py:11-13 | `"[" + j + "]"` loses exactly its two brackets, and `j` is left untouched by the strip |
| ParseInput.ParseFormatted | buildmtree.py:9-15 | round trip: clean items written as "[a, b, ...]" parse back to the same list (the empty list included) |
| ParseInput.LoneOpeningBracketKept | buildmtree.py:12-13 | an opening bracket without a closing one is not removed; it stays at the start of the first element |
| ParseInput.ClosingBracketOnLastPiece | buildmtree.py:15 | when a text ends in ']', the last element of its split and stripped pieces ends in ']' |
| ParseInput.LoneClosingBracketKept | buildmtree.py:12-13 | a closing bracket without an opening one is not removed; it stays at the end of the last element |
| MerkleBuild.LeafHashes | buildmtree.py:19-25 | level 0 has one entry per input, and entry `i` is the digest of input `i` |
| MerkleBuild.Partner | buildmtree.py:31-38 | definition: the entry hashed together with the node at `x`, its left neighbour for odd `x`, its right neighbour or itself for even `x`; characterised by `NextLevelPairs` and `StepInRange` |
| MerkleBuild.NextLevel | buildmtree.py:30-41 | the level above has `(len + 1) // 2` entries |
| MerkleBuild.NextLevelPairs | buildmtree.py:31-40 | entry `j` of the level above is `H(level[2j] + level[2j+1])`, or `H(level[2j] + level[2j])` for an unpaired last node |
| MerkleBuild.BuildLevels | buildmtree.py:23-42 | the first level returned is the level the build started from |
| MerkleBuild.Levels | buildmtree.py:17-43 | definition: the levels `build_merkle_tree` returns, the reference `BuildMerkleTree` is proved equal to; characterised by `LevelsShape` and `LevelsParent` |
| MerkleBuild.BuildLevelsAbove | buildmtree.py:29-42 | every level but the top has more than one entry, and the next level is its pairing |
| MerkleBuild.BuildLevelsShape | buildmtree.py:29-42 | the levels halve rounding up; the top level has one entry, or the levels are `[[]]` for no input |
| MerkleBuild.LevelsShape | buildmtree.py:17-43 | level 0 is the inputs' digests in order; each level halves rounding up; any non-empty input ends in a single-entry level; the empty input yields `[[]]` |
| MerkleBuild.LevelsParent | buildmtree.py:29-42 | in the built tree, a level below the top has more than one entry, the next level has `(len + 1) // 2` entries, and each parent hashes its two children (or the last child twice) |
| MerkleBuild.SingleLeaf | buildmtree.py:25-29 | one input gives the single level holding its digest, with no pairing |
| MerkleBuild.BuildStep | buildmtree.py:29-42 | above a level with more than one entry, the remaining levels start with its pairing |
| MerkleBuild.PairLevel | buildmtree.py:30-40 | the inner loop computes exactly the level above: each pair hashed in order, an odd last entry hashed with itself |
| MerkleBuild.BuildMerkleTree | buildmtree.py:17-43 | the leaf records are the inputs with their digests in order, and the levels the loops build equal `Levels(h, data)` |
| MerkleBuild.TreeRecord | buildmtree.py:51-59 | an empty list is rejected, and only an empty one; otherwise the record holds the list's leaf records and levels, the last level has one entry, and the root is that entry |
| MerkleBuild.BuildFromArgument | buildmtree.py:50-59 | the argument is rejected exactly when the parsed list is empty; otherwise the record holds the leaves and levels of the parsed list, and its root is the one entry of the last level |
| AuditPath.PyAt | checkinclusion.py:35 | Python indexing succeeds exactly on `-len <= i < len`; a non-negative position reads from the front and a negative one from the end |
| AuditPath.Record | checkinclusion.py:32-35 | definition: `proof.append(level[sibling_index])` as a one-entry walk, IndexError outside the level; characterised by `PyAt` |
| AuditPath.Step | checkinclusion.py:29-35 | definition: one level of the loop (also checkconsitency.py:48-54); characterised by `StepInRange` and `WalkFromMinusOne` |
| AuditPath.Walk | checkinclusion.py:28-36 | definition: the whole loop over the levels (also checkconsitency.py:47-55), the reference `GetInclusionProof` and `GetConsistencyProof` are proved equal to; characterised by `WalkInRange`, `RootAddsNothing` and `WalkVisits` |
| AuditPath.AllButLast | checkconsitency.py:47 | `levels[:-1]` has one level fewer, or none for no levels |
| AuditPath.StepInRange | checkinclusion.py:29-35 | at a position inside its level, the step records the node's partner in the build, except for an unpaired last node, which records nothing |
| AuditPath.WalkInRange | checkinclusion.py:26-36 | on levels that halve rounding up, the walk from a leaf position never raises IndexError and records at most one entry per level |
| AuditPath.RootAddsNothing | checkinclusion.py:28-36 | on levels that halve rounding up and end in a single-entry top level, from a leaf position, walking all levels equals walking all levels but the last; the walk completes with at most one entry per level below the root |
| AuditPath.WalkFromMinusOne | checkconsitency.py:46-55 | from position -1 (kept by `-1 // 2`), on levels of at least two entries, the walk records the second-to-last entry of every level |
| AuditPath.WalkStart | checkinclusion.py:24-28 | before the first level, nothing is recorded and the whole walk is ahead |
| AuditPath.WalkFrom | checkinclusion.py:28-36 | one turn of the loop: the walk from level `k` is that level's step followed by the walk from level `k + 1` at the halved position |
| AuditPath.WalkDone | checkinclusion.py:37 | after the last level, the recorded entries are the whole walk |
| AuditPath.HalveAgain | checkinclusion.py:36 | halving `i // 2^k` once more gives `i // 2^(k+1)` |
| AuditPath.Halved | checkinclusion.py:36 | halving `i` once per level for `k` levels, as `index //= 2` does, gives `i // 2^k` |
| AuditPath.IndexAtLevel | checkinclusion.py:26-36 | on levels that halve rounding up, the position `Halved(i, k)` lies inside level `k` |
| AuditPath.WalkBelow | checkinclusion.py:28-36 | definition: the first `k` turns of the loop; characterised by `WalkVisits` |
| AuditPath.WalkVisits | checkinclusion.py:26-36 | after `k` levels the walk from position `i` goes on from position `i // 2^k` of level `k`: the whole walk is the first `k` steps followed by the walk from there |
| AuditPath.WalkAtLevel | checkinclusion.py:28-36 | what level `k` contributes to the walk from `i` is its step at position `i // 2^k`, between the first `k` steps and the walk from half that position |
| AuditPath.WalkAtPosition | checkinclusion.py:28-36 | on levels that halve rounding up, the walk from `i` reaches level `k` at a position `i // 2^k` inside it and records there the node's build partner, or nothing for the node paired with itself |
| Inclusion.FirstMatch | checkinclusion.py:15-22 | `None` exactly when no leaf holds the target; otherwise the position of the first leaf that does |
| Inclusion.GetInclusionProof | checkinclusion.py:13-37 | `None` exactly when no leaf's data equals the target; otherwise the walk from the first matching leaf over the stored levels, with IndexError as a possible outcome |
| Inclusion.WalkOnBuiltTree | checkinclusion.py:26-36 | on a built tree, the walk from any leaf completes, with at most one entry per level below the root |
| Inclusion.PathEntryAtLevel | checkinclusion.py:26-36 | on a built tree, the walk from leaf `t` reaches each level `k` below the root at position `t // 2^k`, which exists, and records there the entry the build paired with that node (nothing for an unpaired node) before going on from half that position |
| Inclusion.PathEntriesArePartners | checkinclusion.py:29-36 | on a built tree, at a position `x` of a level below the root, the walk records the entry the build hashed with that node (nothing for an unpaired node); the parent at `x // 2` exists and is the hash of the two, left and right in order |
| Inclusion.InclusionOnBuiltTree | checkinclusion.py:17-37 | on a built tree's leaves, the search fails exactly when the target is not an input; otherwise it finds the first occurrence, and the proof is a complete walk from there |
| Consistency.IsConsistent | checkconsitency.py:68 | the lists are consistent exactly when the old list is a prefix of the new one, so an old list longer than the new one never is |
| Consistency.GetConsistencyProof | checkconsitency.py:41-56 | the loop computes the walk over `new_levels[:-1]` from position `len(old_leaves) - 1` (which is -1 for no old leaves), with IndexError as a possible outcome |
| Consistency.ConsistencyIsInclusionWalk | checkconsitency.py:44-55 | for levels that halve rounding up to a single root, and `1 <= n <= len(levels[0])`, the consistency walk completes and equals the inclusion walk from leaf `n - 1` |
| Consistency.ConsistencyFromEmptyOld | checkconsitency.py:64-83 | an empty old list is consistent with every new list, and its proof is the second-to-last entry of every level below the new root |
| Consistency.ConsistencyOnBuiltTrees | checkconsitency.py:64-83 | on the "yes" path with a non-empty old list, the proof over the new tree completes with at most one entry per level below the root; when the last old element does not occur earlier, the proof is the inclusion proof of that element on the new tree |
| Scenarios.HelpTextArgument | buildmtree.py:47-50 | the help text's example argument parses to its four names |
| Scenarios.FourLeaves | buildmtree.py:17-43 | the three levels of the tree over a, b, c, d, and the inclusion proof for c: d's digest, then the digest of (a, b) |
| Scenarios.ThreeLeaves | checkinclusion.py:28-36 | over a, b, c, the unpaired leaf c records nothing at level 0, so its proof is only the digest of (a, b) |
| Scenarios.ConsistencyExample | checkconsitency.py:64-83 | a, b, c is consistent with a, b, c, d, e and its proof has three entries; it is not consistent with a, x, c, d |
| Scenarios.EmptyOldExample | checkconsitency.py:41-56 | an empty old list against a, b, c, d gives the proof: c's digest, then the digest of (a, b) |

## Left out

- Argument parsing, printing, `sys.exit` and the reading and writing of `merkle.tree` and `merkle.trees` are I/O. `BuildFromArgument` returns the record instead of writing it; the other methods take their inputs as values.
- `load_tree` and the error message for a missing or unreadable file are not modelled. `GetInclusionProof` takes a `Tree` whose `leaves` and `levels` are always present. This matches `tree.get(..., [])` for a missing key. A leaf without `"data"` cannot occur in the model: such a leaf matches no target in the source, and it has no counterpart here.
- SHA-256 and the UTF-8 encoding are not modelled; the digest is the parameter `h`. Properties that need a collision-resistant hash, such as "the root commits to every leaf", are therefore not stated.
- The `left` and `right` fields of the intermediate node dictionaries are never written out, so the model keeps only each node's hash.
- `IsSpace` is the fixed set of characters that `str.isspace()` accepts. Python applies that set to code points; here it is applied to Dafny `char`s.
- The consistency tool's `main` builds both trees and writes their levels to `merkle.trees` (checkconsitency.py:72-74 and 86-88). It prints `no` (line 75), or `yes` followed by the proof (line 90). `ConsistencyOnBuiltTrees`, `ConsistencyFromEmptyOld` and `IsConsistent` state what it decides and prints. The statement sequence itself is not a separate method, because every step of it is I/O or a modelled call.
- `ConsistencyOnBuiltTrees`: for a non-empty old list, it states the relation to the inclusion proof only when the last old element does not occur earlier in the list. With a repeated last element, `get_inclusion_proof` starts from the first occurrence instead.
- "Neither proof function modifies the tree" holds here by value semantics: the functions and methods take sequences and return new values.
