# PathUtils: mapping Sitecore item paths to serialization directories

This project models and proves properties of `PathUtils` from the Sitecore support
patch 145591. The serializer writes each content item to a directory whose path
comes from the item's slash-delimited path, such as `/sitecore/content/home/page`.
Three things happen on the way:

- **Escaping.** Characters that Windows forbids in file names become `%XX` escapes:
  `%` and `$` first, then the platform's invalid file-name characters, then the
  characters configured in the settings. `/` and `\` are never escaped. A static
  constructor builds the substitution table once, and `HandleIllegalSymbols` applies
  one `StringBuilder.Replace` per table entry, in table order.
- **Shortening.** The escaped path is cut into slices of `240 - SerializationFolderPathMaxLength`
  characters. An escaped path at least one slice long, with a `/` after its first
  character, is cut at a `/`. The cut is the first `/` at or after the start of the last
  slice, or the last `/` before that start when the last slice holds none, however far
  back it lies (`SplitIndex`). A path with no `/` after its first character is not cut.
  The part before the cut is replaced by a short directory: the root
  joined with an 8-character hash of that part (`GetShortPath`). The directory holds a
  `link` file recording what the hash stands for. That file is written only if it
  does not exist yet.
- **Hashing.** `GetHash` takes the MD5 digest of the lower-cased UTF-8 text. It folds
  the digest in place into its first four bytes, and renders those bytes as 8
  upper-case hex digits.

Modules, one per concern of the source file:

| file | module | what it holds |
|---|---|---|
| `hex.dfy` | `Hex` | .NET's `"X<width>"` number format and reading it back |
| `text.dfy` | `Text` | character replacement, ASCII lower-casing, prefixes |
| `platform_path.dfy` | `PlatformPath` | the Windows separators, `GetInvalidFileNameChars`, `IsPathRooted`, `Combine` |
| `slice_arithmetic.dfy` | `SliceArithmetic` | C#'s truncating division and the start of the last slice |
| `illegal_symbols.dfy` | `IllegalSymbols` | the substitution table, the ordered replacement and its one-pass equivalent |
| `hashing.dfy` | `Hashing` | `GetHash`: the in-place fold over an array and the hex rendering |
| `short_path.dfy` | `ShortPath` | `GetShortPath` |
| `item_path_mapping.dfy` | `ItemPathMapping` | `MapItemPath`, `GetDirectoryPath` and a `FileSystem` class holding the files and directories |

Exceptions and failed assertions become `Failure` values of a `Result`. These cover:

- an item path holding `"`, `<`, `>`, `|` or a control character, which the .NET
  Framework's `Path.IsPathRooted` rejects at line 40 before anything else;
- a rooted item path;
- a zero slice length (the source's division by zero);
- a root holding one of those characters, which the first `Path.Combine` of every
  outcome rejects (lines 46, 55 and 92) before the file system is touched;
- a path outside the root in `GetShortPath`, or a root holding one of those characters.

MD5 and UTF-8 are two functions held in a `Hasher` value that the caller supplies.

The settings and the static table become parameters:

- `folderPathMaxLength` is the length setting, read on each call.
- `table` is the static table. The static constructor builds it as
  `IllegalSymbolsToReplace(configured)`, where `configured` holds the characters
  from the settings. `MapPath` is stated over `configured`, and `MapItemPath` receives
  the table together with the characters it was built from.

Two functions carry most of the lemmas:

- `MapEscaped` gives the outcome of source lines 42-71 for a path that is already escaped.
- `EscapeEach` is the one-pass reference for the ordered replacements of line 82. It
  replaces every character at once by its table entry.

Each imperative routine of the source is a method proved against a function:

- `HandleIllegalSymbols` against `ReplaceInOrder`;
- `GetHash` against `HashName`;
- `MapItemPath` against `MapPath` plus `FilesAfter`/`DirectoriesAfter`, which give the
  file system after the call.

`MapItemPath` itself is written as two steps:

- `SliceEscaped` does the arithmetic and the string cutting of lines 42-64.
- `EnsureLink` performs the conditional create-and-write of lines 66-70 on the `FileSystem` object.

The source does the same things in the same order within one method body.

### Behaviour of the code worth knowing

- **Link file contents.** The `link` file holds the leading part with its `/`
  already turned into `\`, not the slash form (line 57, line 69).
  `LinkRecordsLeadingPart` shows that the slash form can be recovered when the escaped
  path holds no `\`. Line 30 never escapes `\`, so an item path may hold one, and then
  the link text no longer tells it apart from a `/`.
- **The fold drops four bytes.** A fold modulo 4 over all 16 digest bytes would give
  `d[j] ^ d[4+j] ^ d[8+j] ^ d[12+j]`. In the loop, however, the iterations `i < 4`
  compute `b[i] ^= b[i]`, which zeroes the first four bytes. Byte `j` of the name is
  therefore `d[4+j] ^ d[8+j] ^ d[12+j]` (lines 101-104). `FoldedOmitsFirstWord` states
  the difference and `FoldedDiffersFromFullFold` gives a digest where the two disagree.
  The model keeps the code's fold, because that fold decides the directory names on disk.
- **Where the cut falls.** Take `aaaaaaaaaa/bbbbbbbbbb/c` (23 characters) with slices
  of 10. The search starts at 20, the first `/` at or after it is at 21, and the path
  is cut there, not at 10 (line 48). `CutAtSliceBoundary` states the general rule.
- **A cut path can leave the root.** When the character after the cut is another `/`,
  the part after the cut becomes a path starting with `\` (line 58). `Path.Combine`
  returns a rooted second argument alone, so line 71 returns that part without the
  short path or the root. With a maximum length of 230, the item path `aaaaaaaaaa//c`
  maps to `\c` (`ItemPathLeavesRoot`). `MappedUnderRoot` proves that a mapped path lies
  under the root unless the part after the cut is rooted, and `SuffixRootedWhen` says when
  that part is rooted. Whether a rooted part happens to start with the root as well is
  not stated.
- **The root is converted too.** A path shorter than one slice has every `/` turned
  into `\` after the join, the root's included (line 46). A longer path that is not
  cut keeps its `/` (line 55).
- **Some escapes never fire here.** Line 40 rejects an item path holding `"`, `<`,
  `>`, `|` or a control character before it is escaped. So the table entries for
  those characters never change a path that `MapItemPath` escapes.
- **A configured hex digit escapes earlier escapes.** The configured characters come
  after `:` in the table (`TableOrder`). With `A` configured, `:` first becomes `%3A`,
  and the later `A` entry then turns it into `%3%41` (line 82). The one-pass
  equivalence (`EscapingIsOnePass`) therefore assumes that no hex digit is configured.
- **When the settings are read.** The table is built once, when the class is first
  used (lines 20-31). The maximum length is read on every call (line 42). In C#'s
  unchecked arithmetic, `240 - SerializationFolderPathMaxLength` wraps around to a
  negative slice length for a setting below 240 - int.MaxValue (`Threshold`).

## Model

| member | source | states |
|---|---|---|
| Hex.Format | src/Sitecore.Support.145591/Data/Serialization/PathUtils.cs:28 | `"X<width>"` yields upper-case hex digits, at least `width` of them, and pads only up to the width: a rendering longer than the width and than one digit does not start with `0` |
| Hex.FormatRoundTrip | src/Sitecore.Support.145591/Data/Serialization/PathUtils.cs:28 | reading the `"X<width>"` digits of a number back gives the number |
| Hex.X2Length | src/Sitecore.Support.145591/Data/Serialization/PathUtils.cs:108 | a value below 256 renders in `"X2"` as exactly two digits |
| Text.Replace | src/Sitecore.Support.145591/Data/Serialization/PathUtils.cs:82 | replacing a character leaves text without it unchanged, removes it when the replacement does not contain it, keeps the length for a one-character replacement, and adds only characters of the replacement |
| Text.ReplaceConcat | src/Sitecore.Support.145591/Data/Serialization/PathUtils.cs:82 | replacement distributes over concatenation |
| Text.ReplaceBack | src/Sitecore.Support.145591/Data/Serialization/PathUtils.cs:57 | turning `/` into `\` and back restores text that held no `\` |
| Text.ReplaceAt | src/Sitecore.Support.145591/Data/Serialization/PathUtils.cs:57-58 | turning `/` into `\` changes each position on its own: a `/` becomes `\`, every other character stays |
| Text.ReplaceKeepsPrefix | src/Sitecore.Support.145591/Data/Serialization/PathUtils.cs:46 | a replacement applied to a string and to its prefix keeps the prefix relation |
| Text.Lower | src/Sitecore.Support.145591/Data/Serialization/PathUtils.cs:98 | `ToLowerInvariant` keeps the length, leaves no upper-case letter, and changes each character only in case |
| Text.LowerIdempotent | src/Sitecore.Support.145591/Data/Serialization/PathUtils.cs:98 | lower-casing twice is lower-casing once |
| Text.StartsWithOwnPrefix | src/Sitecore.Support.145591/Data/Serialization/PathUtils.cs:88 | `root + rest` starts with `root` when case is ignored |
| PlatformPath.Combine | src/Sitecore.Support.145591/Data/Serialization/PathUtils.cs:71 | `Path.Combine(a, b)` ends with `b`; a rooted `b` is returned alone, and otherwise the result starts with `a`; a `\` is added exactly when both are non-empty, `b` is not rooted and `a` ends in no separator |
| SliceArithmetic.StartIndex | src/Sitecore.Support.145591/Data/Serialization/PathUtils.cs:43-44 | the start of the last slice is at most the length and within one slice of it, and it is 0 exactly when the path is shorter than one slice |
| SliceArithmetic.StartIndexIsTruncatedProduct | src/Sitecore.Support.145591/Data/Serialization/PathUtils.cs:43 | that start equals `(len / num) * num` under C#'s truncating division, for either sign of `num` |
| IllegalSymbols.EncodingAlgorithm | src/Sitecore.Support.145591/Data/Serialization/PathUtils.cs:24-29 | the escape of a character is `%` followed by upper-case hex digits that read back as its code; it is three characters long for codes below 256, and a longer escape has no leading `0` after the `%` |
| IllegalSymbols.DistinctExcept | src/Sitecore.Support.145591/Data/Serialization/PathUtils.cs:30 | `Distinct().Except(...)` keeps exactly the characters not excluded, each once, and the first one first |
| IllegalSymbols.DistinctExceptOrder | src/Sitecore.Support.145591/Data/Serialization/PathUtils.cs:30 | `Distinct().Except(...)` lists the characters it keeps in the order of their first occurrence |
| IllegalSymbols.FirstTwoSurvive | src/Sitecore.Support.145591/Data/Serialization/PathUtils.cs:23 | two different leading characters that are not excluded stay first and second |
| IllegalSymbols.IllegalSymbolsToReplace | src/Sitecore.Support.145591/Data/Serialization/PathUtils.cs:20-31 | the table's keys are exactly the candidate characters other than `/` and `\`, each once; `%` and `$` come first; each key's value is its escape |
| IllegalSymbols.TableOrder | src/Sitecore.Support.145591/Data/Serialization/PathUtils.cs:23-30 | the table's keys follow the candidates' first occurrences: `%` and `$`, then the platform's invalid file-name characters, then the configured ones |
| IllegalSymbols.HandleIllegalSymbols | src/Sitecore.Support.145591/Data/Serialization/PathUtils.cs:80-83 | the builder ends as the table's replacements applied in order, which is the one-pass escape whenever no later key occurs in an earlier value |
| IllegalSymbols.ReplaceIllegalCharsByConfig | src/Sitecore.Support.145591/Data/Serialization/PathUtils.cs:74-78 | escaping a path applies the static table's replacements in order |
| IllegalSymbols.EscapeEachConcat | src/Sitecore.Support.145591/Data/Serialization/PathUtils.cs:82 | the one-pass escape works character by character, so it distributes over concatenation |
| IllegalSymbols.AppendEntryIsOneMoreReplace | src/Sitecore.Support.145591/Data/Serialization/PathUtils.cs:82 | one more table entry is one more `Replace` after the one-pass escape by the shorter table |
| IllegalSymbols.ReplaceInOrderIsOnePass | src/Sitecore.Support.145591/Data/Serialization/PathUtils.cs:82 | the ordered replacements equal the one-pass escape when no value contains a later key |
| IllegalSymbols.PlatformCharsAreNotHexDigits | src/Sitecore.Support.145591/Data/Serialization/PathUtils.cs:30 | no invalid file-name character is an upper-case hex digit |
| IllegalSymbols.LaterKeysAreNotEscapeChars | src/Sitecore.Support.145591/Data/Serialization/PathUtils.cs:23 | with no hex digit configured, every key after the first is neither `%` nor a hex digit |
| IllegalSymbols.TableIsOnePassSafe | src/Sitecore.Support.145591/Data/Serialization/PathUtils.cs:23-30 | with no hex digit configured, no value contains a later key, and values contain no key except `%` |
| IllegalSymbols.NotInEscaped | src/Sitecore.Support.145591/Data/Serialization/PathUtils.cs:24-29 | an escape contains only `%` and hex digits |
| IllegalSymbols.NoRawKeyRemains | src/Sitecore.Support.145591/Data/Serialization/PathUtils.cs:82 | after the one-pass escape, the only table key left in the text is `%` |
| IllegalSymbols.LookupInTable | src/Sitecore.Support.145591/Data/Serialization/PathUtils.cs:30 | a character becomes its escape exactly when it is a key; `/` and `\` pass through unchanged |
| IllegalSymbols.EscapingIsOnePass | src/Sitecore.Support.145591/Data/Serialization/PathUtils.cs:30-82 | escaping with the configured table is the one-pass escape, leaves no raw key but `%`, and maps `a + "/" + b` to the escapes of `a` and `b` around the same `/` |
| IllegalSymbols.UnescapeEscape | src/Sitecore.Support.145591/Data/Serialization/PathUtils.cs:24-29 | for a table containing `%` whose keys have codes below 256, reading the `%XX` escapes back restores the original text |
| IllegalSymbols.UnescapeEncoded | src/Sitecore.Support.145591/Data/Serialization/PathUtils.cs:28 | the escape of a character below 256 reads back as that character |
| IllegalSymbols.EncodingExamples | src/Sitecore.Support.145591/Data/Serialization/PathUtils.cs:24-29 | `%` escapes to `%25` and `:` to `%3A` |
| IllegalSymbols.PercentAndColonAreKeys | src/Sitecore.Support.145591/Data/Serialization/PathUtils.cs:23-30 | `%` and `:` are keys of every configured table |
| IllegalSymbols.PercentAndColonEscapes | src/Sitecore.Support.145591/Data/Serialization/PathUtils.cs:23-30 | in every configured table `%` becomes `%25` and `:` becomes `%3A` |
| IllegalSymbols.ReplaceInOrderKeepsOut | src/Sitecore.Support.145591/Data/Serialization/PathUtils.cs:82 | a character in neither the text nor any value is absent after escaping |
| IllegalSymbols.EscapingAddsNoSeparator | src/Sitecore.Support.145591/Data/Serialization/PathUtils.cs:30-82 | escaping never introduces a `\` |
| IllegalSymbols.ReplaceInOrderKeepsPlain | src/Sitecore.Support.145591/Data/Serialization/PathUtils.cs:82 | text containing no key is left unchanged |
| IllegalSymbols.LettersAreNoCandidates | src/Sitecore.Support.145591/Data/Serialization/PathUtils.cs:30 | a lower-case letter that is not configured is not a candidate key |
| IllegalSymbols.LettersAndSlashesAreKept | src/Sitecore.Support.145591/Data/Serialization/PathUtils.cs:30-82 | a path of lower-case letters and `/` is unchanged by escaping when no letter is configured |
| IllegalSymbols.EscapedPathIsValid | src/Sitecore.Support.145591/Data/Serialization/PathUtils.cs:40-46 | escaping an item path that passed the invalid-path-character check yields a path that passes it too, so `Path.Combine` never rejects the escaped path |
| IllegalSymbols.EscapeEachStart | src/Sitecore.Support.145591/Data/Serialization/PathUtils.cs:24-29 | a one-pass escape begins with the first character itself or with `%` |
| IllegalSymbols.EscapedPathIsUnrooted | src/Sitecore.Support.145591/Data/Serialization/PathUtils.cs:40-41 | escaping an unrooted item path with any configured table leaves it unrooted: no key is a separator and every escape is `%` followed by hex digits, so the root joins at lines 46 and 55 keep the root in front |
| IllegalSymbols.ReplaceInOrderKeepsUnrooted | src/Sitecore.Support.145591/Data/Serialization/PathUtils.cs:82 | the ordered replacements keep a path unrooted when no key is a separator and every value opens with `%` and a character other than `:` |
| Hashing.PartialStep | src/Sitecore.Support.145591/Data/Serialization/PathUtils.cs:101-104 | one iteration of the fold changes only slot `i % 4`, zeroing it while `i < 4` and XOR-ing in byte `i` afterwards |
| Hashing.PartialFourMore | src/Sitecore.Support.145591/Data/Serialization/PathUtils.cs:101-104 | four iterations past the first four add byte `i + j` to slot `j` |
| Hashing.PartialComplete | src/Sitecore.Support.145591/Data/Serialization/PathUtils.cs:101-104 | after the loop, slot `j` holds `d[4+j] ^ d[8+j] ^ d[12+j]` |
| Hashing.RenderBytes | src/Sitecore.Support.145591/Data/Serialization/PathUtils.cs:105-110 | the `"X2"` rendering of the bytes is two upper-case hex digits per byte |
| Hashing.RenderBytesAt | src/Sitecore.Support.145591/Data/Serialization/PathUtils.cs:108 | characters `2k` and `2k+1` of the rendering are byte `k`'s `"X2"` form and read back as that byte |
| Hashing.HashText | src/Sitecore.Support.145591/Data/Serialization/PathUtils.cs:105-110 | the name is 8 upper-case hex digits |
| Hashing.HashTextRoundTrip | src/Sitecore.Support.145591/Data/Serialization/PathUtils.cs:101-110 | the hex pair at position `j` of the name reads back as folded byte `j` |
| Hashing.HashName | src/Sitecore.Support.145591/Data/Serialization/PathUtils.cs:96-111 | `GetHash` returns 8 upper-case hex digits |
| Hashing.GetHash | src/Sitecore.Support.145591/Data/Serialization/PathUtils.cs:96-111 | the in-place fold over the byte array and the builder loop return the name of the lower-cased text's digest, 8 upper-case hex digits |
| Hashing.HashNameIgnoresCase | src/Sitecore.Support.145591/Data/Serialization/PathUtils.cs:98 | texts equal up to case get the same name |
| Hashing.FoldedOmitsFirstWord | src/Sitecore.Support.145591/Data/Serialization/PathUtils.cs:101-104 | the loop's byte `j` is the full four-way fold XOR `d[j]`, so the two agree exactly when `d[j]` is 0 |
| Hashing.FoldedDiffersFromFullFold | src/Sitecore.Support.145591/Data/Serialization/PathUtils.cs:101-104 | a digest whose first byte alone is 1 folds to 0 in slot 0, where the full fold gives 1 |
| ShortPath.GetShortPath | src/Sitecore.Support.145591/Data/Serialization/PathUtils.cs:85-94 | fails exactly when the path does not start with the root (ignoring case) or the root holds an invalid path character; otherwise the root, then at most one character, which is `\`, then 8 hex digits |
| ShortPath.ShortPathOfRootedContents | src/Sitecore.Support.145591/Data/Serialization/PathUtils.cs:64 | the call with `root + contents` succeeds exactly when the root holds no invalid path character, and then hashes exactly `contents` |
| ShortPath.ShortPathIgnoresCase | src/Sitecore.Support.145591/Data/Serialization/PathUtils.cs:88-92 | paths equal up to case get the same outcome |
| ItemPathMapping.IndexOf | src/Sitecore.Support.145591/Data/Serialization/PathUtils.cs:48 | the first index at or after the start holding the character, or -1 when none does |
| ItemPathMapping.LastIndexOf | src/Sitecore.Support.145591/Data/Serialization/PathUtils.cs:51 | the last index at or before the start holding the character, or -1 when none does |
| ItemPathMapping.SplitIndex | src/Sitecore.Support.145591/Data/Serialization/PathUtils.cs:48-52 | the cut is at a `/`, and is -1 exactly when there is none; it is the first `/` from the slice start, and failing that the last `/` in the path |
| ItemPathMapping.ToNative | src/Sitecore.Support.145591/Data/Serialization/PathUtils.cs:57-58 | converting `/` to the separator keeps the length and leaves no `/` |
| ItemPathMapping.FromNative | src/Sitecore.Support.145591/Data/Serialization/PathUtils.cs:57 | the reverse conversion keeps the length and leaves no `\` |
| ItemPathMapping.Threshold | src/Sitecore.Support.145591/Data/Serialization/PathUtils.cs:42 | `240 - max` in 32-bit arithmetic: congruent to the true difference modulo 2^32, equal to it unless the setting is below 240 - int.MaxValue (then negative), and 0 exactly for a setting of 240 |
| ItemPathMapping.MapPath | src/Sitecore.Support.145591/Data/Serialization/PathUtils.cs:38-72 | the mapping fails exactly for an item path holding an invalid path character, a rooted item path, a maximum length of 240, or a root holding an invalid path character |
| ItemPathMapping.FileSystem.CreateDirectory | src/Sitecore.Support.145591/Data/Serialization/PathUtils.cs:68 | adds the directory and leaves the files alone |
| ItemPathMapping.FileSystem.WriteAllText | src/Sitecore.Support.145591/Data/Serialization/PathUtils.cs:69 | sets the file's text and leaves the directories alone |
| ItemPathMapping.EnsureLink | src/Sitecore.Support.145591/Data/Serialization/PathUtils.cs:66-70 | a split creates the short directory and writes its link file, only when the link file is missing |
| ItemPathMapping.SliceEscaped | src/Sitecore.Support.145591/Data/Serialization/PathUtils.cs:42-64 | the slicing code computes the mapping of the escaped path |
| ItemPathMapping.MapItemPath | src/Sitecore.Support.145591/Data/Serialization/PathUtils.cs:38-72 | each failure leaves the file system untouched; otherwise the method returns the mapped path, and the files and directories change only as the link rule says |
| ItemPathMapping.GetDirectoryPath | src/Sitecore.Support.145591/Data/Serialization/PathUtils.cs:33-36 | fails exactly when `MapPath` does (invalid or rooted item path, maximum length 240, invalid root), leaving the file system untouched; otherwise returns the mapped path after the link rule |
| ItemPathMapping.SplitsExactly | src/Sitecore.Support.145591/Data/Serialization/PathUtils.cs:43-56 | a path is split exactly when it is at least one slice long and has a `/` after its first character |
| ItemPathMapping.SplitShape | src/Sitecore.Support.145591/Data/Serialization/PathUtils.cs:57-71 | a split cuts at a `/` past position 0, and prefix + `/` + suffix is the escaped path; the link contents are the converted prefix, which is non-empty, so the branch at lines 59-62 is dead; the short path is the root joined with the prefix's name, which is what `GetShortPath(root + contents, root)` returns for a valid root; the result is the converted suffix combined with it |
| ItemPathMapping.MappedUnderRoot | src/Sitecore.Support.145591/Data/Serialization/PathUtils.cs:44-71 | a path shorter than one slice maps to the root join with every `/` converted, and one not cut to the root join with its `/` kept; both lie under the root unless the escaped path is rooted. A cut path lies under the short path, and so under the root, unless the part after the cut is rooted, in which case it is that part alone |
| ItemPathMapping.SuffixRootedWhen | src/Sitecore.Support.145591/Data/Serialization/PathUtils.cs:58-71 | the part after the cut is rooted exactly when the escaped path has a separator right after the cut, or `:` one further |
| ItemPathMapping.DoubleSlashLeavesRoot | src/Sitecore.Support.145591/Data/Serialization/PathUtils.cs:48-71 | with slices of 10, `aaaaaaaaaa//c` is cut at index 10 and maps to `\c`, outside any root longer than two characters |
| ItemPathMapping.ItemPathLeavesRoot | src/Sitecore.Support.145591/Data/Serialization/PathUtils.cs:38-72 | with a maximum length of 230, a valid root and no lower-case letter configured, the item path `aaaaaaaaaa//c` maps successfully to `\c` |
| ItemPathMapping.CutAtSliceBoundary | src/Sitecore.Support.145591/Data/Serialization/PathUtils.cs:43-52 | when a `/` lies at or after the slice start, the cut is at the first such `/`, and the result is less than one slice (plus the 8-character name and a separator) longer than the root |
| ItemPathMapping.LinkAfterSplit | src/Sitecore.Support.145591/Data/Serialization/PathUtils.cs:66-70 | after a split the link file exists: it keeps its earlier text, or else holds the contents; a newly written link file comes with its directory |
| ItemPathMapping.EffectsIdempotent | src/Sitecore.Support.145591/Data/Serialization/PathUtils.cs:66-70 | existing files keep their text, the only new file is the link file, no directory disappears, and a second mapping of the same path changes nothing |
| ItemPathMapping.LinkRecordsLeadingPart | src/Sitecore.Support.145591/Data/Serialization/PathUtils.cs:57-69 | when the escaped path holds no `\`, converting the link file's text back gives exactly the part of the escaped path before the cut |

## Left out

- MD5 (RFC 1321) and UTF-8 encoding are functions held in the caller-supplied `Hasher` value. Nothing is proved about them beyond the 16-byte length of a digest.
- The shared `_md5` instance, its `Initialize` call and thread safety are left out, because they concern concurrency and not the result.
- Text.Lower: `ToLowerInvariant` and `InvariantCultureIgnoreCase` are modelled as ASCII lower-casing. The invariant culture's mappings of other letters are not modelled.
- Characters are Dafny characters (Unicode scalar values), not UTF-16 code units, so surrogate pairs are not modelled.
- PlatformPath.Combine: is the join for arguments that passed .NET's invalid-path-character check, and does not fail itself. The check is modelled where it can fire: on the root, in `GetShortPath` and `MapPath`. The escaped item path and the hash never hold such a character (`EscapedPathIsValid`, `HashName`).
- `Path.GetInvalidFileNameChars()` and the separators are fixed to their Windows .NET Framework values.
- `Settings.Serialization.InvalidFileNameChars` and `SerializationFolderPathMaxLength` are parameters, not settings reads.
- The static table is passed to `MapItemPath` as a parameter rather than held in a static field.
- `(length / num) * num` is computed on unbounded integers. Its magnitude never exceeds the length, so it cannot overflow in C# either. The subtraction before it wraps as in C# (`Threshold`).
- `Assert.IsFalse`, the `ArgumentException`s of `Path.IsPathRooted` and `Path.Combine`, the division by zero and the exception in `GetShortPath` are `Failure` results. The .NET exception types and messages beyond a short text are not modelled.
- `Assert.ArgumentNotNull` and null arguments are left out, because Dafny strings cannot be null.
- The file system is a map from file path to text plus a set of directories. `Directory.CreateDirectory`'s creation of missing parent directories is not modelled. Neither are I/O errors or the encoding of the written text.
- The file system compares paths as exact strings. Windows' `File.Exists` and `Directory.CreateDirectory` ignore case and normalise paths, so `EffectsIdempotent` and `LinkAfterSplit` speak only of the identical path string.
- `HandleIllegalSymbols`' key and value selectors are fixed to the ones its only caller passes: the key as a one-character string and the value.
- IllegalSymbols.UnescapeEscape: is proved for tables whose keys all have codes below 256, the case of every platform character. For a configured character above 255, the escape has more than two digits, and `Unescape` reads only two.
