# Vexil Logic Games: profile engine and site-maintenance scripts in Dafny

This project models the logic in the arcade site vexil-logic-games:

- **The pilot profile** (`assets/js/arcade-profile.js`). It keeps a record of counters: XP, rank index, games played, total score, favourite game, best score and play count per game, and unlocked achievements.
  - `reportGame` updates this record in place.
  - `checkUnlockables` appends achievements without duplicates.
  - `updateRank` maps XP onto an ascending threshold table.
  - `getHitRate` derives a capped percentage.
  - The model is the class `ArcadeProfile.Profile`, whose single field `data` is that record. Each step method's new `data` is a pure step function of the old one, and the lemmas are stated about those step functions.
- **The maintenance scripts** that ran over the site's files:
  - `migrate_codebase.py` rewrites legacy image extensions to `.webp` and deletes legacy images that have a `.webp` sibling.
  - `fix_broken_webp_links.py` reverts `.webp` references that cannot resolve.
  - `apply_lazy_loading.py` adds `loading="lazy"` to `<img>` tags.
  - `minify_assets.py` strips the stylesheet and scripts and derives the `.min` output path.
  - `update_html_links.py` points the pages at the minified files.

Both halves use a few shared pieces:

- `Strings` models Python's `str.replace` (every non-overlapping occurrence, left to right) as `ReplaceAll`, and JavaScript's `String.replace` with a string pattern as `ReplaceFirst`. It also holds `strip`, `split`/`join` on one character, and ASCII case mapping.
- `Paths` models `pathlib` paths as sequences of segments. It covers `suffix`, `with_suffix` and `/`, and the walk's skip rule for `node_modules` and `.git`.
- `ReplaceChains` covers an ordered list of replacements applied one after another. Both the migration and the link update are such chains.

Each script's directory walk is a given sequence of visited files. The files that exist form a set of paths. The walk method returns:

- the files it writes, as a map from path to new text;
- the counters it prints.

Each walk method is proved equal to a function over the first `n` visited files. The lemmas are stated about that function.

## Model

| member | source | states |
|---|---|---|
| Strings.ReplaceAllLength | migrate_codebase.py:42 | `str.replace` grows or shrinks the text by exactly the occurrence count times the length difference |
| Strings.ReplaceAllAbsent | migrate_codebase.py:42 | replacing a pattern that does not occur leaves the text as it is |
| Strings.ReplaceAllSplit | migrate_codebase.py:42 | the first occurrence is replaced, and replacement resumes after it |
| Strings.ReplaceAllUnchangedIff | migrate_codebase.py:42 | replacing `p` by a different `r` changes the text exactly when `p` occurs in it |
| Strings.ReplaceAllRemoves | migrate_codebase.py:42 | when no occurrence of `p` can straddle or lie in `r`, no `p` is left after the replacement |
| Strings.ReplaceAllOccurrence | migrate_codebase.py:42 | any occurrence of a string `q` after the replacement was already there before and is not `p` itself, when `r` cannot help build `q` |
| Strings.ReplaceFirstSplit | assets/js/arcade-profile.js:88 | JavaScript `replace` with a string pattern rewrites only the first occurrence and keeps the rest |
| Strings.Strip | minify_assets.py:11 | `strip()` leaves no whitespace at either end and never lengthens the text |
| Strings.StripSlice | minify_assets.py:11 | the stripped text is a contiguous slice, and everything cut off on either side is whitespace |
| Strings.SplitJoin | minify_assets.py:21 | joining the pieces of `split('\n')` with `\n` gives back the text |
| Strings.JoinSplit | minify_assets.py:32 | splitting the `\n`-join of newline-free lines gives back those lines |
| Strings.LowerContains | apply_lazy_loading.py:39 | a lower-case pattern found in a text is still found after `lower()` |
| Paths.Suffix | migrate_codebase.py:31 | `suffix` runs from the last dot, is never the whole name, and holds no other dot; it is non-empty exactly when the name's last dot is neither its first nor its last character |
| Paths.SuffixExamples | migrate_codebase.py:31 | `a.b.`, `.png` and `a.` have no suffix; `archive.tar.gz` has `.gz`, and `a.PNG` keeps its case |
| Paths.SuffixOfWithSuffix | migrate_codebase.py:66 | after `with_suffix(ext)` the suffix reads back as `ext` |
| Paths.WithSuffixRoundTrip | fix_broken_webp_links.py:106-108 | swapping the suffix and swapping the old one back gives the original path |
| Paths.StemSuffix | migrate_codebase.py:66 | a name is its stem followed by its suffix |
| Paths.JoinPath | fix_broken_webp_links.py:83-86 | joining under a directory extends that directory |
| Paths.SegmentsStripSlashes | fix_broken_webp_links.py:83 | `lstrip('/')` before joining loses nothing but empty segments |
| Paths.SegmentsName | fix_broken_webp_links.py:86 | the joined path's last segment is the text after the reference's last `/` |
| ReplaceChains.ChainRemoves | migrate_codebase.py:37-42 | an ordered chain whose replacements cannot create any pattern leaves none of the patterns in the text |
| ReplaceChains.ChainChangesIff | update_html_links.py:29-32 | such a chain changes the text exactly when some pattern occurs in the input |
| ReplaceChains.ChainIdempotent | update_html_links.py:29-32 | running such a chain on its own output changes nothing |
| ReplaceChains.ChainTrace | update_html_links.py:31 | a string that no replacement can help build is in the output only if it was in the input |
| ReplaceChains.ChainIdle | migrate_codebase.py:37-42 | a chain over text with none of its patterns is the identity |
| ArcadeProfile.RanksAscending | assets/js/arcade-profile.js:33-42 | the eight rank thresholds are strictly ascending and start at 0 |
| ArcadeProfile.XpGain | assets/js/arcade-profile.js:94-98 | XP gain is `score*50` for cyber-pong, `score*2` for neon-snake, `floor(score/10)` for system-defense, and `floor(score/5)` otherwise |
| ArcadeProfile.ComputeXpGain | assets/js/arcade-profile.js:94-98 | the overriding `if` sequence computes `XpGain` |
| ArcadeProfile.NewBestIsMax | assets/js/arcade-profile.js:78-80 | an absent or zero best becomes the score; otherwise the best becomes the larger of the two |
| ArcadeProfile.FirstMaxIndex | assets/js/arcade-profile.js:84-90 | the favourite is the first key with the largest positive count; with no positive count there is none |
| ArcadeProfile.ScanFavorite | assets/js/arcade-profile.js:84-90 | the strict-`>` loop over `playCounts` computes `Favorite` |
| ArcadeProfile.DisplayNameSplit | assets/js/arcade-profile.js:88 | the favourite's name has only its first `-` turned into a space before upper-casing |
| ArcadeProfile.ScanAllPlayed | assets/js/arcade-profile.js:122-123 | the loop finds every game played exactly when no count is 0 |
| ArcadeProfile.Unlocked | assets/js/arcade-profile.js:109-114 | `unlock` appends only an absent id, so the list grows, keeps its order and stays duplicate-free |
| ArcadeProfile.UnlockIf | assets/js/arcade-profile.js:117-124 | a guarded unlock adds the id exactly when the guard holds |
| ArcadeProfile.AfterChecksGrows | assets/js/arcade-profile.js:116-124 | the achievements before `checkUnlockables` are a prefix of those after, and no duplicate appears |
| ArcadeProfile.UnlockConditions | assets/js/arcade-profile.js:116-124 | after the checks `first_blood` is present; each of the other four is present exactly when it was before or its condition holds |
| ArcadeProfile.AfterChecksKnown | assets/js/arcade-profile.js:44-50 | the checks add only ids of the achievement list |
| ArcadeProfile.LastReached | assets/js/arcade-profile.js:127-133 | the index found is the last threshold not above the XP |
| ArcadeProfile.RankBracket | assets/js/arcade-profile.js:127-133 | for non-negative XP the rank index lies in 0..7, its threshold is reached and the next one is not |
| ArcadeProfile.RankMonotone | assets/js/arcade-profile.js:127-133 | more XP never gives a lower rank index |
| ArcadeProfile.ScanRank | assets/js/arcade-profile.js:127-133 | the loop leaves the last reached index, or the old index when none is reached |
| ArcadeProfile.Initial | assets/js/arcade-profile.js:10-31 | the starting record satisfies the profile invariant |
| ArcadeProfile.Reported | assets/js/arcade-profile.js:73-104 | a reported game preserves the invariant: valid rank index, distinct keys and achievements |
| ArcadeProfile.ReportedCounters | assets/js/arcade-profile.js:74-81 | `gamesPlayed` rises by 1, `totalScore` by the score, only `gameId`'s count rises by 1 (absent counts as 0), and `xp` rises by the game's gain |
| ArcadeProfile.ReportedBest | assets/js/arcade-profile.js:78-80 | the best of `gameId` is at least the score and never drops once positive; other games' bests are unchanged |
| ArcadeProfile.ReportedRankAndAchievements | assets/js/arcade-profile.js:101-104 | after a report with non-negative XP the rank index is the last threshold reached; the old achievements are a prefix of the new ones, and `first_blood` is unlocked |
| ArcadeProfile.Profile.constructor | assets/js/arcade-profile.js:10-31 | a new profile holds the initial record |
| ArcadeProfile.Profile.ReportGame | assets/js/arcade-profile.js:73-104 | the in-place updates leave `data` equal to `Reported(old data)` and keep the invariant |
| ArcadeProfile.Profile.Record | assets/js/arcade-profile.js:74-81 | the counter updates in place |
| ArcadeProfile.Profile.UpdateFavorite | assets/js/arcade-profile.js:84-90 | the favourite loop in place |
| ArcadeProfile.Profile.AddXp | assets/js/arcade-profile.js:94-101 | the XP update in place |
| ArcadeProfile.Profile.Unlock | assets/js/arcade-profile.js:109-114 | the inner `unlock` pushes onto the achievements in place |
| ArcadeProfile.Profile.UnlockWhen | assets/js/arcade-profile.js:117-119 | a guarded `unlock` in place |
| ArcadeProfile.Profile.CheckUnlockables | assets/js/arcade-profile.js:108-125 | the checks in place |
| ArcadeProfile.Profile.UpdateRank | assets/js/arcade-profile.js:127-133 | the rank update in place |
| ArcadeProfile.Profile.GetHitRate | assets/js/arcade-profile.js:135-140 | 0 exactly when no game was played; otherwise `min(100, floor(totalScore / gamesPlayed / 10))`, stated as bounds on the total score |
| ArcadeProfile.FloorOfQuotient | assets/js/arcade-profile.js:138-139 | flooring the two divisions in turn is flooring `total / (10 * games)` |
| WebpLinkFixer.FindRefs | fix_broken_webp_links.py:47 | every match is quote-free text ending in `.webp`, with at least one character before it, found in the file |
| WebpLinkFixer.ResolveTarget | fix_broken_webp_links.py:81-86 | a reference starting with `/` resolves under the scan root with its leading slashes dropped, any other under the file's directory, and the target's name ends in `.webp` |
| WebpLinkFixer.Decide | fix_broken_webp_links.py:55-130 | `http` references are reverted to `.png`; an existing local target is kept; a missing one reverts to the first existing `.png`/`.jpg`/`.jpeg` sibling; with none, only a favicon reverts (to `.png`) |
| WebpLinkFixer.RevertedClean | fix_broken_webp_links.py:62 | a reverted reference holds no `.webp` and differs from the original |
| WebpLinkFixer.CountReverts | fix_broken_webp_links.py:65 | at most one reversion is counted per distinct reference |
| WebpLinkFixer.NoRevertKeepsText | fix_broken_webp_links.py:132-135 | with no reversion the text is unchanged |
| WebpLinkFixer.FixFile | fix_broken_webp_links.py:49-130 | the loop over the matches folds each reversion into the text, counts it, and sets `file_changed` exactly when it counted one |
| WebpLinkFixer.SecondPassReverts | fix_broken_webp_links.py:47-62 | the pass is not idempotent: in `"http.webp"favicon.webp"` only `http.webp` is found and reverted, and in the result a second pass finds `favicon.webp` and reverts it |
| WebpLinkFixer.EnumeratedRefs | fix_broken_webp_links.py:47 | any enumeration of the found set holds only references |
| WebpLinkFixer.FixAll | fix_broken_webp_links.py:24-135 | fixed files never outnumber reversions, and only eligible visited files are written |
| WebpLinkFixer.FixAllWrites | fix_broken_webp_links.py:24-135 | no more files are written than counted as fixed; each written path holds the revised text of an eligible file that had a reversion, and every such file is written |
| WebpLinkFixer.VisitFile | fix_broken_webp_links.py:28-135 | one file of the walk: skipped, or fixed, written and counted when it had a reversion |
| WebpLinkFixer.FixBrokenLinks | fix_broken_webp_links.py:24-135 | the walk computes `FixAll` over every visited file |
| ReferenceMigrator.ToWebp | migrate_codebase.py:37-42 | each legacy extension, in order, is paired with `.webp` |
| ReferenceMigrator.MigrationPairsSafe | migrate_codebase.py:5 | `.webp` cannot help form any of the six legacy tokens |
| ReferenceMigrator.MigratedClean | migrate_codebase.py:37-44 | after the pass no legacy token remains; the text changes exactly when one occurred; a second pass changes nothing |
| ReferenceMigrator.MigrateText | migrate_codebase.py:36-42 | the replacement loop computes the chain of six replacements |
| ReferenceMigrator.MigrateAll | migrate_codebase.py:25-48 | at most one count per visited file, and every written path is that of an eligible file holding a legacy token |
| ReferenceMigrator.MigrateAllWrites | migrate_codebase.py:25-48 | no more files are written than counted; each written path holds the migrated text of an eligible file that had a legacy token, and every such file is written |
| ReferenceMigrator.VisitFile | migrate_codebase.py:29-48 | one file of the text pass: written and counted exactly when eligible and changed |
| ReferenceMigrator.UpdateReferences | migrate_codebase.py:25-48 | the text pass over the walk computes `MigrateAll` |
| ReferenceMigrator.DeletedExactly | migrate_codebase.py:61-77 | a visited file is deleted exactly when it has a legacy suffix and a `.webp` sibling exists; all others are kept |
| ReferenceMigrator.Deleted | migrate_codebase.py:61-72 | no more files are deleted than visited |
| ReferenceMigrator.Cleanup | migrate_codebase.py:57-77 | the cleanup loop deletes that list; `deleted_count` is its length and `saved_space` the sum of its sizes |
| LazyLoading.MatchAt | apply_lazy_loading.py:18 | a match of `<img\s+([^>]+)>` ends with `>`; its capture is non-empty, holds no `>`, and starts with no whitespace unless it is one character long |
| LazyLoading.MatchAtSpan | apply_lazy_loading.py:18 | a match opens with `<img` in any case, then whitespace from index 4 up to the capture, which runs to the closing `>`; no `>` occurs before that one |
| LazyLoading.RewriteMatch | apply_lazy_loading.py:50 | a rebuilt tag is matched again in full, and its capture mentions `loading=` |
| LazyLoading.PatchShape | apply_lazy_loading.py:54 | the page is copied unchanged up to the first tag that opens with `<` and closes with `>` |
| LazyLoading.PatchChangesIff | apply_lazy_loading.py:48-59 | the page changes exactly when some tag was rebuilt and counted |
| LazyLoading.PatchIdempotent | apply_lazy_loading.py:39-54 | patching the output again rebuilds no tag and changes nothing |
| LazyLoading.Tags | apply_lazy_loading.py:48-54 | no more tags are rebuilt than the pattern finds |
| LazyLoading.PatchKeepsTags | apply_lazy_loading.py:48-54 | the patched page holds exactly as many tags as the original |
| LazyLoading.PatchAll | apply_lazy_loading.py:22-59 | modified files never outnumber patched images, and only eligible pages with a patched tag are written |
| LazyLoading.PatchAllWrites | apply_lazy_loading.py:22-59 | no more pages are written than counted as modified; each written path holds the patched text of an eligible page that had a tag rebuilt, and every such page is written |
| LazyLoading.VisitFile | apply_lazy_loading.py:26-59 | one page of the walk: patched, with its images counted, and written only if changed |
| LazyLoading.ApplyLazyLoading | apply_lazy_loading.py:22-59 | the walk computes `PatchAll` |
| AssetMinifier.UnclosedKept | minify_assets.py:6 | text with no `*/` is kept, so an unterminated `/*` stays |
| AssetMinifier.CommentRemoved | minify_assets.py:6 | the first `/*` is removed together with the nearest `*/` after it, and the text before is kept |
| AssetMinifier.CloseFromFirst | minify_assets.py:19 | a comment ends at the first `*/` after its opening (shortest match) |
| AssetMinifier.StripComments | minify_assets.py:6 | removing comments never lengthens the text |
| AssetMinifier.CollapseSpaceSingle | minify_assets.py:8 | after collapsing, no two whitespace characters are adjacent and each whitespace is a plain space |
| AssetMinifier.CollapseSpaceNonSpace | minify_assets.py:8 | collapsing keeps every non-whitespace character in order |
| AssetMinifier.PunctTrimTight | minify_assets.py:9 | after the punctuation trim no whitespace touches `{`, `}`, `;`, `:` or `,` |
| AssetMinifier.PunctTrimSingle | minify_assets.py:9 | the punctuation trim keeps single spacing |
| AssetMinifier.PunctTrimNonSpace | minify_assets.py:9 | the punctuation trim keeps every non-whitespace character in order |
| AssetMinifier.SemiCompact | minify_assets.py:10 | replacing `;}` keeps single spacing and tight punctuation |
| AssetMinifier.SemicolonOnePass | minify_assets.py:10 | one left-to-right pass turns `;;}` into `;}` |
| AssetMinifier.StripCompact | minify_assets.py:11 | the final strip keeps single spacing and tight punctuation |
| AssetMinifier.Squeezed | minify_assets.py:6-10 | the stylesheet before the strip is no longer than the input, single-spaced and tight |
| AssetMinifier.MinifyCssShape | minify_assets.py:4-11 | minified CSS is no longer than its input, has no adjacent whitespace, no whitespace beside punctuation, and none at either end |
| AssetMinifier.MinifyJsText | minify_assets.py:13-32 | the line loop computes `MinifyJs` |
| AssetMinifier.KeptLinesClean | minify_assets.py:23-28 | every kept line is non-empty, does not start with `//`, has no whitespace at either end, and is a stripped input line |
| AssetMinifier.SurvivorsConcat | minify_assets.py:23-28 | the line filter keeps lines in their original order |
| AssetMinifier.MinifyJsLines | minify_assets.py:21-32 | when some line is kept, the output's lines are exactly the kept lines; there are never more of them than input lines |
| AssetMinifier.MinifyJsShorter | minify_assets.py:13-32 | minified JavaScript is never longer than its input |
| AssetMinifier.Minify | minify_assets.py:39 | either minifier never lengthens the content |
| AssetMinifier.MinifiedPathChanges | minify_assets.py:41 | the output path differs from the input exactly when the path contains `.ext` |
| AssetMinifier.MinifiedPathSuffix | minify_assets.py:41 | a path whose only `.ext` is its ending gets `.min.ext` there |
| AssetMinifier.ProcessFile | minify_assets.py:34-47 | the written text is no longer than the input, and the source is overwritten exactly when its path has no `.ext` |
| HtmlLinkUpdater.LinkPairsSafe | update_html_links.py:5-9 | no minified path can help form an original path |
| HtmlLinkUpdater.UpdatedClean | update_html_links.py:29-32 | after the pass no original path remains; the text changes exactly when one occurred; a second pass changes nothing |
| HtmlLinkUpdater.UpdateText | update_html_links.py:26-32 | the loop computes the ordered chain, and `modified` is set exactly when the text changed |
| HtmlLinkUpdater.UpdateAll | update_html_links.py:15-37 | at most one count per visited page, and every written path is that of an eligible page holding an original path |
| HtmlLinkUpdater.UpdateAllWrites | update_html_links.py:15-37 | no more pages are written than counted; each written path holds the updated text of an eligible page that had an original path, and every such page is written |
| HtmlLinkUpdater.VisitFile | update_html_links.py:19-37 | one page of the walk: written and counted exactly when eligible and modified |
| HtmlLinkUpdater.UpdateHtmlLinks | update_html_links.py:15-37 | the walk computes `UpdateAll` |

## Left out

- The overlay UI of the profile is not modelled: `injectUI`, `open`/`close`, `showToast` and the tilt handler are browser effects.
- `init`, `load` and `save`'s `localStorage`/JSON persistence are foreign storage. `save`'s call to `updateRank` is kept as `UpdateRank` at the end of `ReportGame`.
- ArcadeProfile.Reported: scores are integers, so `Math.floor(score)` is the identity. A fractional score is not modelled.
- ArcadeProfile.Profile.GetHitRate: the `"%"` string is the value `Percent(n)`, and the `0` return is `Zero`. No string formatting is modelled.
- ArcadeProfile.Profile.ReportGame: a score that is not a number, and JavaScript's floating-point arithmetic, are not modelled.
- `os.walk`, file reads and writes, `os.remove`, `stat` and `exists` are not modelled as I/O:
  - the walk is a given sequence of visited files;
  - the existing files are a set of paths;
  - sizes are given per file;
  - writes are the returned map.
- Exceptions raised while reading or writing, and the `try`/`except` logging, are not modelled.
- Every `print`, including the KB/MB floating-point summaries, is output only.
- WebpLinkFixer.FixBrokenLinks: `list(set(...))` has no defined order, so the matches are any duplicate-free enumeration of the found references. The text's final form can depend on that order.
- Paths.JoinPath: a `..` segment is kept as a plain segment. The operating system would resolve it, so a target reached through `..` is only looked up literally.
- Strings.IsSpace: whitespace is the ASCII part of what Python's `\s` and `strip()` accept on `str`: tab, line feed, vertical tab, form feed, carriage return, the separators `\x1c` to `\x1f`, and space. The non-ASCII whitespace they also accept (`\x85`, `\xa0` and the Unicode spaces) is not modelled.
- Strings.Lower: case mapping covers ASCII letters only. The Unicode case rules of `lower()`, `toUpperCase()` and `re.IGNORECASE` are not modelled.
- Step 1 of `update_references_and_cleanup` is not modelled: it collects the existing `.webp` files into a set whose only later use is the count printed at migrate_codebase.py:19.
- `optimize_images.py` is not modelled: it is a wrapper over an image library's encoder.
- The hard-coded file paths in the `__main__` blocks of the scripts are not modelled.
- LazyLoading.Patch: that text outside matched tags is copied unchanged holds by its definition. No lemma states it beyond `PatchShape`, which covers the text up to the first tag.
- HtmlLinkUpdater.UpdatedClean: that text outside original-path occurrences is unchanged holds by the definition of `ReplaceAll`. No lemma states it.
- WebpLinkFixer.FindRefs: its contract states soundness: each result is a reference found in the file. Completeness is not stated as a lemma; the function is a direct scanner for the pattern.
- WebpLinkFixer.FixFile: running the pass twice is not a no-op. Reverting one reference can shift which quotes pair up, so a second pass may find and revert references the first one never saw; `SecondPassReverts` gives such a text. No lemma states when a second pass is idle.
- ArcadeProfile.ScanFavorite: `for…in` over `playCounts` is modelled as the insertion order kept in the record's `gameOrder`. JavaScript visits integer-like keys first, in ascending order; the game ids are words, so no such key arises from the site's games.
- A path splits only on `/`, and `exists` compares segments exactly. The scripts were run with Windows roots, where `pathlib` also splits on `\` and file lookups ignore case; neither is modelled.
