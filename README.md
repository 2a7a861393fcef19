# SublimeANSI offset pipeline, modelled and proved in Dafny

SublimeANSI shows build output that contains ANSI SGR escape sequences (`ESC [ params m`,
section 8.3.117 of ECMA-48) as coloured text. The plugin deletes the sequences from the
text. It then marks each coloured stretch as a region of a scope, such as
`ansi_red_bg_black`, with positions in the text that is left. This project models the
pipeline in `ansi.py` that does this:

- unsupported sequences (`ESC[2m`, `ESC[4m`, `ESC[5m`, `ESC[7m`, `ESC[8m`, each also written
  `ESC[0;Nm`) are rewritten to `ESC[1m`;
- one *definition* is built per (background, foreground) pair. Its scope is
  `fg.scope + bg.scope` and its matcher is "the two codes in either order, then
  characters up to the next ESC". The settings are first narrowed to the codes that occur
  in the text;
- the one-shot path (`AnsiCommand._colorize_ansi_codes`) works like this:
  - it finds every definition's matches, erases every single SGR sequence from the last
    to the first, and builds the correction table (`points`, `offsets`);
  - it corrects every region endpoint with `bisect`;
  - it adds the corrected regions after the regions the view already holds;
- the streaming path (`AnsiColorBuildCommand.on_data_process`) works like this:
  - it keeps one `AnsiRegion` per definition with matches;
  - it cuts every run of sequences from the regions, last run first, with `cut_area`, and
    deletes the runs with `re.sub`;
  - it shifts the regions by the size of the output view and serialises them, a later
    region of a scope replacing an earlier one;
  - `_colorize_regions` then adds them to the view.

Python's `re` is modelled by a deterministic matcher. `MatchLen(p, s, i)` is the length
of the match of pattern `p` anchored at `i`, with 0 meaning no match. `FindAll` is
`re.finditer`: it scans left to right for the leftmost non-overlapping matches. `Sub` is
`re.sub`. The view is a class holding its text and its regions per scope.

The main theorems are these:

- the two paths delete the same characters: `Clean` erases single sequences, and `re.sub`
  over runs gives the same text;
- for definitions whose codes are SGR sequences, each corrected region covers exactly the
  characters after the definition's two codes, up to the next escape sequence;
- a definition's matcher accepts exactly its two codes, in either order, followed by the
  characters up to the next ESC, so every occurrence of a pair that no earlier match
  overlaps is coloured;
- streaming regions are the one-shot regions of the chunk, shifted by the view size;
- output that arrives in several chunks, split where no sequence, run of sequences or pair
  of codes is cut, gives the view the same text and regions as the one-shot path gives for
  the whole output, when no two definitions share a scope;
- output without ESC comes back unchanged and gets no regions.

The one-shot correction (ansi.py:225-226) does not clamp a position that falls inside an
erased sequence: it keeps its distance past the sequence's start
(`Correction.CorrectionInsideCode`). `cut_area` (ansi.py:118-139) does clamp such a
position to the start of the cut (`Regions.AnsiRegion.SubtractRegion`). With SGR sequences
as codes no region endpoint falls inside a sequence, so the two paths still agree.

Modules follow the pipeline:
- `Scanner` holds the patterns, the matcher, `finditer` and `re.sub`;
- `Splicing` deletes or replaces spans and tracks positions through the deletion;
- `Normalization` rewrites unsupported sequences;
- `Stripping` deletes escape sequences;
- `Regions` holds `AnsiRegion`;
- `Correction` holds the correction table and `bisect`;
- `Definitions` holds `ansi_definitions` and its content filter;
- `Alignment` says where a definition's span lands after deletion;
- `Colorize` holds the view and the one-shot path;
- `Streaming` holds the streaming path;
- `Chunks` holds `on_data` over a sequence of chunks and its agreement with the one-shot
  path over the whole output.

## Model

| member | source | states |
|---|---|---|
| Scanner.TokenLenSpec | ansi.py:209 | a match of `\x1b\[[0-9;]*m` is an `ESC [ digits-and-semicolons m` token of length at least 3 with no ESC after its first character, and it is the only such token starting there |
| Scanner.BracketLenSpec | ansi.py:93 | `\[[0-9;]*m` matches exactly a `[`, a maximal run of digits and semicolons, and an `m` |
| Scanner.UnsupportedLenSpec | ansi.py:193 | `\x1b\[(0;)?[24578]m` matches exactly the unsupported sequences, with or without the `0;` prefix |
| Scanner.RunEnd | ansi.py:393 | the run `(\x1b\[[0-9;]*m)+` from a position is non-empty exactly when a single sequence starts there |
| Scanner.PairLenSpec | ansi.py:103 | a definition's match opens with fg+bg or bg+fg, then holds only non-ESC characters, and ends at the next ESC or the end of the text; conversely, wherever fg+bg or bg+fg occurs, the matcher accepts it and runs on to the next ESC or the end |
| Scanner.MatchLen | ansi.py:393 | the length of the anchored match of each of the core's patterns never runs past the end of the text |
| Scanner.Sub | ansi.py:401 | `re.sub` with a constant replacement; its step, its agreement with `finditer` and its no-match case are stated by `SubStep`, `Splicing.SubIsSplice` and `Splicing.SubNoMatch` |
| Scanner.PairCodes | ansi.py:103 | a definition's match starts with its two codes, in one of the two orders |
| Scanner.FindAll | ansi.py:72 | `finditer` reports spans that are non-empty, increasing, disjoint and inside the text |
| Scanner.FindAllSound | ansi.py:72 | every reported span is a match of the pattern at its start |
| Scanner.FindAllComplete | ansi.py:72 | a match that no earlier match can overlap is reported |
| Scanner.FindAllStep | ansi.py:72 | the scan is the match at the current position, if any, followed by the scan from where that match ends |
| Scanner.SubStep | ansi.py:380 | `re.sub` emits the replacement for a match, otherwise the character, and then goes on after it |
| Splicing.SubIsSplice | ansi.py:193-195 | `re.sub` equals replacing the spans `finditer` reports, so the two paths rewrite the text the same way |
| Splicing.ReplaceReversed | ansi.py:194-195 | replacing the found spans one by one from the last to the first builds the splice of all of them |
| Splicing.SpliceLength | ansi.py:210-211 | the new length is the old length, minus the total span length, plus the replacement length for each span |
| Splicing.RemovedMono | ansi.py:133-139 | the number of deleted positions before `p` grows with `p`, by at most the step |
| Splicing.SpliceWindow | ansi.py:210-211 | a stretch of text with nothing deleted inside it reappears unchanged at its position less the deleted count |
| Splicing.RemovedSplit | ansi.py:218-220 | at a position between two deleted spans, the deleted count is the total length of the spans before it |
| Splicing.SubNoMatch | ansi.py:380 | `re.sub` leaves a text without matches unchanged |
| Normalization.NormalizeReplacesMatches | ansi.py:379-380 | normalisation replaces each unsupported sequence by `ESC[1m` and keeps everything else; each replaced span is an unsupported sequence |
| Normalization.BoldIsSupported | ansi.py:195 | `ESC[1m` is not an unsupported sequence |
| Normalization.NormalizeShorter | ansi.py:380 | normalisation never lengthens the text |
| Normalization.NormalizePlain | ansi.py:380 | text up to the next ESC passes through normalisation unchanged |
| Normalization.NormalizeLeavesNone | ansi.py:379-380 | after normalisation no unsupported sequence is left |
| Normalization.NormalizeIdempotent | ansi.py:379-380 | normalising twice is normalising once |
| Normalization.Normalize | ansi.py:379-380 | `re.sub(r'\x1b\[(0;)?[24578]m', '\x1b[1m', data)`; `NormalizeReplacesMatches`, `NormalizeLeavesNone` and `NormalizeIdempotent` state what it does |
| Stripping.CleanLength | ansi.py:209-211 | erasing the single sequences shortens the text by exactly their total length |
| Stripping.CleanIsSub | ansi.py:209-211 | erasing the found sequences in reverse is `re.sub` of the single-sequence pattern with the empty string |
| Stripping.CleanPlain | ansi.py:209-211 | a text without ESC is unchanged |
| Stripping.CleanKeeps | ansi.py:209-211 | two kept characters keep their relative order and their values, at their positions less the deleted count |
| Stripping.RunsThenSingles | ansi.py:401 | deleting runs of sequences deletes the same characters as deleting single sequences |
| Stripping.StreamStripIsClean | ansi.py:401 | the streaming `re.sub` over runs yields the one-shot path's cleaned text |
| Stripping.RunsRemoveSame | ansi.py:393-400 | at every position the runs and the single sequences delete the same number of earlier characters |
| Stripping.EscReached | ansi.py:209 | the scan for single sequences stops at every ESC |
| Stripping.EndReached | ansi.py:209 | the scan stops at the end of the text |
| Stripping.ScanSplit | ansi.py:209 | where the scan stops, the sequences found so far end before the position and the rest are the scan from there |
| Stripping.ScanPlain | ansi.py:209 | the scan skips a stretch without ESC |
| Stripping.Clean | ansi.py:209-211 | the one-shot erasure of every single sequence; `CleanIsSub`, `CleanLength` and `CleanKeeps` state what it does |
| Regions.AnsiRegion.constructor | ansi.py:110-113 | a new region has its scope and no pairs |
| Regions.AnsiRegion.Add | ansi.py:115-116 | appends the pair |
| Regions.AnsiRegion.CutArea | ansi.py:118-123 | every pair's endpoints go through `subtract_region` for the span between min and max of the arguments |
| Regions.AnsiRegion.Shift | ansi.py:125-127 | every endpoint moves by the value |
| Regions.AnsiRegion.Jsonable | ansi.py:129-130 | the one-entry map from the scope to the pairs |
| Regions.AnsiRegion.SubtractRegion | ansi.py:132-139 | a position loses its overlap with the deleted span: unchanged before it, clamped to its start inside it, moved back by its length after it |
| Regions.SubtractMonotone | ansi.py:133-139 | `subtract_region` is monotone in the position |
| Regions.SubtractTracksDeletion | ansi.py:133-139 | a position outside the deleted span names the same character after the deletion |
| Regions.CutSymmetric | ansi.py:119 | `cut_area(a, b)` and `cut_area(b, a)` agree |
| Regions.CutKeepsOrder | ansi.py:118-123 | cutting keeps the number of pairs and keeps `a <= b` in every pair that had it |
| Regions.ShiftCompose | ansi.py:125-127 | shifting by x and then by y is shifting by x + y, and keeps the number of pairs |
| Regions.CutRunsLength | ansi.py:397-400 | the reversed cutting loop keeps the number of pairs |
| Regions.CutRunsPointwise | ansi.py:397-400 | the reversed cutting loop maps each endpoint on its own |
| Regions.CutPointRemoved | ansi.py:396-400 | cutting ordered runs from the last to the first moves a position back by exactly the number of deleted positions before it |
| Regions.CutRuns | ansi.py:397-400 | a region list after `cut_area` for every run, the last run first; `CutRunsLength`, `CutRunsPointwise` and `CutPointRemoved` state what it does |
| Correction.BuildCorrectionTable | ansi.py:214-220 | points and offsets start at 0, have one entry per sequence plus one, points[i+1] is the end of sequence i, and offsets[i] is the total length of the first i sequences |
| Correction.TableShape | ansi.py:214-220 | points strictly increase, offsets never decrease, and the last offset is the total deleted length |
| Correction.Bisect | ansi.py:225-226 | `bisect.bisect` on a sorted list: everything before the index is at most the key, everything from it on exceeds it |
| Correction.EndsBeforeSpec | ansi.py:225-226 | exactly the first `EndsBefore` sequences end at or before the position |
| Correction.TableLookup | ansi.py:225-226 | `p - offsets[bisect(points, p) - 1]` is `p` minus the lengths of the sequences that end at or before `p` |
| Correction.CorrectionAtSplit | ansi.py:225-226 | a position between sequences, such as a sequence's start, loses exactly the lengths of the earlier sequences, which is the deleted count before it |
| Correction.CorrectionBeforeFirst | ansi.py:225-226 | a position before the end of the first sequence, 0 included, is unchanged |
| Correction.Corrected | ansi.py:225-226 | a position less the lengths of the sequences ending at or before it; `TableLookup` ties it to the table lookup |
| Correction.CorrectionInsideCode | ansi.py:225-226 | a position strictly inside an erased sequence is not clamped to the sequence's start: it keeps its distance past that start, losing only the earlier sequences' lengths |
| Definitions.CrossLength | ansi.py:101-102 | there are len(bgs) × len(fgs) definitions |
| Definitions.CrossShape | ansi.py:101-105 | definition i·len(fgs)+j pairs fgs[j] with bgs[i] and has scope `fgs[j].scope + bgs[i].scope` |
| Definitions.KeepSpec | ansi.py:98-99 | the filter keeps an order-preserving sublist: exactly the settings whose code occurs in the colour string, each as many times as it occurs in the settings |
| Definitions.KeepCount | ansi.py:98-99 | every setting whose code occurs in the colour string is kept as many times as it occurs in the settings, and no other setting is kept |
| Definitions.Distinct | ansi.py:91-93 | the de-duplicated list holds exactly the brackets found, each once |
| Definitions.TokenInColorStr | ansi.py:89-95 | every SGR sequence in the text occurs in the colour string |
| Definitions.MatchedCodesKept | ansi.py:89-99 | a definition with a match keeps both its codes through the filter |
| Definitions.FoundAppend | ansi.py:202-206 | collecting over two lists of definitions is collecting over the first, then the second |
| Definitions.FoundNone | ansi.py:204 | definitions without matches change nothing |
| Definitions.FilterKeepsRegions | ansi.py:89-105 | with SGR sequences as codes, filtering the settings never changes the collected regions |
| Definitions.CrossTokens | ansi.py:101-105 | with SGR sequences as codes, every definition matches a pair of SGR sequences |
| Definitions.FoundOrigin | ansi.py:202-206 | every collected scope holds the matches of one definition of that scope |
| Definitions.AnsiDefinitions | ansi.py:80-105 | `ansi_definitions`: without content the full cross product, with content the cross product of the settings kept by the filter; `CrossShape`, `KeepSpec` and `FilterKeepsRegions` state what it gives |
| Definitions.ColorStr | ansi.py:89-95 | the colour string: ESC, the distinct brackets joined by ESC, ESC; `TokenInColorStr` states that every SGR sequence of the content occurs in it |
| Definitions.Keep | ansi.py:98-99 | the settings whose code occurs in the colour string; `KeepSpec` states it |
| Definitions.Found | ansi.py:198-206 | the scope-to-matches map the loop over the definitions builds; `FoundAppend`, `FoundNone`, `FoundHas`, `FoundLast` and `FoundOrigin` state it |
| Definitions.FoundHas | ansi.py:203-205 | a definition with matches has its scope collected |
| Definitions.FoundLast | ansi.py:201-205 | a definition with matches that no later definition of its scope overrides decides the scope: the scope holds exactly its matches |
| Definitions.FoundAbsent | ansi.py:203-205 | a scope none of whose definitions has matches is not collected |
| Definitions.FoundDistinct | ansi.py:201-205 | with distinct scopes, a definition's scope is collected exactly when the definition has matches, and then holds them |
| Definitions.PairFound | ansi.py:72 | wherever the two codes occur together, in either order, and no earlier match reaches past that point, `finditer` reports the match that starts there and runs to the next ESC |
| Definitions.CrossFound | ansi.py:101-105 | the definition of background `bi` and foreground `fj` with matches puts the scope `fg.scope + bg.scope` in the collection, holding those matches when scopes are distinct |
| Definitions.FoundRegion | ansi.py:101-105 | with distinct scopes and SGR sequences as codes, an occurrence of a pair of codes that no earlier match overlaps is among the matches collected for the pair's scope |
| Alignment.PairSpanLayout | ansi.py:103 | a definition's span opens with two whole sequences of the deletion scan, and the scan's next sequence starts at or after the span's end |
| Alignment.CorrectedSpanText | ansi.py:209-226 | in the cleaned text, the corrected span covers exactly the characters after the two codes, and its start is where the codes were |
| Alignment.PairSpanPlain | ansi.py:103 | after its codes a span holds no ESC and ends at an ESC or the end of the text |
| Alignment.StreamingAgrees | ansi.py:397-400 | the streaming cuts and the one-shot correction move both endpoints of a span to the same place |
| Colorize.MergeNothing | ansi.py:186-187 | adding no regions leaves the view's regions unchanged |
| Colorize.MergeIntoEmpty | ansi.py:186-187 | adding regions to a view without regions gives exactly those regions |
| Colorize.MergeTwice | ansi.py:186-187 | adding two batches one after the other equals adding their per-scope concatenation at once |
| Colorize.Merge | ansi.py:186 | `view.get_regions(scope) + regions` for every scope; `GetMerge`, `MergeNothing`, `MergeIntoEmpty` and `MergeTwice` state it |
| Colorize.GetMerge | ansi.py:186 | after the merge a scope holds its old regions followed by the new ones |
| Colorize.CorrectRegions | ansi.py:224-226 | the in-place loop maps each endpoint to its corrected position |
| Colorize.CollectRegions | ansi.py:198-206 | the loop over the definitions builds the scope-to-matches map, a later definition of a scope replacing an earlier one |
| Colorize.TokenOrigin | ansi.py:202-206 | with SGR sequences as codes, every collected scope holds the matches of one pair of SGR sequences |
| Colorize.BatchRegionText | ansi.py:189-229 | each region added by the one-shot path covers, in the cleaned text, exactly the characters after its definition's two codes |
| Colorize.BatchScopeFound | ansi.py:197-205 | with SGR sequences as codes, wherever a pair of codes occurs in the normalised text and no earlier match of its definition overlaps it, the one-shot path adds regions for the pair's scope |
| Colorize.BatchRegionFound | ansi.py:197-226 | with distinct scopes as well, the match starting there is among the scope's collected matches, and the scope's regions hold it with both endpoints corrected |
| Colorize.View.GetRegions | ansi.py:186 | `get_regions` returns the scope's regions, or none |
| Colorize.View.AddRegions | ansi.py:187 | `add_regions` replaces the scope's regions and changes nothing else |
| Colorize.View.ColorizeRegions | ansi.py:180-187 | every scope ends up with its old regions followed by the incoming ones; other scopes and the text are unchanged |
| Colorize.View.ColorizeAnsiCodes | ansi.py:189-229 | the text becomes the normalised text without escape sequences, and every collected scope gets its corrected regions appended |
| Colorize.View.AddCorrected | ansi.py:223-229 | the per-scope loop appends each scope's corrected regions |
| Streaming.JsonIsMoved | ansi.py:383-408 | serialising the regions with a later scope winning gives the one-shot collection with each scope's pairs cut and shifted |
| Streaming.NewRegions | ansi.py:383-390 | one fresh, distinct `AnsiRegion` per definition with matches, in order, holding its scope and its match spans |
| Streaming.RegionOf | ansi.py:387-389 | a fresh `AnsiRegion` of the scope holding the spans in order |
| Streaming.Matched | ansi.py:384-390 | the definitions with matches, in order, each with its scope and its spans; `NewRegions` builds one region object per entry |
| Streaming.Json | ansi.py:404-408 | the serialised map, a later region of a scope replacing an earlier one; `JsonIsMoved` ties it to the collection |
| Streaming.StreamRegions | ansi.py:383-408 | the map `on_data_process` sends for one chunk; `StreamingMatchesBatch` ties it to the one-shot path |
| Streaming.AddAll | ansi.py:388-389 | adding the matches one by one appends them all |
| Streaming.CutAll | ansi.py:393-400 | every region is cut by every run, the last run first |
| Streaming.CutEach | ansi.py:399-400 | one run is cut from every region |
| Streaming.ShiftAll | ansi.py:404-408 | every region object ends up holding its pairs cut and shifted by the view size, and the serialised map merges them in order, a later region of a scope replacing an earlier one |
| Streaming.OnDataProcess | ansi.py:364-408 | the text sent on is the normalised chunk without escape sequences, and the map holds each scope's matches cut and shifted |
| Streaming.StreamingMatchesBatch | ansi.py:397-407 | with SGR sequences as codes, the streaming regions equal the one-shot regions of the chunk shifted by the view size |
| Streaming.PairCutsAgree | ansi.py:397-400 | for one definition's matches, the cuts and the correction table give the same pairs |
| Streaming.PlainNoPair | ansi.py:103 | in text without ESC no definition whose codes are SGR sequences matches |
| Streaming.PlainRoundTrip | ansi.py:189-229 | with SGR sequences as codes, output without ESC comes back unchanged from normalisation and erasure and gets no regions, on the one-shot and the streaming path |
| Chunks.BatchConcat | ansi.py:189-229 | with distinct scopes, over two pieces split before an ESC with no SGR sequence ending the first, the one-shot regions are those of the first piece merged with those of the second moved by the first's cleaned length |
| Chunks.TwoChunks | ansi.py:364-408 | two chunks split at a boundary, each moved by the view's size when it arrives, give the one-shot regions of the two together |
| Chunks.ChunksText | ansi.py:401-414 | chunks split at boundaries send the view the cleaned text of the whole output |
| Chunks.ChunksMatchBatch | ansi.py:364-423 | chunks split at boundaries give the view, after its old regions, the one-shot regions of the whole output moved by the view's starting size |
| Colorize.View.Append | ansi.py:414 | the base `on_data`: the cleaned chunk is appended to the end of the view's text and the stored regions stay as they were |
| Chunks.OnChunks | ansi.py:419-423 | `on_data` for every chunk in turn: the view's text grows by each cleaned chunk, and its regions are the stream's regions |

## Left out

- The Sublime API is not modelled: `view.substr`, `replace`, `erase`, `add_regions` and
  `get_regions` act on the `text` and `regions` fields of the `View` class in this model.
  Settings, syntax, scratch and read-only flags, and the draw flags are left out.
- `AnsiCommand.run` and its flag handling are left out, and so are `_remove_ansi_regions`,
  `UndoAnsiCommand`, `AnsiEventListener`, `plugin_loaded` and `plugin_unloaded`. They
  only move settings and call the view.
- `data_lock`, `on_finished` and the trigger selection are left out: they are
  process-output plumbing. `on_data` is modelled by `Chunks.OnChunks`, which hands the
  chunks to `OnDataProcess` in turn.
- Colorize.View.Append: the base `on_data` is taken to append the chunk verbatim. The
  stock build command's line-ending rewrite (`\r\n` and `\r` become `\n`) happens inside
  that base class, which is not part of this model. In the same way, `ColorizeAnsiCodes`
  keeps the stored regions where they were across `replace` and `erase`, while the editor
  would move them with the text. This does no harm here: the call at ansi.py:286 runs on a
  freshly opened view, and the calls at ansi.py:308, 320 and 432 pass `clear_before`, so no
  regions are stored when the text changes.
- The size of the output view is a parameter of `OnDataProcess`; in `Chunks.OnChunks` it is
  the length of the view's text.
- Chunks.ChunksMatchBatch, Chunks.ChunksText: they are stated only for chunks split where
  the next part of the output is empty or opens with ESC and no SGR sequence ends the
  chunk (`SplitAtSequences`). Otherwise a chunk boundary can cut a sequence, a run of
  sequences, or the characters after a pair of codes, and the two paths differ.
  ChunksMatchBatch also needs distinct scopes (`Streamable`). When two definitions share a
  scope, the one-shot path keeps only the last one's matches over the whole output,
  whereas the stream appends each chunk's winner.
- `get_regex_obj` and its cache are left out. The codes in the settings are matched as
  literal strings, not as regular expressions, and `search` on the colour string is a
  substring test.
- The colour string is built from a Python `set`, whose order is not fixed. The model
  lists the brackets in order of first occurrence. For codes that are SGR sequences,
  filtering never changes the collected regions compared with no filtering at all
  (`Definitions.FilterKeepsRegions`). That proof rests only on such a code occurring in the
  colour string when it occurs in the text, and this holds in every order. A literal code
  that spans two brackets, such as `m ESC [2`, can be found in one order and not in
  another, so for such codes the model's result is that of one order among several.
- A definition whose two codes are both empty matches the empty string in Python. The model
  counts a zero-length match as no match.
- The version-dependent `decode` and `encode` of chunks are left out, because the model
  works on characters.
- `generate_color_scheme`, `debug` and the two test scripts are left out: they do file
  output, printing and sleeping.
- Colorize.CorrectRegions: it requires non-negative endpoints. For a negative position
  Python would index `offsets[-1]`, but every region comes from a match in the text.
- Colorize.BatchRegionText, Streaming.StreamingMatchesBatch, Definitions.FilterKeepsRegions:
  these are stated only for settings whose codes are SGR sequences, because they rest on
  the codes being whole deletable sequences.
