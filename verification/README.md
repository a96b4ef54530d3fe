# lazer-mp-viewer: display helpers of the matches viewer, in Dafny

The matches viewer is a browser page. It shows the playlists and scores of an
osu! multiplayer room, fetched from the osu! API through a CORS proxy. Most of
it is React rendering and data fetching. This project models its pure helpers
and proves what they promise:

- `formatNumber`: a score's decimal text with thousands separators. Modules
  `Decimal` and `NumberFormat`. The global regular-expression replacement is
  modelled position by position (`NumberFormat.SeparatorReplace`). It is
  proved equal, on digit strings, to a reference grouping: cut into threes
  from the right, join with commas (`NumberFormat.Grouped`). The properties of
  the formatted text are proved from that reference.
- `resolverTypes`: display labels for ruleset, team type, win condition and
  mod type codes. Module `Labels`. It is checked against a reference table
  that lists each kind's labels and its default.
- The podium colour of a leaderboard row. Module `Leaderboard`.
- The two resource URLs, which are also the fetch library's cache keys.
  Module `ResourceKeys`. The score-list key extends the room key, and each
  key determines its room and playlist ids.

All files are plain Dafny modules given to the verifier together:
`Decimal.dfy`, `NumberFormat.dfy`, `Labels.dfy`, `Leaderboard.dfy`,
`ResourceKeys.dfy`.

## Model

| member | source | states |
|---|---|---|
| Decimal.DecimalDigits | src/Components/MatchesViewer/MatchesViewer.tsx:21 | `toString()` of a natural is a non-empty digit string, with no leading zero unless the number is 0, and it reads back as the number |
| Decimal.DecimalLength | src/Components/MatchesViewer/MatchesViewer.tsx:21 | the decimal text has at most k digits exactly when the number is below 10^k |
| NumberFormat.LeadingDigits | src/Components/MatchesViewer/MatchesViewer.tsx:21 | the digit run seen by `\d` / `(?!\d)`: it is all digits, it is maximal, and it fits in the string |
| NumberFormat.LeadingDigitsOfPrefix | src/Components/MatchesViewer/MatchesViewer.tsx:21 | a digit string followed by a non-digit has a run exactly as long as the digit string |
| NumberFormat.SeparatorMatch | src/Components/MatchesViewer/MatchesViewer.tsx:21 | the pattern `(\d)(?=(\d{3})+(?!\d))` matches at the head of a text exactly when it starts with a digit and the lookahead, read literally, succeeds on the rest |
| NumberFormat.SeparatorReplace | src/Components/MatchesViewer/MatchesViewer.tsx:21 | the global `'$1,'` replacement keeps every character of the input, commas included, in order, and inserts nothing but commas |
| NumberFormat.LookaheadIsRunLength | src/Components/MatchesViewer/MatchesViewer.tsx:21 | the lookahead `(?=(\d{3})+(?!\d))` succeeds exactly when the following digit run has a positive length divisible by 3 |
| NumberFormat.LeadingDigitsBeforeNonDigit | src/Components/MatchesViewer/MatchesViewer.tsx:21 | a non-digit ends the digit run, so whatever follows it does not change the run |
| NumberFormat.ReplaceAtNonDigit | src/Components/MatchesViewer/MatchesViewer.tsx:21 | a non-digit cuts the text: the part before it is grouped as if it stood alone |
| NumberFormat.MatchOnDigits | src/Components/MatchesViewer/MatchesViewer.tsx:21 | inside a digit string, the pattern matches at a digit exactly when a positive multiple of 3 digits follows it |
| NumberFormat.ReplaceOnlyInsertsCommas | src/Components/MatchesViewer/MatchesViewer.tsx:21 | on any text, deleting every comma from the result of the replacement gives the input with its commas deleted |
| NumberFormat.CommasInsertedRemove | src/Components/MatchesViewer/MatchesViewer.tsx:21 | a text obtained by inserting commas equals the original once every comma is deleted from both |
| NumberFormat.ReplaceEnds | src/Components/MatchesViewer/MatchesViewer.tsx:21 | the replacement keeps the first and the last character |
| NumberFormat.ReplaceStepOnDigits | src/Components/MatchesViewer/MatchesViewer.tsx:21 | on a digit string, the first digit is followed by a comma exactly when the length minus one is a positive multiple of 3 |
| NumberFormat.ReplaceShort | src/Components/MatchesViewer/MatchesViewer.tsx:21 | a text of at most three digits is left unchanged |
| NumberFormat.ReplaceSplit | src/Components/MatchesViewer/MatchesViewer.tsx:21 | before a digit tail whose length is a positive multiple of 3, exactly one comma is inserted, and both sides are treated as they would be alone |
| NumberFormat.ReplaceIsGrouping | src/Components/MatchesViewer/MatchesViewer.tsx:21 | on any digit string, the global replacement equals the reference grouping into threes from the right |
| NumberFormat.FormatNumber | src/Components/MatchesViewer/MatchesViewer.tsx:20-22 | `formatNumber(n)` is the reference grouping of n's decimal digits, and without its commas it is exactly those digits |
| NumberFormat.Chunks | src/Components/MatchesViewer/MatchesViewer.tsx:21 | reference grouping: the groups spell the text; the first has 1 to 3 characters and every later one exactly 3; there are (L-1)/3+1 groups |
| NumberFormat.ChunksOfDigits | src/Components/MatchesViewer/MatchesViewer.tsx:21 | every group of a digit string is a digit string |
| NumberFormat.GroupedKeepsDigits | src/Components/MatchesViewer/MatchesViewer.tsx:21 | the reference grouping loses no digit, holds one comma fewer than groups, and splits on commas back into its groups |
| NumberFormat.FormatNumberDigitsBack | src/Components/MatchesViewer/MatchesViewer.tsx:20-22 | deleting every comma from `formatNumber(n)` gives n's decimal digits, which read back as n |
| NumberFormat.FormatNumberInjective | src/Components/MatchesViewer/MatchesViewer.tsx:20-22 | different naturals are formatted differently |
| NumberFormat.FormatNumberGroups | src/Components/MatchesViewer/MatchesViewer.tsx:20-22 | split on commas, the output gives digit groups: the first has 1 to 3 digits, every later one exactly 3, and together they spell n; the output neither starts nor ends with a comma |
| NumberFormat.FormatNumberCommaCount | src/Components/MatchesViewer/MatchesViewer.tsx:20-22 | a number with L digits gets exactly (L-1)/3 commas, so its output has L + (L-1)/3 characters |
| NumberFormat.FormatNumberSmall | src/Components/MatchesViewer/MatchesViewer.tsx:20-22 | a natural is returned unchanged exactly when it is below 1000; from 1000 on at least one comma is inserted |
| NumberFormat.FormatNumberBelowThousandExamples | src/Components/MatchesViewer/MatchesViewer.tsx:20-22 | 0 and 999 are printed as they are |
| NumberFormat.FormatNumberMillionsExample | src/Components/MatchesViewer/MatchesViewer.tsx:20-22 | 1234567 is printed as 1,234,567 |
| NumberFormat.ReplaceFourAroundNonDigit | src/Components/MatchesViewer/MatchesViewer.tsx:21 | two runs of four digits around a non-digit each get one comma after their first digit |
| NumberFormat.ReplaceGroupsFractionDigits | src/Components/MatchesViewer/MatchesViewer.tsx:21 | on the text 1234.5678 the same replacement also groups the digits after the point, which gives 1,234.5,678 |
| NumberFormat.SplitJoin | src/Components/MatchesViewer/MatchesViewer.tsx:21 | splitting comma-joined, comma-free groups on commas gives the groups back |
| NumberFormat.JoinCommasContents | src/Components/MatchesViewer/MatchesViewer.tsx:21 | joining comma-free groups adds nothing but commas |
| NumberFormat.JoinCommasCount | src/Components/MatchesViewer/MatchesViewer.tsx:21 | joining comma-free groups adds exactly one comma fewer than there are groups |
| Labels.ResolverTypes | src/Components/MatchesViewer/MatchesViewer.tsx:24-74 | the result is `null` (None) exactly when the kind string is none of the four declared kinds |
| Labels.KindNamesAreTagNames | src/Components/MatchesViewer/MatchesViewer.tsx:25 | the four accepted kind strings are exactly the names of the declared kinds |
| Labels.ResolverMatchesTable | src/Components/MatchesViewer/MatchesViewer.tsx:28-70 | every declared kind gives a label: the listed label for a listed code, else that kind's default |
| Labels.GameModeLabels | src/Components/MatchesViewer/MatchesViewer.tsx:29-41 | rulesets 1, 2, 3 are taiko, fruits, mania; every other code, 0 included, is osu |
| Labels.UnlistedCodesGetDefault | src/Components/MatchesViewer/MatchesViewer.tsx:28-70 | an unlisted code gets its kind's default: osu, Tag Team VS, Score V2 or Free Mods |
| Labels.LabelsCollideOnlyOnDefault | src/Components/MatchesViewer/MatchesViewer.tsx:28-70 | within one kind, two codes share a label only when it is the kind's default; outside rulesets, both codes are then unlisted |
| Leaderboard.RankColour | src/Components/MatchesViewer/MatchesViewer.tsx:160 | a row has no colour exactly when its index is 3 or more |
| Leaderboard.RankColourTable | src/Components/MatchesViewer/MatchesViewer.tsx:160 | rows 0, 1, 2 are yellow, grey, orange; every later row gets the empty class |
| Leaderboard.PodiumColoursDistinct | src/Components/MatchesViewer/MatchesViewer.tsx:160 | two rows with the same non-empty colour are the same row |
| ResourceKeys.RoomKey | src/Components/MatchesViewer/MatchesViewer.tsx:85 | the room key is the proxy-and-rooms base followed by a non-empty string of digits that reads back as the room id |
| ResourceKeys.ScoresKey | src/Components/MatchesViewer/MatchesViewer.tsx:95 | the score-list key starts with the room key, followed by `/playlist/`, the playlist id and `/scores` |
| ResourceKeys.PlaylistScoresPathInjective | src/Components/MatchesViewer/MatchesViewer.tsx:95 | the `/playlist/{id}/scores` path determines the playlist id |
| ResourceKeys.DigitsBeforeSlash | src/Components/MatchesViewer/MatchesViewer.tsx:95 | where a digit id is followed by a `/` path segment, equal texts have equal ids and equal rests |
| ResourceKeys.RoomKeyInjective | src/Components/MatchesViewer/MatchesViewer.tsx:85 | different room ids give different room keys |
| ResourceKeys.ScoresKeyInjective | src/Components/MatchesViewer/MatchesViewer.tsx:85-95 | the score-list key determines the (room, playlist) pair |
| ResourceKeys.RoomAndScoresKeysDiffer | src/Components/MatchesViewer/MatchesViewer.tsx:85-95 | a room key is never a score-list key, so the two resources never share a cache entry |

## Left out

- Fetching (`getFetcher`, `useLazerRooms`, `useLazerRoomsPlaylist`, src/Components/MatchesViewer/MatchesViewer.tsx:76-97). This covers HTTP I/O, the bearer header and the caching hook; only the two URL templates are modelled.
- The rendering in `MatchesPlaylistViewer` and `MatchesViewer` (src/Components/MatchesViewer/MatchesViewer.tsx:99-249). This includes the loading and error branches driven by the hook. Only the colour choice of line 160 is modelled, not the class string around it.
- `moment` date formatting (src/Components/MatchesViewer/MatchesViewer.tsx:190, :236). It is a foreign library and depends on wall-clock time.
- src/App.tsx: the debounced inputs, the DOM refs, and the mount condition over `Number(...)`. They rest on timers and JavaScript floating-point parsing.
- src/main.tsx: start-up only.
- NumberFormat.FormatNumber: covers only natural arguments. `toString()` prints a negative `num` with a sign, a fractional one with a point, `NaN` and `Infinity` as words, and naturals from 10^21 on with an exponent. The replacement itself is modelled on any text; `ReplaceGroupsFractionDigits` shows what it does after a decimal point.
- Decimal.DecimalDigits: models `toString()` only for naturals up to 2^53. Above 2^53 a JavaScript number prints the shortest digits that round-trip, padded with zeros, so the printed digits can differ from the exact value (2^60 prints as 1152921504606847000). From 10^21 on it uses an exponent.
- ResourceKeys.RoomKey, ResourceKeys.ScoresKey: take natural ids. The source interpolates any JavaScript number, including negative or fractional ids, which the mount condition in src/App.tsx does not exclude.
- Labels.ResolverTypes: takes an integer code. The source compares a JavaScript number with `===`, so a fractional code also falls through to each kind's default.
