# foci ranking core in Dafny

foci ranks four teams from a list of match results. `main.c` reads the
result lines into a twelve-entry array, finds the four team names, builds a 4×4 rank matrix from the
results, and turns the matrix's dominant eigenvector into percentages. This
project models the discrete middle of that pipeline and proves what it
computes:

- **Team discovery** (`find_teams`). The records are scanned in order, up to
  the first one whose first name is empty or after twelve records. Each name
  not seen yet is copied into the first empty slot of the four team slots.
  Within a record, the first name is handled before the second. The scan stops
  after the record that brings the count to four.
- **Name lookup** (`find_team_index`). A linear search over the four slots
  that returns the least matching index, or -1.
- **Rank-matrix construction** (`build_rank_matrix`). Each scanned match adds
  its weight to the matrix in place. A win adds 3 to the winner's row and the
  loser's column. A draw adds 1 to both cells `[t1][t2]` and `[t2][t1]`. The
  function returns false at the first match with a name no slot holds, and
  keeps the additions already made.

Files:

- `matches.dfy` (module `Matches`): the `Match` record, the bounds
  `MaxMatchCount` = 12 and `TeamCount` = 4, and the scan both loops share
  (`Scanned`: the records before the first empty first name).
- `teams.dfy` (module `Teams`): the slot updates as spec functions (`Place`,
  `Visit`, `Discover`) and the in-place methods `PlaceName`, `VisitMatch`,
  `FindTeams` and `FindTeamIndex`. The spec functions are tied to an
  independent reference definition, `FirstSeen`: the distinct non-empty names
  in order of first appearance.
- `rank_matrix.dfy` (module `RankMatrix`): the per-cell weights (`Weight`,
  `Gain`, `Added`) and the in-place methods `AddMatch`, `ApplyMatch` and
  `BuildRankMatrix`.
  The weights are tied to reference counts of wins and draws.
- `pipeline.dfy` (module `Pipeline`): how the two stages fit together when the
  slots start empty, as in `main`.

The team slots are an `array<Name>` of length 4. The matches are an
`array<Match>` of length 12. The matrix is an `array2<int>`: the source adds
the exact small values 3.0 and 1.0 to doubles, at most twelve times, so
integer cells give the same values. Each method is proved against a spec
function on sequences, and the properties are proved about those functions.

Two behaviours of the code are worth noting:

- One might expect the diagonal to stay zero, since no team plays itself.
  Nothing in the code stops a match from naming the same team twice, and such a draw adds 2 to the
  diagonal cell (`main.c:130-131`). `RankMatrix.DiagonalNeedsSelfMatch` proves
  that the diagonal gains only from such a match.
- An empty second name is handled like any other name. While a slot is still
  empty, `find_teams` stops at that slot because the names compare equal, and
  `find_team_index` resolves the empty name to that slot. Once all four slots
  are full, an empty name no longer resolves.
  `Pipeline.BuildSucceedsIffFourTeams` states success under that condition.

## Model

| member | source | states |
|---|---|---|
| Matches.ScanLength | main.c:78 | The outer loop guard admits at most 12 records, each before it having a non-empty first name, and stops at the first empty first name when fewer than 12 are admitted. |
| Matches.Scanned | main.c:78 | The scanned records are a prefix of the match array of length at most 12, all with non-empty first names, followed by a sentinel when shorter than 12. |
| Matches.Appearances | main.c:82-97 | Names are met two per record, the first name at position 2k and the second at 2k+1. |
| Matches.AppearanceSource | main.c:82-97 | Every name met during the scan is the first or the second name of some record. |
| Teams.EmptySlots | main.c:32 | The four slots main starts from all hold the empty name. |
| Teams.StopFrom | main.c:80-84 | The inner loop stops at the first slot that equals the name or is empty, after slots that are neither. |
| Teams.Place | main.c:80-90 | One inner loop keeps the slot count. When it copies nothing, the slots are unchanged and the name was already there or no slot was empty. When it copies, the name is non-empty and an empty slot existed. |
| Teams.PlaceFillsFirstEmpty | main.c:80-90 | A name is copied exactly when it is non-empty and some empty slot comes before any slot equal to it; the copy goes into the first empty slot, and no other slot changes. |
| Teams.PlaceWhenFull | main.c:84-89 | With all four slots filled, a further name changes nothing and is not counted. |
| Teams.Visit | main.c:80-101 | One record adds 0, 1 or 2 to the count and keeps four slots. |
| Teams.Discover | main.c:78-104 | The outer loop keeps four slots. |
| Teams.FirstSeenFacts | main.c:78-101 | The reference first-seen list has no repeats and no empty name, and holds exactly the non-empty names that occur. |
| Teams.DiscoverFromEmpty | main.c:77-105 | From the empty slots main sets up (main.c:32), find_teams fills the slots with the first min(4, n) distinct names in order of first appearance and returns that number; the remaining slots stay empty. |
| Teams.DiscoverOrder | main.c:77-105 | The count is at most 4, and is 4 unless fewer distinct names occur. Filled slots follow first-appearance order, and slots at or after the count stay empty. |
| Teams.DiscoverDistinct | main.c:77-105 | The filled slots are non-empty and pairwise distinct. |
| Teams.DiscoverProvenance | main.c:78-101 | Every filled slot names the first or second team of some scanned record. |
| Teams.PlaceName | main.c:80-90 | In place, the inner loop leaves the slots and the copied flag that Place describes. |
| Teams.VisitMatch | main.c:80-101 | In place, the two inner loops for one record leave the slots and the count that Visit describes. |
| Teams.FindTeams | main.c:75-106 | In place, find_teams reads only the scanned records (never past index 11), stops after the record that brings the count to 4, and leaves the slots and count that Discover describes on those records. |
| Teams.IndexOf | main.c:108-114 | The result is the least index holding the name, or -1 exactly when no slot holds it. |
| Teams.FindTeamIndex | main.c:108-114 | The linear search returns the least index i in [0,4) with teams[i] == name, and -1 when no slot matches. |
| RankMatrix.Resolved | main.c:120-122 | A match passes the failure test exactly when both its names occupy a slot. |
| RankMatrix.FirstUnresolved | main.c:118-122 | Every record before the result resolves both names, and the record at the result does not. |
| RankMatrix.Weight | main.c:124-132 | A match adds at most 3 to a cell, and only to cell [t1][t2] or [t2][t1]. |
| RankMatrix.Gain | main.c:120-132 | A match adds to a cell only when both names resolve, and only to the cells at the two resolved indices. |
| RankMatrix.Applied | main.c:118-122 | The matches applied before a failure are a prefix of the scanned ones, all resolving, followed by one that does not resolve or by the end. |
| RankMatrix.Added | main.c:118-133 | The total the loop accumulates into one cell over a sequence of matches, at most 3 per match. |
| RankMatrix.AddMatch | main.c:124-132 | In place, each cell gains exactly the match's weight: every other cell is unchanged and no cell decreases. |
| RankMatrix.ApplyMatch | main.c:120-132 | In place, one loop iteration reports whether both names resolve, and each cell gains exactly the match's gain, which is nothing when a name fails to resolve. |
| RankMatrix.BuildRankMatrix | main.c:116-135 | It returns true exactly when every scanned match resolves both names. In either case, each cell equals its initial value plus the weights of the matches before the first unresolved one, so additions made before a failure stay in place. |
| RankMatrix.AddedCounts | main.c:124-132 | Each cell [a][b] gains 3 × (matches where a beat b) + (draw positions with a on one side and b on the other). |
| RankMatrix.AddedPermutation | main.c:118-133 | The accumulated matrix does not depend on the order of the matches. |
| RankMatrix.GainTotalOfMatch | main.c:124-132 | A resolved match adds 3 in all if decisive and 2 if drawn. |
| RankMatrix.TotalWeight | main.c:118-133 | When every match resolves, the matrix gains 3 per decisive match plus 2 per drawn match in all. |
| RankMatrix.DiagonalNeedsSelfMatch | main.c:124-132 | A diagonal cell gains only from a match that names the same team twice. |
| Pipeline.BuildSucceedsIffFourTeams | main.c:36-37 | Once find_teams has filled all four slots from empty ones, build_rank_matrix succeeds exactly when the scanned records name exactly four distinct teams and no name is empty. |

## Left out

- `read_matches` (main.c:52-73): file I/O through the C library. The match
  array, with its sentinel, is taken as the input instead. Its loop also has
  no bound against `MAX_MATCH_COUNT`; that is not modelled.
- `matrix4_find_eigen` and `eigen_to_percentages` (main.c:137-195):
  floating-point power iteration and division. Their results depend on
  rounding and convergence, not on discrete rules.
- `main` (main.c:28-50): orchestration, exit codes and `printf`. What
  `Pipeline.BuildSucceedsIffFourTeams` states is about the two checks `main`
  makes: it aborts when `find_teams` returns less than 4 (main.c:36) and when
  `build_rank_matrix` fails (main.c:37).
- The 20-character bound on team names (`TEAM_NAME_MAX_LENGTH`) and the C
  string representation: names are unbounded Dafny strings, and `strcmp`/`strcpy`
  become string equality and assignment.
- Scores are unbounded naturals. The source's `unsigned` scores are only
  compared, so their 32-bit range does not affect the result.
- Matrix cells are integers instead of doubles, as explained above.
