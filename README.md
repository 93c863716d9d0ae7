# SurfTimer map chooser, modelled in Dafny

This project models the map selection and voting logic of the SurfTimer map
chooser, a set of four CounterStrikeSharp plugins. It then proves properties
of that model.

- **Map chooser** (`Mapchooser.MapChooser`). Players nominate maps. A
  nomination is stored in two parallel lists: the map, and the slot of the
  player who nominated it.
  - A query resolves to the first catalogue entry that equals it or
    contains it, ignoring case.
  - Near the end of the map, or on `css_rtv`, one ballot opens. It lists the
    first `IncludeMaps` nominations, then random picks without replacement
    from the remaining catalogue, then the `##extend##` option when offered.
  - Each player's last vote counts. The tally picks the option with the most
    votes. It then either extends the map or asks for a level change.
- **Nominations plugin** (`Nominations.NominationsPlugin`). A second
  nomination registry. The catalogue's status table gates it: bit 1 means
  enabled, and the lookup uses the exact map name. It also applies an
  exclude-current rule and a cap of `MaxNominations`. It builds tier
  listings and a simple listing of the maps that can be nominated.
- **Vote extend** (`VoteExtend.VoteExtendPlugin`). A threshold vote needs
  `max(1, ceil(connected * percentage))` votes. It passes on a cast, on the
  recount after a disconnect, or when it expires. A latch allows at most one
  extension per map.
- **Rock the vote** (`RockTheVote.RockTheVotePlugin`). The same threshold
  vote, marked started at most once per map. A disconnect only withdraws the
  leaving player's vote; nothing is recounted.

Modules:
- `Wrappers`: `Option` and sequence facts.
- `Text`: ASCII case-insensitive comparison.
- `Owned`: the parallel-list removal shared by both nomination registries.
- `Threshold`: the vote threshold.
- `Mapchooser`, `Nominations`, `VoteExtend`, `RockTheVote`: one each.

Each plugin is a class. Its fields are the plugin's fields, its methods are
the plugin's handlers, and a ghost `Valid()` invariant is kept by every
handler.

Host queries are parameters:
- the connected-player count;
- the current map name;
- the loaded catalogue, tiers and status table;
- whether the time-left threshold or extend window has been reached.

Timers are methods the host calls when the timer fires:
- `FireVoteTimer`, which runs `EndVote` only while the vote timer is live;
- `EndExtendVote`;
- `DelayElapsed`.

`Random.Next` is a nondeterministic choice of an index in range. The
configured percentage (a `double`) is a rational `Ratio(num, den)`.

Behaviour reproduced as the code has it:
- **Stale votes count.** The map chooser's ballot box is not emptied at map
  start or map end. Votes from a ballot cut off by a map change are counted
  in the next session's tally. Votes of players who have left still count.
- **Unchecked votes.** `VoteForMap` checks neither the option nor whether a
  ballot is open. A vote for an option the ballot does not list, or cast
  after the ballot closed, is stored and counted by the next tally.
- **Tie-break.** `OrderByDescending(...).First()` is stable, so among tied
  options the one the counts dictionary enumerates first wins. .NET leaves a
  `Dictionary`'s enumeration order undefined. The model assumes what the
  current runtime does when no key is removed: entries come out in the order
  they were first added. The same assumption fixes the ballot box's
  enumeration order, modelled explicitly as `voteOrder`: the order in which
  slots first voted. Under that assumption a tie goes to the tied option held
  by the slot that voted first. A changed vote keeps its slot's place, so an
  option first chosen later can win a tie against one chosen earlier by
  another player: slot 1 votes A, slot 2 votes B, slot 1 changes to C, and C
  wins the 1–1 tie (`Mapchooser.ChangedVoteScenario`). The code does not break
  ties by ballot order.
- **One ballot per map.** `_hasVoteStarted` is reset only at map start, so a
  map has at most one ballot and at most one extension. `MaxExtends` values
  of 2 or more never take effect. The invariant `Orderly()` states this:
  `extendCount <= 1`.
- **No threshold on the map chooser's `css_rtv`.** It opens the ballot at
  once.
- **RockTheVote opens no ballot.** It only sets and clears its flags.
- **Exact-case status lookup.** In the nominations plugin a name is found in
  the catalogue ignoring case. Its status is then looked up under its exact
  spelling, so a mis-cased name is rejected as unavailable. Every stored
  nomination is therefore an exact status-table key with the enabled bit
  set.
- **Menu choices go through the lookup.** A choice from the map chooser's
  nomination menu goes through the same lookup as a typed query. An earlier
  entry containing the chosen name wins over the chosen entry itself.

## Model

| member | source | states |
|---|---|---|
| Text.EqualsImpliesContains | SurfTimerMapchooser/SurfTimerMapchooser.cs:238-240 | two names equal up to case contain each other, so the containment test subsumes the equality test of the lookup |
| Mapchooser.FirstMatch | SurfTimerMapchooser/SurfTimerMapchooser.cs:238-240 | the lookup finds the first catalogue index whose entry equals or contains the query ignoring case; no earlier entry matches; no result means no entry matches |
| Mapchooser.Resolve | SurfTimerMapchooser/SurfTimerMapchooser.cs:237-246 | a resolved map is a non-empty catalogue entry matching the query; no matching entry gives not found; otherwise the first matching entry decides, and an empty one counts as not found |
| Mapchooser.EarlierSubstringBeatsExact | SurfTimerMapchooser/SurfTimerMapchooser.cs:238-240 | an entry containing the query before an exact match is found first |
| Mapchooser.Available | SurfTimerMapchooser/SurfTimerMapchooser.cs:410 | each map occurs exactly as often as in the catalogue when neither taken nor excluded, and not at all otherwise |
| Mapchooser.Kept | SurfTimerMapchooser/SurfTimerMapchooser.cs:410 | the kept indices are exactly those of the entries neither taken nor excluded, ascending |
| Mapchooser.AvailableInOrder | SurfTimerMapchooser/SurfTimerMapchooser.cs:410 | the pool lists the catalogue entries at the kept indices, in catalogue order |
| Mapchooser.FillRandom | SurfTimerMapchooser/SurfTimerMapchooser.cs:411-419 | the fill makes min(slots, pool size) picks and, as a multiset, takes them from the pool without replacement |
| Mapchooser.BuildBallot | SurfTimerMapchooser/SurfTimerMapchooser.cs:401-438 | the options are the first `IncludeMaps` nominations in order, then min(remaining slots, pool size) picks from the pool, then the extend option last exactly when it is offered |
| Mapchooser.BallotMapsDistinct | SurfTimerMapchooser/SurfTimerMapchooser.cs:404-419 | with a catalogue and nomination list free of repetitions, the ballot's maps are distinct and none of them is excluded |
| Mapchooser.CountVotes | SurfTimerMapchooser/SurfTimerMapchooser.cs:469-477 | each option cast gets a count equal to its number of votes; the options are listed in order of their first vote |
| Mapchooser.CountStep | SurfTimerMapchooser/SurfTimerMapchooser.cs:471-477 | counting one more vote keeps every count equal to that option's votes so far |
| Mapchooser.KeyStep | SurfTimerMapchooser/SurfTimerMapchooser.cs:471-477 | a vote for an option not yet seen appends it, keeping the options in order of first vote |
| Mapchooser.PickWinner | SurfTimerMapchooser/SurfTimerMapchooser.cs:480-482 | the chosen option has the highest count, and every option listed before it has a strictly smaller one |
| Mapchooser.Tally | SurfTimerMapchooser/SurfTimerMapchooser.cs:469-482 | the winner was cast, no option has more votes, and every option with as many votes had its first vote no earlier |
| Mapchooser.PluralityWinnerUnique | SurfTimerMapchooser/SurfTimerMapchooser.cs:480-482 | a vote list has at most one plurality winner, so the ballot outcome is determined |
| Mapchooser.ChangedVoteKeepsPlace | SurfTimerMapchooser/SurfTimerMapchooser.cs:453-457 | votes A, B, then C from the first slot enumerate as C then B, and C is the only plurality winner |
| Mapchooser.EnumerationLength | SurfTimerMapchooser/SurfTimerMapchooser.cs:451 | the enumeration order lists as many slots as the ballot box has votes |
| Mapchooser.ValuesInOrder | SurfTimerMapchooser/SurfTimerMapchooser.cs:471 | the values are enumerated slot by slot in enumeration order |
| Mapchooser.TallyCountsVoters | SurfTimerMapchooser/SurfTimerMapchooser.cs:455-477 | an option's tally is the number of slots whose last vote is that option |
| Mapchooser.MapChooser.constructor | SurfTimerMapchooser/SurfTimerMapchooser.cs:25-33 | empty lists, all session flags clear, no extends, empty ballot box |
| Mapchooser.MapChooser.NominationMenu | SurfTimerMapchooser/SurfTimerMapchooser.cs:217-230 | the menu lists the catalogue entries at exactly the indices neither nominated nor excluded, in catalogue order, with every copy of such a map |
| Mapchooser.MapChooser.NominateMap | SurfTimerMapchooser/SurfTimerMapchooser.cs:235-280 | the outcome of each branch: no match, already nominated and excluded change nothing; a player's existing nomination is overwritten at its index; otherwise map and slot are appended; lengths stay equal and no map or slot repeats |
| Mapchooser.MapChooser.OnRtvCommand | SurfTimerMapchooser/SurfTimerMapchooser.cs:282-309 | rejected while a vote runs, after one completed, or with too few players, changing nothing; otherwise the ballot opens at once if none has started this map, running with its timer armed and options in the ballot layout |
| Mapchooser.MapChooser.OnMapStart | SurfTimerMapchooser/SurfTimerMapchooser.cs:320-335 | flags cleared, extends zero, nominations emptied, exclusions exactly the new map; the ballot box and its votes are kept |
| Mapchooser.MapChooser.OnMapEnd | SurfTimerMapchooser/SurfTimerMapchooser.cs:337-340 | the vote timer is no longer live |
| Mapchooser.MapChooser.OnClientDisconnect | SurfTimerMapchooser/SurfTimerMapchooser.cs:342-357 | the slot's entry is removed from both lists and the others keep their order; an unknown slot changes nothing |
| Mapchooser.MapChooser.CheckMapVoteStart | SurfTimerMapchooser/SurfTimerMapchooser.cs:359-376 | a no-op while any session flag is set; otherwise the ballot opens exactly when the time threshold is reached, running with its timer armed and options in the ballot layout |
| Mapchooser.MapChooser.StartMapVote | SurfTimerMapchooser/SurfTimerMapchooser.cs:378-395 | at most one ballot per map; an opened ballot is running, has its timer armed and its options satisfy the ballot layout |
| Mapchooser.MapChooser.OpenBallot | SurfTimerMapchooser/SurfTimerMapchooser.cs:383-392 | the ballot is marked started and running, its timer is armed, it holds the given options, and the ballot count goes from zero to one |
| Mapchooser.MapChooser.VoteForMap | SurfTimerMapchooser/SurfTimerMapchooser.cs:453-457 | the slot's vote is set to the choice, replacing an earlier one; a first vote puts the slot last in the enumeration order |
| Mapchooser.MapChooser.CastVotes | SurfTimerMapchooser/SurfTimerMapchooser.cs:471 | one cast vote per slot in the ballot box |
| Mapchooser.MapChooser.FireVoteTimer | SurfTimerMapchooser/SurfTimerMapchooser.cs:389-392 | a killed timer does nothing; a live one is spent and closes the ballot: no votes only stops it, otherwise the vote completes with the plurality winner deciding the outcome |
| Mapchooser.MapChooser.EndVote | SurfTimerMapchooser/SurfTimerMapchooser.cs:459-497 | no votes: only the running flag is cleared and the outcome is no change; otherwise the vote is completed with the ballot box emptied, an extend win extends by the configured step and counts one extend, and any other winner is a level change to that map |
| Mapchooser.MapChooser.CompleteVote | SurfTimerMapchooser/SurfTimerMapchooser.cs:495-496 | the vote is marked completed and the ballot box is empty |
| Mapchooser.MapChooser.ExtendMap | SurfTimerMapchooser/SurfTimerMapchooser.cs:499-512 | one more extend, by the configured step |
| Mapchooser.ChangedVoteScenario | SurfTimerMapchooser/SurfTimerMapchooser.cs:453-497 | on a fresh map chooser, slot 1 voting A, slot 2 voting B and slot 1 changing to C, closing the ballot changes the level to C |
| Owned.RemoveOwned | SurfTimerMapchooser/Nominations.cs:309-324 | the backward scan removes the slot's last entry from both lists; the other entries keep their order |
| Owned.LastIndexOf | SurfTimerMapchooser/Nominations.cs:311-323 | the scan from the end stops at the slot's last entry |
| Owned.LastIndexOfDistinct | SurfTimerMapchooser/SurfTimerMapchooser.cs:345-354 | with no slot twice, the backward scan hits the entry `IndexOf` finds |
| Nominations.SortedTiers | SurfTimerMapchooser/Nominations.cs:173 | every tier of the list once, ascending |
| Nominations.NominationsPlugin.constructor | SurfTimerMapchooser/Nominations.cs:24-25 | both lists empty |
| Nominations.Enabled | SurfTimerMapchooser/Nominations.cs:244-246 | on a 32-bit status, enabled exactly when bit 0 of its two's-complement form is set |
| Nominations.InCatalogue | SurfTimerMapchooser/Nominations.cs:254 | a name present exactly in the catalogue is found |
| Nominations.InCatalogueIgnoresCase | SurfTimerMapchooser/Nominations.cs:254 | two names equal up to case are both found or both not found |
| Nominations.NominationsPlugin.IsMapAvailable | SurfTimerMapchooser/Nominations.cs:233-250 | available exactly when not nominated, not the current map up to case under the exclude rule, and the exact name has a status entry with the enabled bit |
| Nominations.NominationsPlugin.Listed | SurfTimerMapchooser/Nominations.cs:197-207 | a listing shows exactly the available entries passing the tier filter, in catalogue order |
| Nominations.NominationsPlugin.TierCount | SurfTimerMapchooser/Nominations.cs:177-179 | at most the catalogue size, and zero exactly when no map of the tier is available |
| Nominations.TierEntries | SurfTimerMapchooser/Nominations.cs:175-188 | tiers in ascending order, each with the number of its available maps, only tiers with one |
| Nominations.TierEntriesComplete | SurfTimerMapchooser/Nominations.cs:175-188 | a tier with an available map gets a line |
| Nominations.NominationsPlugin.TierMenu | SurfTimerMapchooser/Nominations.cs:169-191 | the tier menu lists each tier once in ascending order with its count of available maps, and lists every tier with one |
| Nominations.NominationsPlugin.TierMaps | SurfTimerMapchooser/Nominations.cs:193-210 | a tier's menu is exactly its available maps in catalogue order |
| Nominations.NominationsPlugin.SimpleMenu | SurfTimerMapchooser/Nominations.cs:212-231 | the simple menu is every available map with its tier, in catalogue order |
| Nominations.NominationsPlugin.ShowNominationMenu | SurfTimerMapchooser/Nominations.cs:156-166 | the tier menu when the tiered menu is configured, otherwise every available map with its tier in catalogue order |
| Nominations.NominationsPlugin.AttemptNominate | SurfTimerMapchooser/Nominations.cs:252-300 | not found with no case-insensitive match, already nominated, unavailable by status bit or current map, replaced in place even at the cap, rejected at the cap, else appended; never more than the cap; a stored name is an exact status key with the enabled bit and is no longer available |
| Nominations.NominationsPlugin.OnMapStart | SurfTimerMapchooser/Nominations.cs:302-307 | both lists emptied |
| Nominations.NominationsPlugin.OnClientDisconnect | SurfTimerMapchooser/Nominations.cs:309-324 | only the slot's entry is removed from both lists, the rest keep their order |
| Nominations.NominationsPlugin.GetNominatedMaps | SurfTimerMapchooser/Nominations.cs:327 | a copy equal to the list: no map twice, no more than the cap |
| Nominations.NominationsPlugin.GetNominatedBy | SurfTimerMapchooser/Nominations.cs:328 | a copy equal to the list, no slot twice, as long as the map list |
| Threshold.CeilDiv | SurfTimerMapchooser/VoteExtend.cs:205 | the ceiling of a quotient by a positive divisor |
| Threshold.VotesNeeded | SurfTimerMapchooser/VoteExtend.cs:202-206 | at least one, and the least such count of votes covering connected * percentage |
| Threshold.PassesIff | SurfTimerMapchooser/RockTheVote.cs:108-112 | a count reaches the threshold exactly when it is positive and covers connected * percentage |
| Threshold.VotesNeededMonotone | SurfTimerMapchooser/VoteExtend.cs:264-273 | fewer connected players never need more votes |
| Threshold.SixtyPercentExamples | SurfTimerMapchooser/VoteExtend.cs:286 | at the default 0.6, five players need 3 votes, four need 3, three need 2, none need 1 |
| Threshold.RecountExample | SurfTimerMapchooser/VoteExtend.cs:260-275 | at one half, one vote out of three falls short and passes once a non-voter leaves |
| VoteExtend.VoteExtendPlugin.constructor | SurfTimerMapchooser/VoteExtend.cs:22-24 | no votes, no vote running, not extended |
| VoteExtend.VoteExtendPlugin.OnVoteExtendCommand | SurfTimerMapchooser/VoteExtend.cs:62-101 | disabled, already extended, too few players or outside the window change nothing; a running vote takes the command as a cast; otherwise the vote starts with the caller alone and passes at once if one vote suffices |
| VoteExtend.VoteExtendPlugin.StartExtendVote | SurfTimerMapchooser/VoteExtend.cs:119-148 | the vote becomes active with exactly the initiator's vote, extending at once when one vote reaches the threshold |
| VoteExtend.VoteExtendPlugin.VoteForExtend | SurfTimerMapchooser/VoteExtend.cs:175-200 | no running vote or a repeat voter changes nothing; otherwise exactly one slot is added and the map is extended once the count reaches the threshold |
| VoteExtend.VoteExtendPlugin.ExtendMap | SurfTimerMapchooser/VoteExtend.cs:208-226 | applies once per map, setting the latch, stopping the vote and adding the configured extend time; a second call does nothing and adds nothing |
| VoteExtend.VoteExtendPlugin.EndExtendVote | SurfTimerMapchooser/VoteExtend.cs:228-248 | no-op without a running vote; otherwise the vote stops, extends exactly when the count reaches the threshold, and the votes are cleared |
| VoteExtend.VoteExtendPlugin.OnMapStart | SurfTimerMapchooser/VoteExtend.cs:250-258 | votes cleared, vote stopped, latch reset |
| VoteExtend.VoteExtendPlugin.OnClientDisconnect | SurfTimerMapchooser/VoteExtend.cs:260-275 | the slot's vote is withdrawn; a running vote whose remaining count reaches the threshold for the players still online is passed |
| RockTheVote.RockTheVotePlugin.constructor | SurfTimerMapchooser/RockTheVote.cs:19-21 | no votes, not started, nothing in progress |
| RockTheVote.RockTheVotePlugin.OnRtvCommand | SurfTimerMapchooser/RockTheVote.cs:56-97 | disabled, in progress, too few players or a repeat voter record nothing; otherwise exactly one slot is added and the vote starts exactly when the count reaches the threshold and it has not started this map |
| RockTheVote.RockTheVotePlugin.StartRockTheVote | SurfTimerMapchooser/RockTheVote.cs:114-134 | runs once per map, setting started and in progress |
| RockTheVote.RockTheVotePlugin.DelayElapsed | SurfTimerMapchooser/RockTheVote.cs:128-133 | only the in-progress flag is cleared |
| RockTheVote.RockTheVotePlugin.OnMapStart | SurfTimerMapchooser/RockTheVote.cs:136-141 | votes cleared, not started, nothing in progress |
| RockTheVote.RockTheVotePlugin.OnClientDisconnect | SurfTimerMapchooser/RockTheVote.cs:143-146 | only the slot's vote is withdrawn and the flags are untouched, so a disconnect never starts the vote |

## Left out

- Configuration loading (`LoadConfig`, `OnConfigParsed`): the configuration is a constructor argument.
- **Catalogue loading.** This covers `SetupDatabase`, `LoadMapList` and `LoadMapListFromFile`, with their database queries, `Server.IsMapValid` and the file fallback.
  - The catalogue, tiers and status table are parameters.
  - The map chooser's file fallback appends without clearing, so its catalogue may hold repetitions. `Mapchooser.BallotMapsDistinct` therefore assumes a catalogue free of repetitions.
- Host facilities are parameters or are dropped:
  - the player roster count, `Server.MapName` and the time-left and window checks, which read `mp_timelimit` and the game clock as floats;
  - chat output, menus and command-string parsing;
  - the bot and validity checks on the calling player.
- **Time limit and level change.** The `mp_timelimit` increase and the delayed `changelevel` are host side effects. They appear only as the `Outcome` of `EndVote` and as the extend counter or latch.
- **Timers.** Each timer is a method the host calls. Only the map chooser's vote timer can be killed separately from its state, so only it has a liveness field. The vote-extend timer is live exactly while its vote is active. The rock-the-vote delay timer is not stored by the source. The single `voteTimerLive` flag assumes the host calls `OnMapEnd` before every `OnMapStart`: otherwise a ballot of the new map schedules a second `EndVote` timer while the first is still pending, and two pending timers are not represented.
- Stubs: `OnNextMapCommand` always answers "Not set", `OnPlayerConnect` does nothing, and the rock-the-vote `OnNominateCommand` only prints.
- Floating point: `Math.Ceiling(connected * Percentage)` is computed exactly on a rational percentage. IEEE rounding and the `int` cast's overflow are not modelled.
- Case folding covers ASCII letters only; ordinal case-insensitive comparison of other characters is not modelled.
- Mapchooser.FillRandom: the picks are stated as a sub-multiset of the pool, not as a particular sequence of random indices.
- Nominations.TierEntries, Nominations.NominationsPlugin.TierMenu: menu labels are not modelled; a tier line is the tier and its count.
