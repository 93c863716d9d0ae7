/**
 * The map chooser session: nominations kept as two parallel lists, the
 * ballot built from them, a last-vote-wins ballot box, the plurality tally
 * and the per-map session flags.
 *
 * Host queries (the catalogue, the connected-player count, whether the
 * time-left threshold has been crossed) are parameters; timers are explicit
 * methods the host calls when they fire; the random fill draws its index
 * with a nondeterministic choice.
 */
module Mapchooser {
  import opened Wrappers
  import opened Text
  import opened Owned

  /** The option a ballot offers for keeping the current map. */
  const ExtendOption := "##extend##"

  /** The configuration values the session logic reads. */
  datatype Config = Config(
    includeMaps: int,       // slots on the ballot, nominations first
    extend: bool,           // offer the extend option
    maxExtends: int,        // extend option only while extendCount < maxExtends
    extendTimeStep: int,    // minutes added to the time limit by an extend
    minPlayersForRtv: int)  // players needed before css_rtv opens the ballot

  datatype NominateResult =
    | NotFound
    | AlreadyNominated(mapName: string)
    | Excluded(mapName: string)
    | Changed(oldMap: string, newMap: string)
    | Nominated(mapName: string)

  datatype RtvResult = VoteInProgress | VoteCompleted | NotEnoughPlayers | Accepted(started: bool)

  /** What a closed ballot asks of the host. */
  datatype Outcome = NoChange | ExtendCurrent(minutes: int) | ChangeLevel(mapName: string)

  /** The lookup of a nomination query: an entry equal to it, or containing it, up to case. */
  predicate Matches(entry: string, query: string) {
    EqualsIgnoreCase(entry, query) || ContainsIgnoreCase(entry, query)
  }

  /** `FirstOrDefault` over the catalogue: the index of the first entry matching the query. */
  function FirstMatch(catalogue: seq<string>, query: string): (r: Option<nat>)
    ensures r.Some? ==> r.value < |catalogue| && Matches(catalogue[r.value], query)
    ensures r.Some? ==> forall j :: 0 <= j < r.value ==> !Matches(catalogue[j], query)
    ensures r.None? ==> forall j :: 0 <= j < |catalogue| ==> !Matches(catalogue[j], query)
  {
    if catalogue == [] then None
    else if Matches(catalogue[0], query) then Some(0)
    else
      match FirstMatch(catalogue[1..], query)
      case None => None
      case Some(k) => Some(k + 1)
  }

  /** The map a query resolves to; an empty match counts as not found (`string.IsNullOrEmpty`). */
  function Resolve(catalogue: seq<string>, query: string): (r: Option<string>)
    ensures r.Some? ==> r.value in catalogue && r.value != "" && Matches(r.value, query)
    ensures (forall j :: 0 <= j < |catalogue| ==> !Matches(catalogue[j], query)) ==> r.None?
    ensures forall i :: 0 <= i < |catalogue| && Matches(catalogue[i], query)
                        && (forall j :: 0 <= j < i ==> !Matches(catalogue[j], query)) ==>
                          r == (if catalogue[i] == "" then None else Some(catalogue[i]))
  {
    match FirstMatch(catalogue, query)
    case None => None
    case Some(i) => if catalogue[i] == "" then None else Some(catalogue[i])
  }

  /** An entry containing the query earlier in the catalogue wins over a later exact match. */
  lemma EarlierSubstringBeatsExact(catalogue: seq<string>, query: string, i: nat, j: nat)
    requires i < j < |catalogue|
    requires ContainsIgnoreCase(catalogue[i], query) && EqualsIgnoreCase(catalogue[j], query)
    ensures FirstMatch(catalogue, query).Some? && FirstMatch(catalogue, query).value <= i
  {
  }

  /** The indices of the catalogue entries that are neither in `taken` nor in `excluded`: exactly
      those, ascending. */
  ghost function Kept(catalogue: seq<string>, taken: seq<string>, excluded: seq<string>): (ix: seq<nat>)
    ensures forall j :: 0 <= j < |ix| ==>
              ix[j] < |catalogue| && catalogue[ix[j]] !in taken && catalogue[ix[j]] !in excluded
    ensures forall i :: 0 <= i < |catalogue| && catalogue[i] !in taken && catalogue[i] !in excluded ==> i in ix
    ensures forall a, b :: 0 <= a < b < |ix| ==> ix[a] < ix[b]
  {
    if catalogue == [] then []
    else
      var n := |catalogue| - 1;
      var ix := Kept(catalogue[..n], taken, excluded);
      if catalogue[n] !in taken && catalogue[n] !in excluded then ix + [n] else ix
  }

  /** Catalogue entries that are neither in `taken` nor in `excluded`, in catalogue order and with
      the catalogue's repetitions: the nomination menu and the random-fill pool. */
  function Available(catalogue: seq<string>, taken: seq<string>, excluded: seq<string>): (r: seq<string>)
    ensures forall m :: multiset(r)[m] == if m !in taken && m !in excluded then multiset(catalogue)[m] else 0
    ensures forall m :: m in r <==> m in catalogue && m !in taken && m !in excluded
    ensures multiset(r) <= multiset(catalogue)
  {
    if catalogue == [] then []
    else
      var n := |catalogue| - 1;
      var pre := catalogue[..n];
      var rest := Available(pre, taken, excluded);
      assert catalogue == pre + [catalogue[n]];
      assert multiset(catalogue) == multiset(pre) + multiset{catalogue[n]};
      if catalogue[n] !in taken && catalogue[n] !in excluded then
        assert multiset(rest + [catalogue[n]]) == multiset(rest) + multiset{catalogue[n]};
        rest + [catalogue[n]]
      else rest
  }

  /** The pool lists the catalogue entries at exactly the kept indices, in ascending order: it keeps
      catalogue order and every copy of each kept entry. */
  lemma {:induction false} AvailableInOrder(catalogue: seq<string>, taken: seq<string>, excluded: seq<string>)
    ensures var r, ix := Available(catalogue, taken, excluded), Kept(catalogue, taken, excluded);
            |r| == |ix| && forall j :: 0 <= j < |r| ==> r[j] == catalogue[ix[j]]
  {
    if catalogue != [] {
      var n := |catalogue| - 1;
      AvailableInOrder(catalogue[..n], taken, excluded);
      PickedStep(Available(catalogue[..n], taken, excluded), Kept(catalogue[..n], taken, excluded), catalogue,
                 catalogue[n] !in taken && catalogue[n] !in excluded);
    }
  }

  /** Entries picked at indices of a prefix, extended by the last entry or not, are still the entries
      at the extended index list. */
  lemma PickedStep(r: seq<string>, ix: seq<nat>, catalogue: seq<string>, keep: bool)
    requires catalogue != [] && |r| == |ix|
    requires forall j :: 0 <= j < |ix| ==> ix[j] < |catalogue| - 1
    requires forall j :: 0 <= j < |r| ==> r[j] == catalogue[..|catalogue| - 1][ix[j]]
    ensures var n := |catalogue| - 1;
            var r', ix' := (if keep then r + [catalogue[n]] else r), (if keep then ix + [n] else ix);
            |r'| == |ix'| && forall j :: 0 <= j < |r'| ==> r'[j] == catalogue[ix'[j]]
  {
  }

  /** `Take(includeMaps)` on a list of length n. */
  function SeedCount(n: nat, includeMaps: int): nat {
    if includeMaps <= 0 then 0 else if includeMaps < n then includeMaps else n
  }

  /** Random picks made with `slots` slots left and a pool of the given size. */
  function FillCount(slots: int, pool: nat): nat {
    if slots <= 0 then 0 else if slots < pool then slots else pool
  }

  /** The random fill: up to `slots` picks without replacement from `availableMaps`, each drawn
      at an index chosen at random among those left (`Random.Next` then `RemoveAt`). */
  method FillRandom(availableMaps: seq<string>, slots: int) returns (picks: seq<string>)
    ensures |picks| == FillCount(slots, |availableMaps|)
    ensures multiset(picks) <= multiset(availableMaps)
  {
    picks := [];
    var left := availableMaps;
    var i := 0;
    while i < slots && |left| > 0
      invariant 0 <= i <= (if slots > 0 then slots else 0)
      invariant |picks| == i
      invariant multiset(picks) + multiset(left) == multiset(availableMaps)
      invariant i + |left| == |availableMaps|
    {
      var randomIndex :| 0 <= randomIndex < |left|;
      var randomMap := left[randomIndex];
      RemoveAtMultiset(left, randomIndex);
      left := RemoveAt(left, randomIndex);
      picks := picks + [randomMap];
      i := i + 1;
    }
  }

  /**
   * A ballot's option list: the first `includeMaps` nominations in their order; then as many
   * picks as slots remain, or as the pool holds if fewer, taken without replacement from the pool
   * of catalogue entries neither seeded nor excluded; then, when offered, the extend option, last.
   */
  ghost predicate IsBallot(options: seq<string>, nominated: seq<string>, catalogue: seq<string>,
                           excluded: seq<string>, includeMaps: int, offerExtend: bool)
  {
    var k := SeedCount(|nominated|, includeMaps);
    var pool := Available(catalogue, nominated[..k], excluded);
    var e := if offerExtend then 1 else 0;
    |options| == k + FillCount(includeMaps - k, |pool|) + e
    && options[..k] == nominated[..k]
    && multiset(options[k..|options| - e]) <= multiset(pool)
    && (offerExtend ==> options[|options| - 1] == ExtendOption)
  }

  /**
   * The ballot's option list: the first `includeMaps` nominations in order, then random picks
   * without replacement from the catalogue entries not already on it and not excluded, then the
   * extend option when offered.
   */
  method BuildBallot(nominated: seq<string>, catalogue: seq<string>, excluded: seq<string>,
                     includeMaps: int, offerExtend: bool)
    returns (options: seq<string>)
    ensures IsBallot(options, nominated, catalogue, excluded, includeMaps, offerExtend)
  {
    var k := SeedCount(|nominated|, includeMaps);
    var mapsToInclude := nominated[..k];
    var remainingSlots := includeMaps - k;
    var picks := [];
    if remainingSlots > 0 {
      var availableMaps := Available(catalogue, mapsToInclude, excluded);
      picks := FillRandom(availableMaps, remainingSlots);
    }
    var extend := if offerExtend then [ExtendOption] else [];
    options := mapsToInclude + picks + extend;
    assert options[..k] == mapsToInclude;
    assert options[k..|options| - |extend|] == picks;
  }

  /** Distinct seeds followed by picks from a repetition-free pool that shares nothing with the
      seeds: no map occurs twice. */
  lemma {:induction false} SeedsAndPicksDistinct(seeds: seq<string>, picks: seq<string>, pool: seq<string>)
    requires Distinct(seeds) && Distinct(pool)
    requires multiset(picks) <= multiset(pool)
    requires forall m :: m in seeds ==> m !in pool
    ensures Distinct(seeds + picks)
  {
    DistinctMultiset(seeds);
    DistinctMultiset(pool);
    forall x ensures multiset(seeds + picks)[x] <= 1 {
      assert multiset(seeds + picks)[x] == multiset(seeds)[x] + multiset(picks)[x];
      if x in seeds {
        assert multiset(pool)[x] == 0;
      }
    }
    DistinctMultiset(seeds + picks);
  }

  /** A sub-multiset of a repetition-free catalogue is itself repetition-free. */
  lemma {:induction false} SubMultisetDistinct(pool: seq<string>, catalogue: seq<string>)
    requires Distinct(catalogue) && multiset(pool) <= multiset(catalogue)
    ensures Distinct(pool)
  {
    DistinctMultiset(catalogue);
    DistinctMultiset(pool);
  }

  /** With a catalogue and nomination list free of repetitions, and no nominated map excluded,
      the ballot's maps (the seeded nominations followed by the random picks) are distinct and
      none of them is excluded. */
  lemma {:induction false} BallotMapsDistinct(nominated: seq<string>, catalogue: seq<string>, excluded: seq<string>,
                                              includeMaps: int, picks: seq<string>)
    requires Distinct(nominated) && Distinct(catalogue)
    requires forall m :: m in nominated ==> m !in excluded
    requires multiset(picks) <= multiset(Available(catalogue, nominated[..SeedCount(|nominated|, includeMaps)], excluded))
    ensures Distinct(nominated[..SeedCount(|nominated|, includeMaps)] + picks)
    ensures forall m :: m in nominated[..SeedCount(|nominated|, includeMaps)] + picks ==> m !in excluded
  {
    var seeds := nominated[..SeedCount(|nominated|, includeMaps)];
    var pool := Available(catalogue, seeds, excluded);
    assert Distinct(seeds) by {
      assert forall i :: 0 <= i < |seeds| ==> seeds[i] == nominated[i];
    }
    SubMultisetDistinct(pool, catalogue);
    SeedsAndPicksDistinct(seeds, picks, pool);
    forall m | m in seeds + picks ensures m !in excluded {
      if m in picks {
        assert multiset(picks)[m] > 0;
        assert m in pool;
      } else {
        assert m in seeds;
        assert m in nominated;
      }
    }
  }

  /** `voteCounts` counts the votes of `prefix`: an entry exactly for each option cast, holding its
      number of votes. */
  ghost predicate CountsOf(voteCounts: map<string, nat>, prefix: seq<string>) {
    (forall v :: v in voteCounts <==> v in prefix)
    && (forall v :: v in voteCounts ==> voteCounts[v] == multiset(prefix)[v])
  }

  /** `keys` lists each option cast in the first i votes once, in the order of their first vote. */
  ghost predicate KeysInOrder(keys: seq<string>, votes: seq<string>, i: nat)
    requires i <= |votes|
  {
    (forall v :: v in keys <==> v in votes[..i])
    && (forall l :: 0 <= l < |keys| ==> keys[l] in votes)
    && (forall a, b :: 0 <= a < b < |keys| ==> IndexOf(votes, keys[a]) < IndexOf(votes, keys[b]))
  }

  /** One more vote counted. */
  lemma CountStep(voteCounts: map<string, nat>, votes: seq<string>, i: nat)
    requires i < |votes| && CountsOf(voteCounts, votes[..i])
    ensures var vote := votes[i];
            CountsOf(if vote in voteCounts then voteCounts[vote := voteCounts[vote] + 1] else voteCounts[vote := 1],
                     votes[..i + 1])
  {
    assert votes[..i + 1] == votes[..i] + [votes[i]];
  }

  /** An option first cast at i goes after the options first cast before i. */
  lemma KeyStep(keys: seq<string>, votes: seq<string>, i: nat)
    requires i < |votes| && KeysInOrder(keys, votes, i)
    ensures KeysInOrder(if votes[i] in votes[..i] then keys else keys + [votes[i]], votes, i + 1)
  {
    assert votes[..i + 1] == votes[..i] + [votes[i]];
    if votes[i] !in votes[..i] {
      IndexOfAt(votes, i);
      forall l | 0 <= l < |keys| ensures IndexOf(votes, keys[l]) < i {
        IndexOfBefore(votes, keys[l], i);
      }
      var k := keys + [votes[i]];
      assert forall a :: 0 <= a < |keys| ==> k[a] == keys[a];
    }
  }

  /** The counting loop of EndVote: per-option counts of the cast votes, and the options in the
      order the counts dictionary enumerates them (first insertion, i.e. first occurrence in the
      enumerated votes). */
  method CountVotes(votes: seq<string>) returns (voteCounts: map<string, nat>, keys: seq<string>)
    ensures forall v :: v in voteCounts <==> v in votes
    ensures forall v :: v in voteCounts ==> voteCounts[v] == multiset(votes)[v]
    ensures forall v :: v in keys <==> v in voteCounts
    ensures forall l :: 0 <= l < |keys| ==> keys[l] in votes
    ensures forall a, b :: 0 <= a < b < |keys| ==> IndexOf(votes, keys[a]) < IndexOf(votes, keys[b])
  {
    voteCounts, keys := map[], [];
    for i := 0 to |votes|
      invariant CountsOf(voteCounts, votes[..i])
      invariant KeysInOrder(keys, votes, i)
    {
      var vote := votes[i];
      CountStep(voteCounts, votes, i);
      KeyStep(keys, votes, i);
      if vote in voteCounts {
        voteCounts := voteCounts[vote := voteCounts[vote] + 1];
      } else {
        voteCounts := voteCounts[vote := 1];
        keys := keys + [vote];
      }
    }
    assert votes[..|votes|] == votes;
  }

  /** w was cast, no option has more votes than w, and every option with as many votes as w first
      occurs no earlier than w in the vote list. */
  ghost predicate PluralityWinner(votes: seq<string>, w: string) {
    w in votes
    && (forall v :: multiset(votes)[v] <= multiset(votes)[w])
    && (forall v :: v in votes && multiset(votes)[v] == multiset(votes)[w] ==> IndexOf(votes, w) <= IndexOf(votes, v))
  }

  /** The plurality winner of a vote list is unique, so EndVote's outcome is determined. */
  lemma PluralityWinnerUnique(votes: seq<string>, a: string, b: string)
    requires PluralityWinner(votes, a) && PluralityWinner(votes, b)
    ensures a == b
  {
    assert multiset(votes)[a] == multiset(votes)[b];
    assert IndexOf(votes, a) == IndexOf(votes, b);
  }

  /**
   * The plurality count of EndVote: tally the cast votes, in the ballot box's enumeration order,
   * then take the option that a stable sort by descending count puts first
   * (`OrderByDescending(x => x.Value).First()`). The winner has the largest count; among options
   * tied for it, the one occurring first in the list wins. The list follows the slots in the order
   * they first voted, each with its latest choice, so that is the option held by the earliest
   * slot, not necessarily the option chosen first.
   */
  method Tally(votes: seq<string>) returns (winner: string, winnerVotes: nat)
    requires votes != []
    ensures PluralityWinner(votes, winner)
    ensures winnerVotes == multiset(votes)[winner]
  {
    var voteCounts, keys := CountVotes(votes);
    assert votes[0] in keys;
    winner := PickWinner(voteCounts, keys);
    winnerVotes := voteCounts[winner];
    var w := IndexOf(keys, winner);
    forall v | v in votes
      ensures multiset(votes)[v] <= winnerVotes
      ensures multiset(votes)[v] == winnerVotes ==> IndexOf(votes, winner) <= IndexOf(votes, v)
    {
      var l :| 0 <= l < |keys| && keys[l] == v;
      assert l < w ==> voteCounts[keys[l]] < winnerVotes;
      assert w < l ==> IndexOf(votes, keys[w]) < IndexOf(votes, keys[l]);
    }
  }

  /** The selection of EndVote: scanning the options in enumeration order and keeping the first
      one with the highest count, which is what `First()` after a stable descending sort yields. */
  method PickWinner(voteCounts: map<string, nat>, keys: seq<string>) returns (best: string)
    requires keys != [] && forall l :: 0 <= l < |keys| ==> keys[l] in voteCounts
    ensures best in keys
    ensures forall l :: 0 <= l < |keys| ==> voteCounts[keys[l]] <= voteCounts[best]
    ensures forall l :: 0 <= l < IndexOf(keys, best) ==> voteCounts[keys[l]] < voteCounts[best]
  {
    best := keys[0];
    ghost var bestAt := 0;
    for j := 1 to |keys|
      invariant bestAt < j && keys[bestAt] == best
      invariant forall l :: 0 <= l < j ==> voteCounts[keys[l]] <= voteCounts[best]
      invariant forall l :: 0 <= l < bestAt ==> voteCounts[keys[l]] < voteCounts[best]
    {
      if voteCounts[keys[j]] > voteCounts[best] {
        best := keys[j];
        bestAt := j;
      }
    }
    IndexOfBefore(keys, best, bestAt + 1);
  }

  /** `order` lists every key of `votes` exactly once: the enumeration order of a dictionary. */
  predicate Enumerates(order: seq<int>, votes: map<int, string>) {
    Distinct(order)
    && (forall i :: 0 <= i < |order| ==> order[i] in votes)
    && (forall s :: s in votes ==> s in order)
  }

  /** Dropping the last key of an enumeration enumerates the map without that key. */
  lemma EnumeratesFront(order: seq<int>, votes: map<int, string>)
    requires order != [] && Enumerates(order, votes)
    ensures Enumerates(order[..|order| - 1], votes - {order[|order| - 1]})
  {
    var n := |order| - 1;
    assert forall i :: 0 <= i < n ==> order[..n][i] == order[i] != order[n];
    forall s | s in votes - {order[n]} ensures s in order[..n] {
      var i :| 0 <= i < |order| && order[i] == s;
      assert order[..n][i] == s;
    }
  }

  /** An enumeration is as long as the map has keys. */
  lemma {:induction false} EnumerationLength(order: seq<int>, votes: map<int, string>)
    requires Enumerates(order, votes)
    ensures |order| == |votes|
    decreases |order|
  {
    if order == [] {
      assert votes == map[] by {
        assert forall s :: s !in votes;
      }
    } else {
      var n := |order| - 1;
      EnumeratesFront(order, votes);
      EnumerationLength(order[..n], votes - {order[n]});
    }
  }

  /** `_playerVotes.Values` in enumeration order. */
  function ValuesInOrder(votes: map<int, string>, order: seq<int>): (r: seq<string>)
    requires forall i :: 0 <= i < |order| ==> order[i] in votes
    ensures |r| == |order|
    ensures forall i :: 0 <= i < |order| ==> r[i] == votes[order[i]]
  {
    if order == [] then [] else ValuesInOrder(votes, order[..|order| - 1]) + [votes[order[|order| - 1]]]
  }

  /** A changed vote keeps its slot's place: slot 1 votes A, slot 2 votes B, slot 1 changes to C.
      The enumerated votes are C then B, and C wins the tie although B was chosen before C. */
  lemma ChangedVoteKeepsPlace()
    ensures ValuesInOrder(map[1 := "C", 2 := "B"], [1, 2]) == ["C", "B"]
    ensures forall w :: PluralityWinner(["C", "B"], w) <==> w == "C"
  {
    var votes := ["C", "B"];
    assert IndexOf(votes, "C") == 0 && IndexOf(votes, "B") == 1;
    assert multiset(votes)["C"] == 1 && multiset(votes)["B"] == 1;
    forall v ensures multiset(votes)[v] <= multiset(votes)["C"] {
      assert votes == ["C"] + ["B"];
    }
    assert PluralityWinner(votes, "C");
    forall w | PluralityWinner(votes, w) ensures w == "C" {
      PluralityWinnerUnique(votes, w, "C");
    }
  }

  /** The slots whose standing vote is for option v. */
  function VotersFor(votes: map<int, string>, v: string): set<int> {
    set s | s in votes && votes[s] == v
  }

  /** Counting the enumerated values counts each slot's last vote once: the tally for an option is
      the number of slots whose standing vote is that option. */
  lemma {:induction false} TallyCountsVoters(votes: map<int, string>, order: seq<int>, v: string)
    requires Enumerates(order, votes)
    ensures multiset(ValuesInOrder(votes, order))[v] == |VotersFor(votes, v)|
    decreases |order|
  {
    if order == [] {
      assert forall s :: s in VotersFor(votes, v) ==> s in votes && s in order;
    } else {
      var n := |order| - 1;
      var last := order[n];
      EnumeratesFront(order, votes);
      TallyCountsVoters(votes - {last}, order[..n], v);
      ValuesInOrderLast(votes, order, v);
      VotersForSplit(votes, last, v);
    }
  }

  /** The count of v among the enumerated values grows by one exactly when the last slot voted v. */
  lemma ValuesInOrderLast(votes: map<int, string>, order: seq<int>, v: string)
    requires order != [] && forall i :: 0 <= i < |order| ==> order[i] in votes
    requires order[|order| - 1] !in order[..|order| - 1]
    ensures var n := |order| - 1;
            multiset(ValuesInOrder(votes, order))[v]
            == multiset(ValuesInOrder(votes - {order[n]}, order[..n]))[v] + (if votes[order[n]] == v then 1 else 0)
  {
    var n := |order| - 1;
    var before := ValuesInOrder(votes, order[..n]);
    assert forall i :: 0 <= i < n ==> order[..n][i] in votes - {order[n]};
    assert before == ValuesInOrder(votes - {order[n]}, order[..n]);
    assert ValuesInOrder(votes, order) == before + [votes[order[n]]];
  }

  /** The voters for v with the slot `last` set apart. */
  lemma VotersForSplit(votes: map<int, string>, last: int, v: string)
    requires last in votes
    ensures |VotersFor(votes, v)| == |VotersFor(votes - {last}, v)| + (if votes[last] == v then 1 else 0)
  {
    if votes[last] == v {
      assert VotersFor(votes, v) == VotersFor(votes - {last}, v) + {last};
    } else {
      assert VotersFor(votes, v) == VotersFor(votes - {last}, v);
    }
  }

  class MapChooser {
    const config: Config

    var nominatedMaps: seq<string>
    var nominatedBy: seq<int>
    var excludedMaps: seq<string>

    var voteInProgress: bool
    var hasVoteStarted: bool
    var mapVoteCompleted: bool
    var extendCount: int

    var voteOptions: seq<string>       // option list of the current vote menu
    var playerVotes: map<int, string>  // slot -> option, last vote wins
    var voteOrder: seq<int>            // enumeration order of playerVotes: first insertion
    var voteTimerLive: bool            // the EndVote timer is scheduled and not killed

    ghost var ballotsThisMap: nat      // ballots started since the last map start

    /** Parallel lists of equal length, no map or slot twice, no nominated map excluded. */
    ghost predicate NominationsValid()
      reads this`nominatedMaps, this`nominatedBy, this`excludedMaps
    {
      |nominatedMaps| == |nominatedBy|
      && Distinct(nominatedMaps) && Distinct(nominatedBy)
      && (forall m :: m in nominatedMaps ==> m !in excludedMaps)
    }

    /** Structure every operation keeps: the nomination lists, the ballot box's enumeration order,
        and one ballot counted exactly when one has started. */
    ghost predicate Valid()
      reads this
    {
      NominationsValid()
      && Enumerates(voteOrder, playerVotes)
      && ballotsThisMap == (if hasVoteStarted then 1 else 0)
    }

    /** The session invariant, kept as long as every map start follows a map end (which kills the
        vote timer): at most one ballot, closed at most once, extended at most once. */
    ghost predicate Orderly()
      reads this
    {
      (voteInProgress ==> hasVoteStarted)
      && (mapVoteCompleted ==> hasVoteStarted)
      && (voteTimerLive ==> voteInProgress && !mapVoteCompleted && extendCount == 0)
      && 0 <= extendCount <= (if mapVoteCompleted then 1 else 0)
    }

    /** Plugin load: nothing nominated, no vote, no exclusions yet. */
    constructor (config: Config)
      ensures Valid() && Orderly()
      ensures this.config == config
      ensures nominatedMaps == [] && nominatedBy == [] && excludedMaps == []
      ensures !voteInProgress && !hasVoteStarted && !mapVoteCompleted && extendCount == 0
      ensures voteOptions == [] && playerVotes == map[] && voteOrder == [] && !voteTimerLive
    {
      this.config := config;
      nominatedMaps, nominatedBy, excludedMaps := [], [], [];
      voteInProgress, hasVoteStarted, mapVoteCompleted, extendCount := false, false, false, 0;
      voteOptions, playerVotes, voteOrder, voteTimerLive := [], map[], [], false;
      ballotsThisMap := 0;
    }

    /** The nomination menu: every catalogue entry neither nominated nor excluded, in catalogue
        order, repetitions included. */
    function NominationMenu(catalogue: seq<string>): (r: seq<string>)
      reads this
      ensures var ix := Kept(catalogue, nominatedMaps, excludedMaps);
              |r| == |ix| && forall j :: 0 <= j < |r| ==> r[j] == catalogue[ix[j]]
      ensures forall m :: multiset(r)[m] ==
                if m !in nominatedMaps && m !in excludedMaps then multiset(catalogue)[m] else 0
      ensures forall m :: m in r <==> m in catalogue && m !in nominatedMaps && m !in excludedMaps
    {
      AvailableInOrder(catalogue, nominatedMaps, excludedMaps);
      Available(catalogue, nominatedMaps, excludedMaps)
    }

    /**
     * css_nominate: resolve the query against the catalogue, reject a map that is already
     * nominated or excluded, move the player's nomination if they have one, otherwise append.
     */
    method NominateMap(slot: int, query: string, catalogue: seq<string>) returns (res: NominateResult)
      requires Valid()
      modifies this`nominatedMaps, this`nominatedBy
      ensures Valid()
      ensures Resolve(catalogue, query).None? ==> res == NotFound
      ensures Resolve(catalogue, query).Some? ==>
        var m := Resolve(catalogue, query).value;
        if m in old(nominatedMaps) then res == AlreadyNominated(m)
        else if m in excludedMaps then res == Excluded(m)
        else if slot in old(nominatedBy) then
          var i := IndexOf(old(nominatedBy), slot);
          res == Changed(old(nominatedMaps)[i], m)
          && nominatedMaps == old(nominatedMaps)[i := m] && nominatedBy == old(nominatedBy)
        else
          res == Nominated(m)
          && nominatedMaps == old(nominatedMaps) + [m] && nominatedBy == old(nominatedBy) + [slot]
      ensures res.NotFound? || res.AlreadyNominated? || res.Excluded? ==>
        nominatedMaps == old(nominatedMaps) && nominatedBy == old(nominatedBy)
    {
      var matchedMap := Resolve(catalogue, query);
      if matchedMap.None? {
        return NotFound;
      }
      var m := matchedMap.value;
      if m in nominatedMaps {
        return AlreadyNominated(m);
      }
      if m in excludedMaps {
        return Excluded(m);
      }
      if slot in nominatedBy {
        var existingIndex := IndexOf(nominatedBy, slot);
        if existingIndex < |nominatedMaps| {
          var oldMap := nominatedMaps[existingIndex];
          nominatedMaps := nominatedMaps[existingIndex := m];
          return Changed(oldMap, m);
        }
      }
      nominatedMaps := nominatedMaps + [m];
      nominatedBy := nominatedBy + [slot];
      res := Nominated(m);
    }

    /** css_rtv of the map chooser itself: no threshold, the ballot opens at once. */
    method OnRtvCommand(connected: nat, catalogue: seq<string>) returns (res: RtvResult)
      requires Valid()
      modifies this`voteInProgress, this`hasVoteStarted, this`voteOptions, this`voteTimerLive, this`ballotsThisMap
      ensures Valid() && (old(Orderly()) ==> Orderly())
      ensures old(voteInProgress) ==> res == VoteInProgress
      ensures !old(voteInProgress) && old(mapVoteCompleted) ==> res == VoteCompleted
      ensures !old(voteInProgress) && !old(mapVoteCompleted) && connected < config.minPlayersForRtv ==> res == NotEnoughPlayers
      ensures !old(voteInProgress) && !old(mapVoteCompleted) && connected >= config.minPlayersForRtv ==>
                res == Accepted(!old(hasVoteStarted))
      ensures !(res.Accepted? && res.started) ==> unchanged(this)
      ensures res.Accepted? && res.started ==> hasVoteStarted && voteInProgress && voteTimerLive && ballotsThisMap == 1
      ensures res.Accepted? && res.started ==>
                IsBallot(voteOptions, nominatedMaps, catalogue, excludedMaps, config.includeMaps,
                         config.extend && extendCount < config.maxExtends)
    {
      if voteInProgress {
        return VoteInProgress;
      }
      if mapVoteCompleted {
        return VoteCompleted;
      }
      if connected < config.minPlayersForRtv {
        return NotEnoughPlayers;
      }
      var started := StartMapVote(catalogue);
      res := Accepted(started);
    }

    /** A new map: session flags and counter reset, nominations dropped, only the new map excluded.
        The ballot box is left as it is, so votes of a ballot cut off by the map change are still
        counted by the next session's tally; the vote timer is not touched (the map end kills it). */
    method OnMapStart(mapName: string)
      requires Valid()
      modifies this`hasVoteStarted, this`mapVoteCompleted, this`voteInProgress, this`extendCount,
               this`nominatedMaps, this`nominatedBy, this`excludedMaps, this`ballotsThisMap
      ensures Valid() && (!voteTimerLive ==> Orderly())
      ensures !hasVoteStarted && !mapVoteCompleted && !voteInProgress && extendCount == 0
      ensures nominatedMaps == [] && nominatedBy == [] && excludedMaps == [mapName]
      ensures ballotsThisMap == 0
    {
      hasVoteStarted, mapVoteCompleted, voteInProgress, extendCount := false, false, false, 0;
      nominatedMaps, nominatedBy := [], [];
      excludedMaps := [mapName];
      ballotsThisMap := 0;
    }

    /** The map ends: the vote timer is killed. */
    method OnMapEnd()
      requires Valid()
      modifies this`voteTimerLive
      ensures Valid() && (old(Orderly()) ==> Orderly())
      ensures !voteTimerLive
    {
      voteTimerLive := false;
    }

    /** A player leaves: the entry they nominated is removed from both lists, the rest keep their order. */
    method OnClientDisconnect(slot: int) returns (removed: Option<string>)
      requires Valid()
      modifies this`nominatedMaps, this`nominatedBy
      ensures Valid()
      ensures slot !in old(nominatedBy) ==>
                removed == None && nominatedMaps == old(nominatedMaps) && nominatedBy == old(nominatedBy)
      ensures slot in old(nominatedBy) ==>
                var i := IndexOf(old(nominatedBy), slot);
                removed == Some(old(nominatedMaps)[i])
                && nominatedMaps == RemoveAt(old(nominatedMaps), i)
                && nominatedBy == RemoveAt(old(nominatedBy), i)
      ensures slot !in nominatedBy
    {
      if slot in nominatedBy {
        LastIndexOfDistinct(nominatedBy, slot);
        RemoveAtDistinct(nominatedMaps, IndexOf(nominatedBy, slot));
        RemoveAtDistinct(nominatedBy, IndexOf(nominatedBy, slot));
      }
      nominatedMaps, nominatedBy, removed := RemoveOwned(nominatedMaps, nominatedBy, slot);
    }

    /** The repeating 5-second check: nothing while a ballot has started, is running or has
        completed; otherwise open the ballot once the time-left threshold is reached. */
    method CheckMapVoteStart(voteTimeReached: bool, catalogue: seq<string>) returns (started: bool)
      requires Valid()
      modifies this`voteInProgress, this`hasVoteStarted, this`voteOptions, this`voteTimerLive, this`ballotsThisMap
      ensures Valid() && (old(Orderly()) ==> Orderly())
      ensures started <==> !old(hasVoteStarted) && !old(mapVoteCompleted) && !old(voteInProgress) && voteTimeReached
      ensures !started ==> unchanged(this)
      ensures started ==> hasVoteStarted && voteInProgress && voteTimerLive && ballotsThisMap == 1
      ensures started ==> IsBallot(voteOptions, nominatedMaps, catalogue, excludedMaps, config.includeMaps,
                                   config.extend && extendCount < config.maxExtends)
    {
      started := false;
      if hasVoteStarted || mapVoteCompleted || voteInProgress {
        return;
      }
      if voteTimeReached {
        started := StartMapVote(catalogue);
      }
    }

    /** Open the ballot, at most once per map: mark it started and running, build its options and
        arm the timer that closes it. */
    method StartMapVote(catalogue: seq<string>) returns (started: bool)
      requires Valid()
      modifies this`voteInProgress, this`hasVoteStarted, this`voteOptions, this`voteTimerLive, this`ballotsThisMap
      ensures Valid() && (old(Orderly()) ==> Orderly())
      ensures started == !old(hasVoteStarted)
      ensures !started ==> unchanged(this)
      ensures started ==> hasVoteStarted && voteInProgress && voteTimerLive && ballotsThisMap == 1
      ensures started ==> IsBallot(voteOptions, nominatedMaps, catalogue, excludedMaps, config.includeMaps,
                                   config.extend && extendCount < config.maxExtends)
    {
      if hasVoteStarted {
        return false;
      }
      var options := BuildBallot(nominatedMaps, catalogue, excludedMaps, config.includeMaps,
                                 config.extend && extendCount < config.maxExtends);
      OpenBallot(options);
      started := true;
    }

    /** The ballot opens with the given options: started, running, its timer armed. */
    method OpenBallot(options: seq<string>)
      requires Valid() && !hasVoteStarted
      modifies this`voteInProgress, this`hasVoteStarted, this`voteOptions, this`voteTimerLive, this`ballotsThisMap
      ensures Valid() && (old(Orderly()) ==> Orderly())
      ensures hasVoteStarted && voteInProgress && voteTimerLive && voteOptions == options
      ensures ballotsThisMap == old(ballotsThisMap) + 1 == 1
    {
      hasVoteStarted, voteInProgress, voteOptions, voteTimerLive := true, true, options, true;
      ballotsThisMap := ballotsThisMap + 1;
    }

    /** A menu choice: the slot's vote is set to the option, replacing any earlier one. Neither the
        option nor the ballot's state is checked. */
    method VoteForMap(slot: int, choice: string)
      requires Valid()
      modifies this`playerVotes, this`voteOrder
      ensures Valid()
      ensures playerVotes == old(playerVotes)[slot := choice]
      ensures voteOrder == if slot in old(playerVotes) then old(voteOrder) else old(voteOrder) + [slot]
    {
      if slot !in playerVotes {
        voteOrder := voteOrder + [slot];
      }
      playerVotes := playerVotes[slot := choice];
    }

    /** The standing votes, one per slot in the ballot box, in enumeration order. */
    function CastVotes(): (r: seq<string>)
      reads this`playerVotes, this`voteOrder
      requires Enumerates(voteOrder, playerVotes)
      ensures |r| == |playerVotes|
    {
      EnumerationLength(voteOrder, playerVotes);
      ValuesInOrder(playerVotes, voteOrder)
    }

    /**
     * The state once a ballot holding votes has closed: the vote is completed and the ballot box
     * emptied, and the outcome follows the plurality winner of `votes`: the extend option extends
     * the map by the configured step and counts one more extend, any other option is a level
     * change to it.
     */
    ghost predicate ClosedWith(outcome: Outcome, votes: seq<string>, extendsBefore: int)
      reads this`mapVoteCompleted, this`playerVotes, this`voteOrder, this`extendCount
    {
      mapVoteCompleted && playerVotes == map[] && voteOrder == []
      && match outcome
         case NoChange => false
         case ExtendCurrent(minutes) =>
           PluralityWinner(votes, ExtendOption) && minutes == config.extendTimeStep
           && extendCount == extendsBefore + 1
         case ChangeLevel(m) =>
           m != ExtendOption && PluralityWinner(votes, m) && extendCount == extendsBefore
    }

    /** The vote timer fires: only a live (not killed) timer runs EndVote, and it closes the ballot. */
    method FireVoteTimer() returns (outcome: Option<Outcome>)
      requires Valid()
      modifies this`voteTimerLive, this`voteInProgress, this`mapVoteCompleted, this`extendCount,
               this`playerVotes, this`voteOrder
      ensures Valid() && (old(Orderly()) ==> Orderly())
      ensures !old(voteTimerLive) ==> outcome == None && unchanged(this)
      ensures old(voteTimerLive) ==> outcome.Some? && !voteTimerLive && !voteInProgress
      ensures old(voteTimerLive) && old(playerVotes) == map[] ==>
                outcome == Some(NoChange) && mapVoteCompleted == old(mapVoteCompleted)
                && extendCount == old(extendCount) && playerVotes == map[] && voteOrder == old(voteOrder)
      ensures old(voteTimerLive) && old(playerVotes) != map[] ==>
                outcome.Some? && ClosedWith(outcome.value, old(CastVotes()), old(extendCount))
    {
      if !voteTimerLive {
        return None;
      }
      voteTimerLive := false;
      var o := EndVote();
      outcome := Some(o);
    }

    /**
     * Close the ballot. With no votes it only stops the vote. Otherwise the option with the most
     * standing votes wins (among equals, the one held by the slot that voted first), the extend
     * option extends the map and any
     * other option asks for a level change; the vote is then completed and the ballot box emptied.
     */
    method EndVote() returns (outcome: Outcome)
      requires Valid()
      modifies this`voteInProgress, this`mapVoteCompleted, this`extendCount, this`playerVotes, this`voteOrder
      ensures Valid()
      ensures !old(voteTimerLive) && old(Orderly()) && old(hasVoteStarted) && !old(mapVoteCompleted) ==> Orderly()
      ensures !voteInProgress
      ensures old(playerVotes) == map[] ==>
                outcome == NoChange && mapVoteCompleted == old(mapVoteCompleted) && extendCount == old(extendCount)
                && playerVotes == map[] && voteOrder == old(voteOrder)
      ensures old(playerVotes) != map[] ==> ClosedWith(outcome, old(CastVotes()), old(extendCount))
    {
      var votes := CastVotes();
      voteInProgress := false;
      if playerVotes == map[] {
        return NoChange;
      }
      var winnerMap, winnerVotes := Tally(votes);
      if winnerMap == ExtendOption {
        var minutes := ExtendMap();
        outcome := ExtendCurrent(minutes);
      } else {
        outcome := ChangeLevel(winnerMap);
      }
      CompleteVote();
    }

    /** The vote is completed and the ballot box emptied. */
    method CompleteVote()
      requires Valid()
      modifies this`mapVoteCompleted, this`playerVotes, this`voteOrder
      ensures Valid()
      ensures mapVoteCompleted && playerVotes == map[] && voteOrder == []
    {
      mapVoteCompleted := true;
      playerVotes, voteOrder := map[], [];
    }

    /** The extend outcome: count one more extend; the time limit increase is the host's. */
    method ExtendMap() returns (minutes: int)
      requires Valid()
      modifies this`extendCount
      ensures Valid()
      ensures extendCount == old(extendCount) + 1 && minutes == config.extendTimeStep
    {
      extendCount := extendCount + 1;
      minutes := config.extendTimeStep;
    }
  }

  /** The same scenario on a map chooser: after slot 1 votes A, slot 2 votes B and slot 1 changes
      to C, closing the ballot changes the level to C. */
  method ChangedVoteScenario(config: Config) returns (outcome: Outcome)
    ensures outcome == ChangeLevel("C")
  {
    var chooser := new MapChooser(config);
    chooser.VoteForMap(1, "A");
    chooser.VoteForMap(2, "B");
    chooser.VoteForMap(1, "C");
    assert chooser.playerVotes == map[1 := "C", 2 := "B"] && chooser.voteOrder == [1, 2];
    ChangedVoteKeepsPlace();
    assert chooser.CastVotes() == ["C", "B"];
    outcome := chooser.EndVote();
  }
}
