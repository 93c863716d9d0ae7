/**
 * The rock-the-vote plugin: a threshold vote over the set of player slots
 * asking for an early map vote. Once the count reaches the threshold it is
 * marked started, at most once per map, and a delay callback later clears the
 * in-progress flag; no ballot is opened, and a disconnect only withdraws the
 * player's vote, with no recount.
 *
 * The connected-player count is a parameter; the delay timer's callback is
 * the method DelayElapsed, which the host calls when it fires.
 */
module RockTheVote {
  import opened Threshold

  datatype Config = Config(
    enabled: bool,
    percentage: Ratio,  // share of connected players whose votes start the vote
    minPlayers: int)    // players needed before a vote is counted

  /** css_rtv. */
  datatype RtvResult =
    | Disabled
    | VoteInProgress
    | NotEnoughPlayers
    | AlreadyVoted
    | Counted(votes: nat, needed: int, started: bool)

  class RockTheVotePlugin {
    const config: Config

    var rtvVotes: set<int>
    var rtvStarted: bool
    var voteInProgress: bool

    ghost var startsThisMap: nat  // times the vote was started since the last map start

    /** A proper fraction for the percentage; started at most once per map, and in progress only
        after it started. */
    ghost predicate Valid()
      reads this
    {
      config.percentage.den > 0
      && startsThisMap == (if rtvStarted then 1 else 0)
      && (voteInProgress ==> rtvStarted)
    }

    constructor (config: Config)
      requires config.percentage.den > 0
      ensures Valid() && this.config == config
      ensures rtvVotes == {} && !rtvStarted && !voteInProgress
    {
      this.config := config;
      rtvVotes, rtvStarted, voteInProgress := {}, false, false;
      startsThisMap := 0;
    }

    /**
     * The command: nothing is recorded when the feature is off, while a vote is in progress, with
     * too few players, or from a slot that has voted; otherwise the slot is added and the vote is
     * started once the count reaches the threshold.
     */
    method OnRtvCommand(slot: int, connected: nat) returns (res: RtvResult)
      requires Valid()
      modifies this`rtvVotes, this`rtvStarted, this`voteInProgress, this`startsThisMap
      ensures Valid()
      ensures !config.enabled ==> res == Disabled && unchanged(this)
      ensures config.enabled && old(voteInProgress) ==> res == VoteInProgress && unchanged(this)
      ensures config.enabled && !old(voteInProgress) && connected < config.minPlayers ==>
                res == NotEnoughPlayers && unchanged(this)
      ensures (config.enabled && !old(voteInProgress) && connected >= config.minPlayers
               && slot in old(rtvVotes)) ==> res == AlreadyVoted && unchanged(this)
      ensures (config.enabled && !old(voteInProgress) && connected >= config.minPlayers
               && slot !in old(rtvVotes)) ==>
                var needed := VotesNeeded(connected, config.percentage);
                rtvVotes == old(rtvVotes) + {slot}
                && res == Counted(|rtvVotes|, needed, |rtvVotes| >= needed && !old(rtvStarted))
                && rtvStarted == (old(rtvStarted) || |rtvVotes| >= needed)
                && voteInProgress == res.started
    {
      if !config.enabled {
        return Disabled;
      }
      if voteInProgress {
        return VoteInProgress;
      }
      if connected < config.minPlayers {
        return NotEnoughPlayers;
      }
      if slot in rtvVotes {
        return AlreadyVoted;
      }
      rtvVotes := rtvVotes + {slot};
      var votesNeeded := VotesNeeded(connected, config.percentage);
      var currentVotes := |rtvVotes|;
      var started := false;
      if currentVotes >= votesNeeded {
        started := StartRockTheVote();
      }
      res := Counted(currentVotes, votesNeeded, started);
    }

    /** Mark the vote started and in progress, once per map; the ballot itself is not opened. The
        delay timer is armed by the host and ends in DelayElapsed. */
    method StartRockTheVote() returns (started: bool)
      requires Valid()
      modifies this`rtvStarted, this`voteInProgress, this`startsThisMap
      ensures Valid()
      ensures started == !old(rtvStarted)
      ensures started ==> rtvStarted && voteInProgress && startsThisMap == old(startsThisMap) + 1
      ensures !started ==> unchanged(this)
    {
      if rtvStarted {
        return false;
      }
      rtvStarted, voteInProgress := true, true;
      startsThisMap := startsThisMap + 1;
      started := true;
    }

    /** The delay timer fires: only the in-progress flag is cleared, so the vote stays started. */
    method DelayElapsed()
      requires Valid()
      modifies this`voteInProgress
      ensures Valid() && !voteInProgress
    {
      voteInProgress := false;
    }

    /** A new map: no votes, not started, nothing in progress. */
    method OnMapStart()
      requires Valid()
      modifies this`rtvVotes, this`rtvStarted, this`voteInProgress, this`startsThisMap
      ensures Valid()
      ensures rtvVotes == {} && !rtvStarted && !voteInProgress && startsThisMap == 0
    {
      rtvVotes, rtvStarted, voteInProgress := {}, false, false;
      startsThisMap := 0;
    }

    /** A player leaves: their vote is withdrawn and nothing is counted again, so a disconnect never
        starts the vote. */
    method OnClientDisconnect(slot: int)
      requires Valid()
      modifies this`rtvVotes
      ensures Valid()
      ensures rtvVotes == old(rtvVotes) - {slot}
    {
      rtvVotes := rtvVotes - {slot};
    }
  }
}
