/**
 * The vote-extend plugin: a threshold vote over the set of player slots that
 * asked to extend the current map. The first caster starts the vote; it
 * passes as soon as the count reaches the threshold on a cast, on the recount
 * after a disconnect, or when the vote expires; and a latch lets the map be
 * extended at most once per map.
 *
 * The connected-player count and whether the map is inside the window near
 * its end are parameters. The vote timer is live exactly while the vote is
 * active (it is armed when the vote starts and killed when the map is
 * extended or a new map starts), so its callback is EndExtendVote itself.
 */
module VoteExtend {
  import opened Threshold

  datatype Config = Config(
    enabled: bool,
    percentage: Ratio,  // share of connected players whose votes pass the vote
    minPlayers: int,    // players needed to start a vote
    extendTime: int)    // minutes an extension adds (applied by the host)

  /** A cast into a running vote. */
  datatype CastResult = NoActiveVote | AlreadyVoted | Counted(votes: nat, needed: int, extended: bool)

  /** css_ve / css_voteextend / css_extend. */
  datatype CommandResult =
    | Disabled
    | AlreadyExtended
    | Voted(cast: CastResult)
    | NotEnoughPlayers
    | OutsideWindow
    | Started(votes: nat, needed: int, extended: bool)

  class VoteExtendPlugin {
    const config: Config

    var extendVotes: set<int>
    var extendVoteActive: bool
    var hasExtended: bool

    ghost var extensionsThisMap: nat  // extensions applied since the last map start

    /** The percentage is a proper fraction representation; at most one extension per map, and a
        running vote only on a map not yet extended. */
    ghost predicate Valid()
      reads this
    {
      config.percentage.den > 0
      && extensionsThisMap == (if hasExtended then 1 else 0)
      && (extendVoteActive ==> !hasExtended)
    }

    constructor (config: Config)
      requires config.percentage.den > 0
      ensures Valid() && this.config == config
      ensures extendVotes == {} && !extendVoteActive && !hasExtended
    {
      this.config := config;
      extendVotes, extendVoteActive, hasExtended := {}, false, false;
      extensionsThisMap := 0;
    }

    /**
     * The command: refused when the feature is off, when the map was extended already, and, when no
     * vote runs, with too few players or outside the window near the map's end; a running vote takes
     * it as a cast; otherwise it starts the vote.
     */
    method OnVoteExtendCommand(slot: int, connected: nat, windowOpen: bool) returns (res: CommandResult)
      requires Valid()
      modifies this`extendVotes, this`extendVoteActive, this`hasExtended, this`extensionsThisMap
      ensures Valid()
      ensures !config.enabled ==> res == Disabled && unchanged(this)
      ensures config.enabled && old(hasExtended) ==> res == AlreadyExtended && unchanged(this)
      ensures config.enabled && !old(hasExtended) && old(extendVoteActive) ==>
                res.Voted? && res.cast != NoActiveVote
                && (slot in old(extendVotes) ==> res.cast == AlreadyVoted && unchanged(this))
                && (slot !in old(extendVotes) ==>
                      var needed := VotesNeeded(connected, config.percentage);
                      extendVotes == old(extendVotes) + {slot}
                      && res.cast == Counted(|extendVotes|, needed, |extendVotes| >= needed)
                      && hasExtended == res.cast.extended && extendVoteActive == !res.cast.extended)
      ensures config.enabled && !old(hasExtended) && !old(extendVoteActive) && connected < config.minPlayers ==>
                res == NotEnoughPlayers && unchanged(this)
      ensures (config.enabled && !old(hasExtended) && !old(extendVoteActive) && connected >= config.minPlayers
               && !windowOpen) ==> res == OutsideWindow && unchanged(this)
      ensures (config.enabled && !old(hasExtended) && !old(extendVoteActive) && connected >= config.minPlayers
               && windowOpen) ==>
                var needed := VotesNeeded(connected, config.percentage);
                res == Started(1, needed, 1 >= needed)
                && extendVotes == {slot} && hasExtended == res.extended && extendVoteActive == !res.extended
    {
      if !config.enabled {
        return Disabled;
      }
      if hasExtended {
        return AlreadyExtended;
      }
      if extendVoteActive {
        var cast := VoteForExtend(slot, connected);
        return Voted(cast);
      }
      if connected < config.minPlayers {
        return NotEnoughPlayers;
      }
      if !windowOpen {
        return OutsideWindow;
      }
      var extended := StartExtendVote(slot, connected);
      res := Started(1, VotesNeeded(connected, config.percentage), extended);
    }

    /** Start the vote with the initiator's vote alone, passing it at once when one vote is enough. */
    method StartExtendVote(initiator: int, connected: nat) returns (extended: bool)
      requires Valid()
      modifies this`extendVotes, this`extendVoteActive, this`hasExtended, this`extensionsThisMap
      ensures !old(hasExtended) ==> Valid()
      ensures old(extendVoteActive) ==> !extended && unchanged(this)
      ensures !old(extendVoteActive) ==>
                extendVotes == {initiator}
                && extended == (!old(hasExtended) && 1 >= VotesNeeded(connected, config.percentage))
                && hasExtended == (old(hasExtended) || extended)
                && extendVoteActive == !extended
    {
      if extendVoteActive {
        return false;
      }
      extendVoteActive := true;
      extendVotes := {initiator};
      var votesNeeded := VotesNeeded(connected, config.percentage);
      var currentVotes := |extendVotes|;
      extended := false;
      if currentVotes >= votesNeeded {
        var minutes;
        extended, minutes := ExtendMap();
      }
    }

    /** A cast: refused without a running vote or from a slot that has voted; otherwise the slot is
        added and the map is extended once the count reaches the threshold. */
    method VoteForExtend(slot: int, connected: nat) returns (res: CastResult)
      requires Valid()
      modifies this`extendVotes, this`extendVoteActive, this`hasExtended, this`extensionsThisMap
      ensures Valid()
      ensures !old(extendVoteActive) ==> res == NoActiveVote && unchanged(this)
      ensures old(extendVoteActive) && slot in old(extendVotes) ==> res == AlreadyVoted && unchanged(this)
      ensures old(extendVoteActive) && slot !in old(extendVotes) ==>
                var needed := VotesNeeded(connected, config.percentage);
                extendVotes == old(extendVotes) + {slot}
                && res == Counted(|extendVotes|, needed, |extendVotes| >= needed)
                && hasExtended == res.extended && extendVoteActive == !res.extended
    {
      if !extendVoteActive {
        return NoActiveVote;
      }
      if slot in extendVotes {
        return AlreadyVoted;
      }
      extendVotes := extendVotes + {slot};
      var votesNeeded := VotesNeeded(connected, config.percentage);
      var currentVotes := |extendVotes|;
      var extended := false;
      if currentVotes >= votesNeeded {
        var minutes;
        extended, minutes := ExtendMap();
      }
      res := Counted(currentVotes, votesNeeded, extended);
    }

    /** Extend the map, once per map: a second call does nothing. The vote stops (its timer is
        killed) and the configured minutes are to be added to the time limit, which is the host's. */
    method ExtendMap() returns (applied: bool, minutes: int)
      requires config.percentage.den > 0 && extensionsThisMap == (if hasExtended then 1 else 0)
      modifies this`hasExtended, this`extendVoteActive, this`extensionsThisMap
      ensures applied == !old(hasExtended)
      ensures minutes == if applied then config.extendTime else 0
      ensures applied ==> Valid()
      ensures applied ==> hasExtended && !extendVoteActive && extensionsThisMap == old(extensionsThisMap) + 1
      ensures !applied ==> unchanged(this)
    {
      if hasExtended {
        return false, 0;
      }
      hasExtended, extendVoteActive := true, false;
      extensionsThisMap := extensionsThisMap + 1;
      applied, minutes := true, config.extendTime;
    }

    /** The vote expires: without a running vote nothing happens; otherwise the vote stops, the map
        is extended when the count reaches the threshold for the players now online, and the votes
        are cleared. */
    method EndExtendVote(connected: nat) returns (extended: bool)
      requires Valid()
      modifies this`extendVotes, this`extendVoteActive, this`hasExtended, this`extensionsThisMap
      ensures Valid()
      ensures !old(extendVoteActive) ==> !extended && unchanged(this)
      ensures old(extendVoteActive) ==>
                !extendVoteActive && extendVotes == {}
                && extended == (|old(extendVotes)| >= VotesNeeded(connected, config.percentage))
                && hasExtended == extended
    {
      if !extendVoteActive {
        return false;
      }
      extendVoteActive := false;
      var votesNeeded := VotesNeeded(connected, config.percentage);
      var currentVotes := |extendVotes|;
      extended := false;
      if currentVotes >= votesNeeded {
        var minutes;
        extended, minutes := ExtendMap();
      }
      extendVotes := {};
    }

    /** A new map: no votes, no running vote, not extended (the vote timer is killed). */
    method OnMapStart()
      requires Valid()
      modifies this`extendVotes, this`extendVoteActive, this`hasExtended, this`extensionsThisMap
      ensures Valid()
      ensures extendVotes == {} && !extendVoteActive && !hasExtended && extensionsThisMap == 0
    {
      extendVotes, extendVoteActive, hasExtended := {}, false, false;
      extensionsThisMap := 0;
    }

    /** A player leaves: their vote is withdrawn, and a running vote is counted again against the
        smaller number of players, which can pass it without a new cast. */
    method OnClientDisconnect(slot: int, connected: nat) returns (extended: bool)
      requires Valid()
      modifies this`extendVotes, this`extendVoteActive, this`hasExtended, this`extensionsThisMap
      ensures Valid()
      ensures extendVotes == old(extendVotes) - {slot}
      ensures extended == (old(extendVoteActive) && |extendVotes| >= VotesNeeded(connected, config.percentage))
      ensures extended ==> hasExtended && !extendVoteActive
      ensures !extended ==> hasExtended == old(hasExtended) && extendVoteActive == old(extendVoteActive)
    {
      extendVotes := extendVotes - {slot};
      extended := false;
      if extendVoteActive {
        var votesNeeded := VotesNeeded(connected, config.percentage);
        var currentVotes := |extendVotes|;
        if currentVotes >= votesNeeded && !hasExtended {
          var minutes;
          extended, minutes := ExtendMap();
        }
      }
    }
  }
}
