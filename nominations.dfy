/**
 * The nominations plugin: a second registry of nominations, kept as two
 * parallel lists, gated by the catalogue's status table (bit 1 = enabled),
 * by the exclude-current rule and by a cap on the number of nominations; and
 * the listings its menus show (tiers with their counts, a tier's maps, or all
 * maps with their tier).
 *
 * The catalogue (names, tiers, status table) and the current map's name are
 * parameters: loading them from the database is the host's.
 */
module Nominations {
  import opened Wrappers
  import opened Text
  import opened Owned

  datatype Config = Config(
    excludeCurrent: bool,  // the current map may not be nominated
    tieredMenu: bool,      // the menu lists tiers first
    maxNominations: int)   // cap on new nominations

  /** The loaded map list: names and tiers at the same index, and each name's status flags. */
  datatype Catalogue = Catalogue(maps: seq<string>, tiers: seq<int>, status: map<string, int>)

  /** The loader appends a name and its tier together, so both lists have the same length. */
  predicate WellFormed(cat: Catalogue) {
    |cat.tiers| == |cat.maps|
  }

  datatype NominateResult = NotFound | AlreadyNominated | Unavailable | Changed(oldMap: string) | LimitReached | Nominated

  /** A line of the tier menu: a tier and how many of its maps can be nominated. */
  datatype TierEntry = TierEntry(tier: int, count: nat)

  /** A line of the simple menu: a map and its tier. */
  datatype MenuEntry = MenuEntry(tier: int, mapName: string)

  /** The nomination menu a player is shown: the tier menu or the simple menu. */
  datatype Menu = TierList(lines: seq<TierEntry>) | MapList(entries: seq<MenuEntry>)

  /** The status bit for an enabled map. */
  const StatusEnabled := 1

  /** A C# `int`, as the 32 bits of its two's-complement representation. */
  function Int32Bits(x: int): bv32
    requires -0x8000_0000 <= x < 0x8000_0000
  {
    (if x < 0 then x + 0x1_0000_0000 else x) as bv32
  }

  /** `(status & 1) != 0`: the lowest bit of the status, which on two's-complement integers is the
      Euclidean remainder by 2. */
  predicate Enabled(status: int): (r: bool)
    ensures -0x8000_0000 <= status < 0x8000_0000 ==> (r <==> Int32Bits(status) & 1 != 0)
  {
    if -0x8000_0000 <= status < 0x8000_0000 then
      LowBit(status);
      status % 2 == StatusEnabled
    else
      status % 2 == StatusEnabled
  }

  /** Bit 0 of a 32-bit two's-complement value is its remainder by 2. */
  lemma LowBit(x: int)
    requires -0x8000_0000 <= x < 0x8000_0000
    ensures Int32Bits(x) & 1 != 0 <==> x % 2 == 1
  {
    var u := if x < 0 then x + 0x1_0000_0000 else x;
    assert u % 2 == x % 2;
    assert (u as bv32) & 1 == (u % 2) as bv32;
  }

  /** `_mapList.Contains(name, StringComparer.OrdinalIgnoreCase)` */
  predicate InCatalogue(maps: seq<string>, name: string): (r: bool)
    ensures name in maps ==> r
  {
    exists i | 0 <= i < |maps| :: EqualsIgnoreCase(maps[i], name)
  }

  /** Catalogue membership depends only on the name up to case. */
  lemma InCatalogueIgnoresCase(maps: seq<string>, a: string, b: string)
    requires EqualsIgnoreCase(a, b)
    ensures InCatalogue(maps, a) <==> InCatalogue(maps, b)
  {
    if InCatalogue(maps, a) {
      var i :| 0 <= i < |maps| && EqualsIgnoreCase(maps[i], a);
      assert EqualsIgnoreCase(maps[i], b);
    }
    if InCatalogue(maps, b) {
      var i :| 0 <= i < |maps| && EqualsIgnoreCase(maps[i], b);
      assert EqualsIgnoreCase(maps[i], a);
    }
  }

  /** The tier menu has a line for tier t. */
  predicate HasLine(r: seq<TierEntry>, t: int) {
    exists j :: 0 <= j < |r| && r[j].tier == t
  }

  predicate Increasing(s: seq<int>) {
    forall a, b :: 0 <= a < b < |s| ==> s[a] < s[b]
  }

  /** x added to an increasing list, keeping it increasing and free of repetitions. */
  function Insert(s: seq<int>, x: int): (r: seq<int>)
    requires Increasing(s)
    ensures Increasing(r)
    ensures forall t :: t in r <==> t in s || t == x
  {
    if s == [] then [x]
    else if x < s[0] then [x] + s
    else if x == s[0] then s
    else
      var rest := Insert(s[1..], x);
      assert forall b :: 0 <= b < |rest| ==> rest[b] in s[1..] || rest[b] == x;
      [s[0]] + rest
  }

  /** `tiers.Distinct().OrderBy(x => x)`: every tier once, in ascending order. */
  function SortedTiers(tiers: seq<int>): (r: seq<int>)
    ensures Increasing(r)
    ensures forall t :: t in r <==> t in tiers
  {
    if tiers == [] then [] else Insert(SortedTiers(tiers[1..]), tiers[0])
  }

  /** The tier menu's lines for the given ascending tiers: each tier whose count of available maps
      is positive, with that count. */
  function TierEntries(ts: seq<int>, counts: map<int, nat>): (r: seq<TierEntry>)
    requires Increasing(ts) && forall t :: t in ts ==> t in counts
    ensures forall a, b :: 0 <= a < b < |r| ==> r[a].tier < r[b].tier
    ensures forall j :: 0 <= j < |r| ==> r[j].tier in ts && r[j].tier in counts && r[j].count == counts[r[j].tier] > 0
  {
    if ts == [] then []
    else
      var rest := TierEntries(ts[1..], counts);
      assert forall j :: 0 <= j < |rest| ==> ts[0] < rest[j].tier;
      if counts[ts[0]] > 0 then [TierEntry(ts[0], counts[ts[0]])] + rest else rest
  }

  /** Every tier of the list with available maps gets a line. */
  lemma {:induction false} TierEntriesComplete(ts: seq<int>, counts: map<int, nat>, t: int)
    requires Increasing(ts) && forall t :: t in ts ==> t in counts
    requires t in ts && counts[t] > 0
    ensures HasLine(TierEntries(ts, counts), t)
  {
    var r := TierEntries(ts, counts);
    var rest := TierEntries(ts[1..], counts);
    if t == ts[0] {
      assert r[0].tier == t;
    } else {
      assert t in ts[1..];
      TierEntriesComplete(ts[1..], counts, t);
      var j :| 0 <= j < |rest| && rest[j].tier == t;
      if counts[ts[0]] > 0 {
        assert r[j + 1] == rest[j];
      } else {
        assert r[j] == rest[j];
      }
    }
  }

  class NominationsPlugin {
    const config: Config

    var nominatedMaps: seq<string>
    var nominatedBy: seq<int>

    /** The most nominations the cap lets in. */
    function Cap(): nat {
      if config.maxNominations > 0 then config.maxNominations else 0
    }

    /** Parallel lists of equal length, no map or slot twice, never more entries than the cap. */
    ghost predicate Valid()
      reads this
    {
      |nominatedMaps| == |nominatedBy|
      && Distinct(nominatedMaps) && Distinct(nominatedBy)
      && |nominatedMaps| <= Cap()
    }

    constructor (config: Config)
      ensures Valid()
      ensures this.config == config && nominatedMaps == [] && nominatedBy == []
    {
      this.config := config;
      nominatedMaps, nominatedBy := [], [];
    }

    /** A map can be nominated when it is not nominated yet, is not the current map (compared
        ignoring case, when that rule is on), and has a status entry, under its exact name, whose
        enabled bit is set. */
    predicate IsMapAvailable(mapName: string, cat: Catalogue, currentMap: string): (r: bool)
      reads this
      ensures r <==> mapName !in nominatedMaps
                     && !(config.excludeCurrent && EqualsIgnoreCase(currentMap, mapName))
                     && mapName in cat.status && Enabled(cat.status[mapName])
    {
      if mapName in nominatedMaps then false
      else if config.excludeCurrent && EqualsIgnoreCase(currentMap, mapName) then false
      else if mapName in cat.status then Enabled(cat.status[mapName])
      else false
    }

    /** Catalogue entry i is listed under the tier filter (all tiers when None). */
    predicate Shows(cat: Catalogue, currentMap: string, tier: Option<int>, i: nat)
      reads this
      requires WellFormed(cat) && i < |cat.maps|
    {
      (tier.None? || cat.tiers[i] == tier.value) && IsMapAvailable(cat.maps[i], cat, currentMap)
    }

    /** The indices below n of the entries a listing shows: exactly those passing the filter, in
        catalogue order. */
    function Listed(cat: Catalogue, currentMap: string, tier: Option<int>, n: nat): (r: seq<nat>)
      reads this
      requires WellFormed(cat) && n <= |cat.maps|
      ensures forall j :: 0 <= j < |r| ==> r[j] < n && Shows(cat, currentMap, tier, r[j])
      ensures forall i :: 0 <= i < n && Shows(cat, currentMap, tier, i) ==> i in r
      ensures forall a, b :: 0 <= a < b < |r| ==> r[a] < r[b]
    {
      if n == 0 then []
      else
        var r := Listed(cat, currentMap, tier, n - 1);
        if Shows(cat, currentMap, tier, n - 1) then r + [n - 1] else r
    }

    /** A listing of the entries below n has at most n of them. */
    lemma {:induction false} ListedBound(cat: Catalogue, currentMap: string, tier: Option<int>, n: nat)
      requires WellFormed(cat) && n <= |cat.maps|
      ensures |Listed(cat, currentMap, tier, n)| <= n
    {
      if n > 0 {
        ListedBound(cat, currentMap, tier, n - 1);
      }
    }

    /** `Where((map, index) => tiers[index] == tier && IsMapAvailable(map)).Count()`: the length of
        the tier's map listing. */
    function TierCount(cat: Catalogue, currentMap: string, tier: int): (r: nat)
      reads this
      requires WellFormed(cat)
      ensures r <= |cat.maps|
      ensures r == 0 <==> forall i :: 0 <= i < |cat.maps| && cat.tiers[i] == tier ==>
                                      !IsMapAvailable(cat.maps[i], cat, currentMap)
    {
      var shown := Listed(cat, currentMap, Some(tier), |cat.maps|);
      ListedBound(cat, currentMap, Some(tier), |cat.maps|);
      assert |shown| == 0 <==> forall i :: 0 <= i < |cat.maps| && cat.tiers[i] == tier ==>
                                         !IsMapAvailable(cat.maps[i], cat, currentMap)
      by {
        if shown != [] {
          assert Shows(cat, currentMap, Some(tier), shown[0]);
        }
        forall i | 0 <= i < |cat.maps| && cat.tiers[i] == tier && IsMapAvailable(cat.maps[i], cat, currentMap)
          ensures shown != []
        {
          assert Shows(cat, currentMap, Some(tier), i);
        }
      }
      |shown|
    }

    /**
     * The tier menu: the catalogue's tiers in ascending order, each once, with the number of its
     * maps that can be nominated; a tier without any is not shown, and every tier with one is.
     */
    function TierMenu(cat: Catalogue, currentMap: string): (r: seq<TierEntry>)
      reads this
      requires WellFormed(cat)
      ensures forall a, b :: 0 <= a < b < |r| ==> r[a].tier < r[b].tier
      ensures forall j :: 0 <= j < |r| ==>
                r[j].tier in cat.tiers && r[j].count == TierCount(cat, currentMap, r[j].tier) > 0
      ensures forall i :: 0 <= i < |cat.maps| && IsMapAvailable(cat.maps[i], cat, currentMap) ==>
                HasLine(r, cat.tiers[i])
    {
      var ts := SortedTiers(cat.tiers);
      var counts := map t | t in cat.tiers :: TierCount(cat, currentMap, t);
      var r := TierEntries(ts, counts);
      assert forall i :: 0 <= i < |cat.maps| && IsMapAvailable(cat.maps[i], cat, currentMap) ==>
               HasLine(r, cat.tiers[i])
      by {
        forall i | 0 <= i < |cat.maps| && IsMapAvailable(cat.maps[i], cat, currentMap)
          ensures HasLine(r, cat.tiers[i])
        {
          assert Shows(cat, currentMap, Some(cat.tiers[i]), i);
          assert i in Listed(cat, currentMap, Some(cat.tiers[i]), |cat.maps|);
          TierEntriesComplete(ts, counts, cat.tiers[i]);
        }
      }
      r
    }

    /** A tier's map menu: the available catalogue entries of that tier, in catalogue order. */
    method TierMaps(cat: Catalogue, currentMap: string, tier: int) returns (options: seq<string>)
      requires WellFormed(cat)
      ensures var shown := Listed(cat, currentMap, Some(tier), |cat.maps|);
              |options| == |shown| && forall j :: 0 <= j < |shown| ==> options[j] == cat.maps[shown[j]]
    {
      options := [];
      for i := 0 to |cat.maps|
        invariant var shown := Listed(cat, currentMap, Some(tier), i);
                  |options| == |shown| && forall j :: 0 <= j < |shown| ==> options[j] == cat.maps[shown[j]]
      {
        if cat.tiers[i] == tier && IsMapAvailable(cat.maps[i], cat, currentMap) {
          options := options + [cat.maps[i]];
        }
      }
    }

    /** The menu without tiers: every available catalogue entry with its tier, in catalogue order. */
    method SimpleMenu(cat: Catalogue, currentMap: string) returns (options: seq<MenuEntry>)
      requires WellFormed(cat)
      ensures var shown := Listed(cat, currentMap, None, |cat.maps|);
              |options| == |shown|
              && forall j :: 0 <= j < |shown| ==> options[j] == MenuEntry(cat.tiers[shown[j]], cat.maps[shown[j]])
    {
      options := [];
      for i := 0 to |cat.maps|
        invariant var shown := Listed(cat, currentMap, None, i);
                  |options| == |shown|
                  && forall j :: 0 <= j < |shown| ==> options[j] == MenuEntry(cat.tiers[shown[j]], cat.maps[shown[j]])
      {
        if IsMapAvailable(cat.maps[i], cat, currentMap) {
          options := options + [MenuEntry(cat.tiers[i], cat.maps[i])];
        }
      }
    }

    /** css_nominate without a map name: the tier menu when the tiered menu is configured,
        otherwise the simple menu. */
    method ShowNominationMenu(cat: Catalogue, currentMap: string) returns (menu: Menu)
      requires WellFormed(cat)
      ensures config.tieredMenu ==> menu == TierList(TierMenu(cat, currentMap))
      ensures !config.tieredMenu ==>
                var shown := Listed(cat, currentMap, None, |cat.maps|);
                menu.MapList? && |menu.entries| == |shown|
                && forall j :: 0 <= j < |shown| ==>
                     menu.entries[j] == MenuEntry(cat.tiers[shown[j]], cat.maps[shown[j]])
    {
      if config.tieredMenu {
        menu := TierList(TierMenu(cat, currentMap));
      } else {
        var entries := SimpleMenu(cat, currentMap);
        menu := MapList(entries);
      }
    }

    /**
     * css_nominate with a map name: the name must match a catalogue entry ignoring case, must not
     * be nominated already and must be available (its exact name carrying the enabled bit). A player
     * with a nomination has it replaced in place, cap or no cap; otherwise the nomination is appended
     * unless the cap is reached.
     */
    method AttemptNominate(slot: int, mapName: string, cat: Catalogue, currentMap: string)
      returns (res: NominateResult)
      requires Valid()
      modifies this`nominatedMaps, this`nominatedBy
      ensures Valid()
      ensures !InCatalogue(cat.maps, mapName) ==> res == NotFound
      ensures InCatalogue(cat.maps, mapName) && mapName in old(nominatedMaps) ==> res == AlreadyNominated
      ensures (InCatalogue(cat.maps, mapName) && mapName !in old(nominatedMaps)
               && !old(IsMapAvailable(mapName, cat, currentMap))) ==> res == Unavailable
      ensures InCatalogue(cat.maps, mapName) && old(IsMapAvailable(mapName, cat, currentMap)) ==>
                if slot in old(nominatedBy) then
                  var i := IndexOf(old(nominatedBy), slot);
                  res == Changed(old(nominatedMaps)[i])
                  && nominatedMaps == old(nominatedMaps)[i := mapName] && nominatedBy == old(nominatedBy)
                else if |old(nominatedMaps)| >= config.maxNominations then
                  res == LimitReached
                else
                  res == Nominated
                  && nominatedMaps == old(nominatedMaps) + [mapName] && nominatedBy == old(nominatedBy) + [slot]
      ensures !(res.Changed? || res.Nominated?) ==>
                nominatedMaps == old(nominatedMaps) && nominatedBy == old(nominatedBy)
      ensures res.Changed? || res.Nominated? ==>
                mapName in nominatedMaps && mapName in cat.status && Enabled(cat.status[mapName])
      ensures res.Changed? || res.Nominated? ==> !IsMapAvailable(mapName, cat, currentMap)
    {
      if !InCatalogue(cat.maps, mapName) {
        return NotFound;
      }
      if mapName in nominatedMaps {
        return AlreadyNominated;
      }
      if !IsMapAvailable(mapName, cat, currentMap) {
        return Unavailable;
      }
      if slot in nominatedBy {
        var existingIndex := IndexOf(nominatedBy, slot);
        if existingIndex < |nominatedMaps| {
          var oldMap := nominatedMaps[existingIndex];
          nominatedMaps := nominatedMaps[existingIndex := mapName];
          assert nominatedMaps[existingIndex] == mapName;
          return Changed(oldMap);
        }
      }
      if |nominatedMaps| >= config.maxNominations {
        return LimitReached;
      }
      nominatedMaps := nominatedMaps + [mapName];
      nominatedBy := nominatedBy + [slot];
      res := Nominated;
    }

    /** A new map: both lists emptied (the catalogue is reloaded by the host). */
    method OnMapStart()
      requires Valid()
      modifies this`nominatedMaps, this`nominatedBy
      ensures Valid() && nominatedMaps == [] && nominatedBy == []
    {
      nominatedMaps, nominatedBy := [], [];
    }

    /** A player leaves: their entry is removed from both lists, the rest keep their order. */
    method OnClientDisconnect(slot: int) returns (removed: Option<string>)
      requires Valid()
      modifies this`nominatedMaps, this`nominatedBy
      ensures Valid()
      ensures slot !in old(nominatedBy) ==>
                removed == None && nominatedMaps == old(nominatedMaps) && nominatedBy == old(nominatedBy)
      ensures slot in old(nominatedBy) ==>
                var i := IndexOf(old(nominatedBy), slot);
                removed == Some(old(nominatedMaps)[i])
                && nominatedMaps == RemoveAt(old(nominatedMaps), i)
                && nominatedBy == RemoveAt(old(nominatedBy), i)
      ensures slot !in nominatedBy
    {
      if slot in nominatedBy {
        LastIndexOfDistinct(nominatedBy, slot);
        RemoveAtDistinct(nominatedMaps, IndexOf(nominatedBy, slot));
        RemoveAtDistinct(nominatedBy, IndexOf(nominatedBy, slot));
      }
      nominatedMaps, nominatedBy, removed := RemoveOwned(nominatedMaps, nominatedBy, slot);
    }

    /** The nominated maps handed to the map chooser: a copy of the list, so no map twice and no
        more than the cap. */
    method GetNominatedMaps() returns (r: seq<string>)
      requires Valid()
      ensures r == nominatedMaps && Distinct(r) && |r| <= Cap()
    {
      r := nominatedMaps;
    }

    /** The nominating slots, index for index with the maps: a copy of the list, no slot twice. */
    method GetNominatedBy() returns (r: seq<int>)
      requires Valid()
      ensures r == nominatedBy && Distinct(r) && |r| == |nominatedMaps|
    {
      r := nominatedBy;
    }
  }
}
