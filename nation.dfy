/** `Nation(name, data=...)` and `Nation.all(data=...)` (pythmc/nation.py;
    pythmc/aurora/nation_.py is the same class). */
module Nations {
  import opened Wrappers
  import opened PyStr
  import opened Fetch
  import opened Entities

  /** Every town's description has a first token. */
  predicate NoEmptyDesc(towns: seq<(string, Area)>) {
    forall i :: 0 <= i < |towns| ==> TokensOf(towns[i].1.desc) != []
  }

  /** Town `a` claims the nation `name` in the nation's own reading. */
  predicate Claims(a: Area, name: string) {
    TokensOf(a.desc) != [] && NationNameOf(TokensOf(a.desc)[0]) == name
  }

  /** Some town claims the nation `name`. */
  ghost predicate Claimed(towns: seq<(string, Area)>, name: string) {
    exists k :: 0 <= k < |towns| && Claims(towns[k].1, name)
  }

  /** `[town for town in data[0] if ...split(" (")[-1] == name]`: the keys of
      the towns that claim the nation, in map order; an `IndexError` if any
      town has an empty description. */
  function NationKeys(towns: seq<(string, Area)>, name: string): (r: Result<seq<string>, Error>)
    ensures r.Failure? <==> !NoEmptyDesc(towns)
    ensures r.Failure? ==> r.error == MissingToken
    ensures r.Success? ==> |r.value| <= |towns|
    ensures r.Success? ==> forall k :: k in r.value <==>
              exists i :: 0 <= i < |towns| && towns[i].0 == k && Claims(towns[i].1, name)
  {
    if towns == [] then Success([])
    else if TokensOf(towns[0].1.desc) == [] then Failure(MissingToken)
    else
      var rest := NationKeys(towns[1..], name);
      assert forall i :: 1 <= i < |towns| ==> towns[i] == towns[1..][i - 1];
      if rest.Failure? then
        var i :| 0 <= i < |towns[1..]| && TokensOf(towns[1..][i].1.desc) == [];
        assert TokensOf(towns[i + 1].1.desc) == [];
        Failure(MissingToken)
      else if Claims(towns[0].1, name) then Success([towns[0].0] + rest.value)
      else Success(rest.value)
  }

  /** The towns of a nation, each built by `Town._with_nation` in map
      order; the first failure ends the comprehension. */
  function TownsWithNation(snap: Snapshot, keys: seq<string>, name: string): (r: Result<seq<Town>, Error>)
    ensures r.Success? ==> |r.value| == |keys|
    ensures r.Success? ==> forall j :: 0 <= j < |keys| ==> TownWithNation(snap, keys[j], name) == Success(r.value[j])
    ensures r.Failure? ==> exists j :: 0 <= j < |keys| && TownWithNation(snap, keys[j], name) == Failure(r.error)
  {
    MapResult((k: string) => TownWithNation(snap, k, name), keys)
  }

  /** Every town built for a nation carries it and is coherent. */
  lemma TownsWithNationMembers(snap: Snapshot, keys: seq<string>, name: string)
    requires TownsWithNation(snap, keys, name).Success?
    ensures forall t :: t in TownsWithNation(snap, keys, name).value ==> t.nation == Some(name) && Coherent(t)
  {
    var towns := TownsWithNation(snap, keys, name).value;
    forall t | t in towns
      ensures t.nation == Some(name) && Coherent(t)
    {
      var j :| 0 <= j < |towns| && towns[j] == t;
      assert TownWithNation(snap, keys[j], name) == Success(t);
    }
  }

  /** `Nation(name, data=data)` */
  function BuildNation(snap: Snapshot, name: string): (r: Result<Nation, Error>)
    ensures r.Success? ==> r.value.name == name && name != "" && |r.value.towns| > 0
    ensures r.Success? ==> forall t :: t in r.value.towns ==> t.nation == Some(name) && Coherent(t)
    ensures r.Success? ==> r.value.capital in r.value.towns && r.value.capital.flags.capital
    ensures r.Success? ==>
              exists c :: 0 <= c < |r.value.towns| && r.value.towns[c] == r.value.capital
                && forall j :: 0 <= j < c ==> !r.value.towns[j].flags.capital
    ensures r.Success? ==> r.value.leader == r.value.capital.mayor && r.value.colour == r.value.capital.colour
    ensures r.Success? ==> r.value.citizens == Citizens(r.value.towns) && r.value.area == TotalArea(r.value.towns)
    ensures r.Success? ==> (NationKeys(snap.towns, name).Success?
              && TownsWithNation(snap, NationKeys(snap.towns, name).value, name) == Success(r.value.towns))
  {
    var keys :- NationKeys(snap.towns, name);
    if |keys| == 0 || name == "" then Failure(NationNotFound)
    else
      var towns :- TownsWithNation(snap, keys, name);
      TownsWithNationMembers(snap, keys, name);
      match FirstCapital(towns)
      case None => Failure(NoCapital)
      case Some(c) =>
        var capital := towns[c];
        assert capital in towns;
        Success(Nation(name, towns, capital, capital.mayor, capital.colour, Citizens(towns), TotalArea(towns)))
  }

  // ------------------------------------------------------ Nation.all

  /** The nation each town claims, in map order; an `IndexError` if any town
      has an empty description. */
  function ClaimedNames(towns: seq<(string, Area)>): (r: Result<seq<string>, Error>)
    ensures r.Failure? <==> !NoEmptyDesc(towns)
    ensures r.Failure? ==> r.error == MissingToken
    ensures r.Success? ==> |r.value| == |towns|
    ensures r.Success? ==> forall i :: 0 <= i < |towns| ==> Claims(towns[i].1, r.value[i])
  {
    if towns == [] then Success([])
    else if TokensOf(towns[0].1.desc) == [] then Failure(MissingToken)
    else
      var rest := ClaimedNames(towns[1..]);
      assert forall i :: 1 <= i < |towns| ==> towns[i] == towns[1..][i - 1];
      if rest.Failure? then
        var i :| 0 <= i < |towns[1..]| && TokensOf(towns[1..][i].1.desc) == [];
        assert TokensOf(towns[i + 1].1.desc) == [];
        Failure(MissingToken)
      else Success([NationNameOf(TokensOf(towns[0].1.desc)[0])] + rest.value)
  }

  /** The set of names less the empty one, listed in order of first
      appearance. */
  function Distinct(names: seq<string>): (r: seq<string>)
    ensures forall i, j :: 0 <= i < j < |r| ==> r[i] != r[j]
    ensures forall n :: n in r <==> n in names && n != ""
    decreases |names|
  {
    if names == [] then []
    else
      var front := Distinct(names[..|names| - 1]);
      var n := names[|names| - 1];
      assert names == names[..|names| - 1] + [n];
      if n == "" || n in front then front else front + [n]
  }

  /** Each non-empty name a town claims, once. */
  function NationNames(snap: Snapshot): (r: Result<seq<string>, Error>)
    ensures r.Failure? <==> !NoEmptyDesc(snap.towns)
    ensures r.Failure? ==> r.error == MissingToken
    ensures r.Success? ==> forall i :: 0 <= i < |r.value| ==> r.value[i] != ""
  {
    match ClaimedNames(snap.towns)
    case Failure(e) => Failure(e)
    case Success(claimed) =>
      var d := Distinct(claimed);
      assert forall i :: 0 <= i < |d| ==> d[i] in d;
      Success(d)
  }

  /** `Nation.all(data=data)`: a nation for every non-empty name a town
      claims, built in order of first claim. */
  function NationAll(snap: Snapshot): (r: Result<seq<Nation>, Error>)
    ensures !NoEmptyDesc(snap.towns) ==> r == Failure(MissingToken)
    ensures r.Success? ==> NationNames(snap).Success? && |r.value| == |NationNames(snap).value|
    ensures r.Success? ==> forall i :: 0 <= i < |r.value| ==> r.value[i].name == NationNames(snap).value[i]
  {
    var names :- NationNames(snap);
    NationsNamed(snap, names)
  }

  /** The nations of `Nation.all` are those their names build, and a
      failure is the failure of some name. */
  lemma NationAllBuilds(snap: Snapshot)
    requires NoEmptyDesc(snap.towns)
    ensures NationNames(snap).Success?
    ensures NationAll(snap).Success? ==> forall i :: 0 <= i < |NationAll(snap).value| ==>
              BuildNation(snap, NationNames(snap).value[i]) == Success(NationAll(snap).value[i])
    ensures NationAll(snap).Failure? ==>
              exists i :: 0 <= i < |NationNames(snap).value| &&
                BuildNation(snap, NationNames(snap).value[i]) == Failure(NationAll(snap).error)
  {
  }

  /** `[Nation(n, data=data) for n in names]`, stopping at the first failure. */
  function NationsNamed(snap: Snapshot, names: seq<string>): (r: Result<seq<Nation>, Error>)
    ensures r.Success? ==> |r.value| == |names|
    ensures r.Success? ==> forall i :: 0 <= i < |names| ==> BuildNation(snap, names[i]) == Success(r.value[i])
    ensures r.Failure? ==> exists i :: 0 <= i < |names| && BuildNation(snap, names[i]) == Failure(r.error)
  {
    MapResult((n: string) => BuildNation(snap, n), names)
  }

  lemma NationNamesValue(snap: Snapshot)
    requires NationNames(snap).Success?
    ensures ClaimedNames(snap.towns).Success?
    ensures NationNames(snap).value == Distinct(ClaimedNames(snap.towns).value)
  {
  }

  /** The names `Nation.all` builds: each once, exactly the non-empty names
      the towns claim. */
  lemma NationNamesMeaning(snap: Snapshot)
    requires NationNames(snap).Success?
    ensures forall i, j :: 0 <= i < j < |NationNames(snap).value| ==>
              NationNames(snap).value[i] != NationNames(snap).value[j]
    ensures forall i :: 0 <= i < |NationNames(snap).value| ==>
              NationNames(snap).value[i] != "" && Claimed(snap.towns, NationNames(snap).value[i])
    ensures forall k, n :: 0 <= k < |snap.towns| && Claims(snap.towns[k].1, n) && n != "" ==>
              n in NationNames(snap).value
  {
    NationNamesValue(snap);
    DistinctClaims(snap.towns, ClaimedNames(snap.towns).value);
  }

  /** Listing each claimed name once keeps exactly the claimed names. */
  lemma DistinctClaims(towns: seq<(string, Area)>, claimed: seq<string>)
    requires |claimed| == |towns| && forall i :: 0 <= i < |towns| ==> Claims(towns[i].1, claimed[i])
    ensures forall i :: 0 <= i < |Distinct(claimed)| ==> Claimed(towns, Distinct(claimed)[i])
    ensures forall k, n :: 0 <= k < |towns| && Claims(towns[k].1, n) && n != "" ==> n in Distinct(claimed)
  {
    var names := Distinct(claimed);
    forall i | 0 <= i < |names|
      ensures Claimed(towns, names[i])
    {
      assert names[i] in names;
      var k :| 0 <= k < |claimed| && claimed[k] == names[i];
      assert Claims(towns[k].1, names[i]);
    }
    forall k, n | 0 <= k < |towns| && Claims(towns[k].1, n) && n != ""
      ensures n in names
    {
      assert claimed[k] == n;
    }
  }

  /** `Nation.all` lists each nation once, and has one for every non-empty
      name a town claims. */
  lemma NationAllNames(snap: Snapshot)
    requires NationAll(snap).Success?
    ensures forall i, j :: 0 <= i < j < |NationAll(snap).value| ==>
              NationAll(snap).value[i].name != NationAll(snap).value[j].name
    ensures forall i :: 0 <= i < |NationAll(snap).value| ==>
              Claimed(snap.towns, NationAll(snap).value[i].name)
    ensures forall k, n :: 0 <= k < |snap.towns| && Claims(snap.towns[k].1, n) && n != "" ==>
              exists i :: 0 <= i < |NationAll(snap).value| && NationAll(snap).value[i].name == n
  {
    var nations := NationAll(snap).value;
    var names := NationNames(snap).value;
    NationNamesMeaning(snap);
    NamedAfter(snap.towns, nations, names);
  }

  /** Nations named, one for one, after a list of names with the three
      properties of `NationNames` have those properties themselves. */
  lemma NamedAfter(towns: seq<(string, Area)>, nations: seq<Nation>, names: seq<string>)
    requires |nations| == |names| && forall i :: 0 <= i < |nations| ==> nations[i].name == names[i]
    requires forall i, j :: 0 <= i < j < |names| ==> names[i] != names[j]
    requires forall i :: 0 <= i < |names| ==> Claimed(towns, names[i])
    requires forall k, n :: 0 <= k < |towns| && Claims(towns[k].1, n) && n != "" ==> n in names
    ensures forall i, j :: 0 <= i < j < |nations| ==> nations[i].name != nations[j].name
    ensures forall i :: 0 <= i < |nations| ==> Claimed(towns, nations[i].name)
    ensures forall k, n :: 0 <= k < |towns| && Claims(towns[k].1, n) && n != "" ==>
              exists i :: 0 <= i < |nations| && nations[i].name == n
  {
    forall i | 0 <= i < |nations|
      ensures Claimed(towns, nations[i].name)
    {
      assert Claimed(towns, names[i]);
    }
    forall k, n | 0 <= k < |towns| && Claims(towns[k].1, n) && n != ""
      ensures exists i :: 0 <= i < |nations| && nations[i].name == n
    {
      assert n in names;
      var i :| 0 <= i < |names| && names[i] == n;
      assert nations[i].name == n;
    }
  }

  // ---------------------------------------------------------- lemmas

  /** `NationNotFoundException` is raised exactly when every town has a
      first token and either the name is empty or no town claims it. */
  lemma NationNotFoundIff(snap: Snapshot, name: string)
    ensures BuildNation(snap, name) == Failure(NationNotFound) <==>
              NoEmptyDesc(snap.towns) && (name == "" || forall i :: 0 <= i < |snap.towns| ==> !Claims(snap.towns[i].1, name))
  {
    var keys := NationKeys(snap.towns, name);
    if keys.Success? {
      if |keys.value| == 0 {
        NoKeysNoClaimant(snap.towns, name);
      } else {
        assert keys.value[0] in keys.value;
        if name != "" {
          PastTheFilter(snap, name);
        }
      }
    }
  }

  /** The filter keeps no key only when no town claims the nation. */
  lemma NoKeysNoClaimant(towns: seq<(string, Area)>, name: string)
    requires NationKeys(towns, name) == Success([])
    ensures forall i :: 0 <= i < |towns| ==> !Claims(towns[i].1, name)
  {
    forall i | 0 <= i < |towns| && Claims(towns[i].1, name)
      ensures towns[i].0 in NationKeys(towns, name).value
    {
    }
  }

  /** Once the filter keeps a town and the name is not empty, the
      constructor gets past `NationNotFoundException`. */
  lemma PastTheFilter(snap: Snapshot, name: string)
    requires NationKeys(snap.towns, name).Success? && |NationKeys(snap.towns, name).value| > 0 && name != ""
    ensures BuildNation(snap, name) != Failure(NationNotFound)
  {
    TownsWithNationErrors(snap, NationKeys(snap.towns, name).value, name);
  }

  /** The towns a nation's filter keeps and builds, when both succeed. */
  predicate TownsBuilt(snap: Snapshot, name: string) {
    var keys := NationKeys(snap.towns, name);
    keys.Success? && |keys.value| > 0 && name != "" && TownsWithNation(snap, keys.value, name).Success?
  }

  /** `next` finds no flagged town exactly when the filter keeps some
      town, the name is non-empty, every kept town builds and none of them
      is flagged as the capital. */
  lemma NoCapitalIff(snap: Snapshot, name: string)
    ensures BuildNation(snap, name) == Failure(NoCapital) <==>
              TownsBuilt(snap, name)
              && forall t :: t in TownsWithNation(snap, NationKeys(snap.towns, name).value, name).value ==> !t.flags.capital
  {
    if TownsBuilt(snap, name) {
      NoCapitalWhenBuilt(snap, name);
    } else {
      NoCapitalOnlyWhenBuilt(snap, name);
    }
  }

  /** Once the towns are built, NoCapital means no town is flagged. */
  lemma NoCapitalWhenBuilt(snap: Snapshot, name: string)
    requires TownsBuilt(snap, name)
    ensures var towns := TownsWithNation(snap, NationKeys(snap.towns, name).value, name).value;
      BuildNation(snap, name) == Failure(NoCapital) <==> forall t :: t in towns ==> !t.flags.capital
  {
    var towns := TownsWithNation(snap, NationKeys(snap.towns, name).value, name).value;
    if FirstCapital(towns).Some? {
      assert towns[FirstCapital(towns).value] in towns;
    } else {
      forall t | t in towns
        ensures !t.flags.capital
      {
        var j :| 0 <= j < |towns| && towns[j] == t;
      }
    }
  }

  /** Before the towns are built, a nation fails otherwise than NoCapital. */
  lemma NoCapitalOnlyWhenBuilt(snap: Snapshot, name: string)
    requires !TownsBuilt(snap, name)
    ensures BuildNation(snap, name) != Failure(NoCapital)
  {
    var keys := NationKeys(snap.towns, name);
    if keys.Success? && |keys.value| > 0 && name != "" {
      TownsWithNationErrors(snap, keys.value, name);
    }
  }

  /** A nation that cannot find a town failed while building its towns. */
  lemma TownNotFoundIsATown(snap: Snapshot, name: string)
    requires BuildNation(snap, name) == Failure(TownNotFound)
    ensures NationKeys(snap.towns, name).Success?
    ensures TownsWithNation(snap, NationKeys(snap.towns, name).value, name) == Failure(TownNotFound)
  {
    var keys := NationKeys(snap.towns, name);
    assert keys.Success?;
    assert |keys.value| > 0 && name != "";
    var towns := TownsWithNation(snap, keys.value, name);
    assert towns.Success? ==> BuildNation(snap, name).Success? || BuildNation(snap, name) == Failure(NoCapital);
  }

  /** Building the towns of a nation fails only as building one town does. */
  lemma TownsWithNationErrors(snap: Snapshot, keys: seq<string>, name: string)
    ensures TownsWithNation(snap, keys, name).Failure? ==>
              TownsWithNation(snap, keys, name).error in {TownNotFound, MissingToken, BadGeometry}
  {
    var towns := TownsWithNation(snap, keys, name);
    if towns.Failure? {
      var j :| 0 <= j < |keys| && TownWithNation(snap, keys[j], name) == Failure(towns.error);
    }
  }

  /** A key the nation filter keeps is a key of the map, in lower case, of
      a town that claims the nation. */
  lemma ClaimantKey(snap: Snapshot, name: string, k: string)
    requires Keyed(snap.towns) && NationKeys(snap.towns, name).Success? && k in NationKeys(snap.towns, name).value
    ensures Lower(k) == k && HasKey(snap.towns, k) && Claims(Lookup(snap.towns, k).value, name)
  {
    var i :| 0 <= i < |snap.towns| && snap.towns[i].0 == k && Claims(snap.towns[i].1, name);
    LowerOfLower(k);
    LookupEntry(snap.towns, i);
  }

  /** With keys as `get_data` leaves them, a nation's towns are exactly the
      towns that claim it, one per key. */
  lemma NationTowns(snap: Snapshot, name: string)
    requires Keyed(snap.towns) && BuildNation(snap, name).Success?
    ensures forall t :: t in BuildNation(snap, name).value.towns ==>
              HasKey(snap.towns, t.key) && Claims(Lookup(snap.towns, t.key).value, name)
    ensures forall i :: 0 <= i < |snap.towns| && Claims(snap.towns[i].1, name) ==>
              exists t :: t in BuildNation(snap, name).value.towns && t.key == snap.towns[i].0
  {
    var keys := NationKeys(snap.towns, name).value;
    var towns := BuildNation(snap, name).value.towns;
    TownsOfClaimants(snap, name, keys, towns);
    ClaimantsHaveTowns(snap, name, keys, towns);
  }

  /** Each town built from the filtered keys claims the nation. */
  lemma TownsOfClaimants(snap: Snapshot, name: string, keys: seq<string>, towns: seq<Town>)
    requires Keyed(snap.towns) && NationKeys(snap.towns, name) == Success(keys)
    requires TownsWithNation(snap, keys, name) == Success(towns)
    ensures forall t :: t in towns ==> HasKey(snap.towns, t.key) && Claims(Lookup(snap.towns, t.key).value, name)
  {
    forall t | t in towns
      ensures HasKey(snap.towns, t.key) && Claims(Lookup(snap.towns, t.key).value, name)
    {
      var j :| 0 <= j < |towns| && towns[j] == t;
      assert TownWithNation(snap, keys[j], name) == Success(t);
      assert keys[j] in keys;
      ClaimantKey(snap, name, keys[j]);
    }
  }

  /** Each town that claims the nation is built from the filtered keys. */
  lemma ClaimantsHaveTowns(snap: Snapshot, name: string, keys: seq<string>, towns: seq<Town>)
    requires Keyed(snap.towns) && NationKeys(snap.towns, name) == Success(keys)
    requires TownsWithNation(snap, keys, name) == Success(towns)
    ensures forall i :: 0 <= i < |snap.towns| && Claims(snap.towns[i].1, name) ==>
              exists t :: t in towns && t.key == snap.towns[i].0
  {
    forall i | 0 <= i < |snap.towns| && Claims(snap.towns[i].1, name)
      ensures exists t :: t in towns && t.key == snap.towns[i].0
    {
      var k := snap.towns[i].0;
      assert k in keys;
      var j :| 0 <= j < |keys| && keys[j] == k;
      assert TownWithNation(snap, k, name) == Success(towns[j]);
      LowerOfLower(k);
      assert towns[j] in towns;
    }
  }

  /** Every town of a nation, and so every citizen, names the nation; the
      citizens are the towns' residents, all of them. */
  lemma NationCitizens(snap: Snapshot, name: string)
    requires BuildNation(snap, name).Success?
    ensures forall t :: t in BuildNation(snap, name).value.towns ==> Coherent(t)
    ensures forall c :: c in BuildNation(snap, name).value.citizens ==>
              c.nation == Some(name) && exists t :: t in BuildNation(snap, name).value.towns && c in t.residents && c.town == Some(t.key)
    ensures |BuildNation(snap, name).value.citizens| == ResidentCount(BuildNation(snap, name).value.towns)
  {
    var towns := BuildNation(snap, name).value.towns;
    CitizensOfNation(towns, name);
    CitizensCount(towns);
  }

  /** The residents of coherent towns of one nation name that nation and
      a town that lists them. */
  lemma CitizensOfNation(towns: seq<Town>, name: string)
    requires forall t :: t in towns ==> t.nation == Some(name) && Coherent(t)
    ensures forall c :: c in Citizens(towns) ==>
              c.nation == Some(name) && exists t :: t in towns && c in t.residents && c.town == Some(t.key)
  {
    forall c | c in Citizens(towns)
      ensures c.nation == Some(name) && exists t :: t in towns && c in t.residents && c.town == Some(t.key)
    {
      CitizensOf(towns, c);
    }
  }

  /** The capital is never in ruins, and its area counts towards the
      nation's. */
  lemma CapitalNotInRuins(snap: Snapshot, name: string)
    requires BuildNation(snap, name).Success?
    ensures !BuildNation(snap, name).value.capital.ruins
    ensures BuildNation(snap, name).value.capital.area <= BuildNation(snap, name).value.area
  {
    var nation := BuildNation(snap, name).value;
    NationCitizens(snap, name);
    TotalAreaCovers(nation.towns, nation.capital);
  }
}
