/** `Town(name, data=...)` and `Town.all(data=...)` (pythmc/town.py). A
    town built without a preset nation reads the nation's name from its
    first token and builds that nation. */
module Towns {
  import opened Wrappers
  import opened PyStr
  import opened Fetch
  import opened Entities
  import opened Nations

  /** `Town(name, data=data)` */
  function InitTown(snap: Snapshot, name: string): (r: Result<Town, Error>)
    ensures !HasKey(snap.towns, Lower(name)) ==> r == Failure(TownNotFound)
    ensures r.Success? ==> r.value.key == Lower(name) && HasKey(snap.towns, r.value.key) && Coherent(r.value)
  {
    var (key, a) :- LookupTown(snap, name);
    var toks := TokensOf(a.desc);
    if toks == [] then Failure(MissingToken)
    else
      var nation := TownNationName(toks[0]);
      if nation == "" then TownFields(key, a, snap.players, None)
      else
        var n :- BuildNation(snap, nation);
        TownFields(key, a, snap.players, Some(n.name))
  }

  /** `Town.all(data=data)`: every town of the map, in map order. */
  function TownAll(snap: Snapshot): (r: Result<seq<Town>, Error>)
    ensures r.Success? ==> |r.value| == |snap.towns|
    ensures r.Success? ==> forall i :: 0 <= i < |snap.towns| ==> InitTown(snap, snap.towns[i].0) == Success(r.value[i])
    ensures r.Failure? ==> exists i :: 0 <= i < |snap.towns| && InitTown(snap, snap.towns[i].0) == Failure(r.error)
  {
    MapResult((k: string) => InitTown(snap, k), Keys(snap.towns))
  }

  function Keys(d: seq<(string, Area)>): (ks: seq<string>)
    ensures |ks| == |d| && forall i :: 0 <= i < |d| ==> ks[i] == d[i].0
  {
    seq(|d|, i requires 0 <= i < |d| => d[i].0)
  }

  // ---------------------------------------------------------- lemmas

  /** The record a name looks up and its first token. */
  function FirstToken(snap: Snapshot, name: string): string
    requires HasKey(snap.towns, Lower(name)) && TokensOf(Lookup(snap.towns, Lower(name)).value.desc) != []
  {
    TokensOf(Lookup(snap.towns, Lower(name)).value.desc)[0]
  }

  /** With keys in lower case, the nation a town builds never fails to
      find one of its own towns. */
  lemma NationFindsItsTowns(snap: Snapshot, name: string)
    requires Keyed(snap.towns)
    ensures BuildNation(snap, name) != Failure(TownNotFound)
  {
    if BuildNation(snap, name) == Failure(TownNotFound) {
      TownNotFoundIsATown(snap, name);
      ClaimantsFound(snap, name);
    }
  }

  /** Each key the nation filter keeps finds its town. */
  lemma ClaimantsFound(snap: Snapshot, name: string)
    requires Keyed(snap.towns) && NationKeys(snap.towns, name).Success?
    ensures TownsWithNation(snap, NationKeys(snap.towns, name).value, name) != Failure(TownNotFound)
  {
    var keys := NationKeys(snap.towns, name).value;
    var towns := TownsWithNation(snap, keys, name);
    if towns.Failure? {
      var i :| 0 <= i < |keys| && TownWithNation(snap, keys[i], name) == Failure(towns.error);
      assert keys[i] in keys;
      ClaimantKey(snap, name, keys[i]);
    }
  }

  /** With keys as `get_data` leaves them, `TownNotFoundException` is raised
      exactly when the lower-cased name is not a key. */
  lemma TownNotFoundIff(snap: Snapshot, name: string)
    requires Keyed(snap.towns)
    ensures InitTown(snap, name) == Failure(TownNotFound) <==> !HasKey(snap.towns, Lower(name))
  {
    if HasKey(snap.towns, Lower(name)) {
      var a := Lookup(snap.towns, Lower(name)).value;
      var toks := TokensOf(a.desc);
      if toks != [] && TownNationName(toks[0]) != "" {
        NationFindsItsTowns(snap, TownNationName(toks[0]));
      }
    }
  }

  /** A town read without a preset nation: none when its first token names
      none, else the nation that name builds. */
  lemma TownNation(snap: Snapshot, name: string)
    requires InitTown(snap, name).Success?
    ensures HasKey(snap.towns, Lower(name)) && TokensOf(Lookup(snap.towns, Lower(name)).value.desc) != []
    ensures InitTown(snap, name).value.nation.None? <==> TownNationName(FirstToken(snap, name)) == ""
    ensures InitTown(snap, name).value.nation.Some? ==>
              InitTown(snap, name).value.nation.value == TownNationName(FirstToken(snap, name))
              && BuildNation(snap, InitTown(snap, name).value.nation.value).Success?
    ensures InitTown(snap, name).value.name == Lookup(snap.towns, Lower(name)).value.title
    ensures InitTown(snap, name).value.colour == Lookup(snap.towns, Lower(name)).value.fillcolor
  {
  }

  /** `Town.all` builds one town per key, each under its own key. */
  lemma TownAllKeys(snap: Snapshot)
    requires Keyed(snap.towns) && TownAll(snap).Success?
    ensures forall i :: 0 <= i < |snap.towns| ==> TownAll(snap).value[i].key == snap.towns[i].0
    ensures forall i, j :: 0 <= i < j < |snap.towns| ==> TownAll(snap).value[i].key != TownAll(snap).value[j].key
  {
    forall i | 0 <= i < |snap.towns|
      ensures TownAll(snap).value[i].key == snap.towns[i].0
    {
      LowerOfLower(snap.towns[i].0);
    }
  }

  /** Every town `Town.all` builds is coherent. */
  lemma TownAllCoherent(snap: Snapshot)
    requires TownAll(snap).Success?
    ensures forall t :: t in TownAll(snap).value ==> Coherent(t)
  {
    var towns := TownAll(snap).value;
    forall i | 0 <= i < |towns|
      ensures Coherent(towns[i])
    {
      assert InitTown(snap, snap.towns[i].0) == Success(towns[i]);
    }
    EveryIndexCoherent(towns);
  }

  lemma EveryIndexCoherent(towns: seq<Town>)
    requires forall i :: 0 <= i < |towns| ==> Coherent(towns[i])
    ensures forall t :: t in towns ==> Coherent(t)
  {
  }
}
