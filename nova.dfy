/** The nova package as written (pythmc/nova/__init__.py). Its `Town` and
    `Resident` repeat the code of pythmc/town.py and pythmc/resident.py, but
    they call the package's own `Nation`, and that differs in one call: the
    town comprehension calls `town.Town._with_nation(town, ...)` where `town`
    is the loop's key, a str, so the first town it reaches raises
    `AttributeError`. The error spreads: every town of a nation, every
    resident of such a town, and every `all` that meets one fails. */
module Nova {
  import opened Wrappers
  import opened PyStr
  import opened Geometry
  import opened Fetch
  import opened Entities
  import opened Nations
  import opened Towns
  import opened Residents

  /** The nova `Nation(name, data=data)` as written. */
  function NovaNationAsWritten(snap: Snapshot, name: string): (r: Result<Nation, Error>)
    ensures r.Failure?
    ensures r == Failure(NationNotFound) <==> BuildNation(snap, name) == Failure(NationNotFound)
    ensures BuildNation(snap, name).Success? ==> r == Failure(AttributeError)
  {
    NationNotFoundIff(snap, name);
    var keys :- NationKeys(snap.towns, name);
    if |keys| == 0 || name == "" then Failure(NationNotFound)
    else
      assert keys[0] in keys;
      Failure(AttributeError)
  }

  /** The nova `Town(name, data=data)` as written: it builds its nation with
      the nova `Nation`. */
  function NovaTownAsWritten(snap: Snapshot, name: string): (r: Result<Town, Error>)
    ensures r.Success? ==> r.value.nation.None? && Coherent(r.value)
  {
    var (key, a) :- LookupTown(snap, name);
    var toks := TokensOf(a.desc);
    if toks == [] then Failure(MissingToken)
    else
      var nation := TownNationName(toks[0]);
      if nation == "" then TownFields(key, a, snap.players, None)
      else Failure(NovaNationAsWritten(snap, nation).error)
  }

  /** Every town that belongs to a nation fails to build in the nova
      package, where the corrected constructor builds it. */
  lemma NovaTownLosesNation(snap: Snapshot, name: string)
    requires InitTown(snap, name).Success? && InitTown(snap, name).value.nation.Some?
    ensures NovaTownAsWritten(snap, name) == Failure(AttributeError)
  {
    TownNation(snap, name);
  }

  /** A town the corrected constructor builds is built the same by the nova
      one when it has no nation, and raises `AttributeError` when it has. */
  lemma NovaTownAgrees(snap: Snapshot, name: string)
    requires InitTown(snap, name).Success?
    ensures InitTown(snap, name).value.nation.None? ==> NovaTownAsWritten(snap, name) == InitTown(snap, name)
    ensures InitTown(snap, name).value.nation.Some? ==> NovaTownAsWritten(snap, name) == Failure(AttributeError)
  {
    TownNation(snap, name);
  }

  /** A nation that some town claims, on a map whose descriptions are all
      there, raises `AttributeError` in the nova package. */
  lemma NovaNationOfClaimed(snap: Snapshot, name: string)
    requires NoEmptyDesc(snap.towns) && name != "" && Claimed(snap.towns, name)
    ensures NovaNationAsWritten(snap, name) == Failure(AttributeError)
  {
    var k :| 0 <= k < |snap.towns| && Claims(snap.towns[k].1, name);
    var keys := NationKeys(snap.towns, name).value;
    assert snap.towns[k].0 in keys;
  }

  /** The nova `Town.all(data=data)`. */
  function NovaTownAll(snap: Snapshot): (r: Result<seq<Town>, Error>)
    ensures r.Success? ==> |r.value| == |snap.towns|
    ensures r.Success? ==> forall i :: 0 <= i < |snap.towns| ==> NovaTownAsWritten(snap, snap.towns[i].0) == Success(r.value[i])
    ensures r.Failure? ==> exists i :: 0 <= i < |snap.towns| && NovaTownAsWritten(snap, snap.towns[i].0) == Failure(r.error)
  {
    MapResult((k: string) => NovaTownAsWritten(snap, k), Keys(snap.towns))
  }

  /** On a map the corrected `Town.all` reads, the nova one gives the same
      towns when none has a nation, and raises `AttributeError` when one
      has. */
  lemma NovaTownAllAgrees(snap: Snapshot)
    requires TownAll(snap).Success?
    ensures (forall i :: 0 <= i < |snap.towns| ==> TownAll(snap).value[i].nation.None?) ==>
              NovaTownAll(snap).Success?
              && forall i :: 0 <= i < |snap.towns| ==> NovaTownAll(snap).value[i] == TownAll(snap).value[i]
    ensures (exists i :: 0 <= i < |snap.towns| && TownAll(snap).value[i].nation.Some?) ==>
              NovaTownAll(snap) == Failure(AttributeError)
  {
    if NovaTownAll(snap).Failure? {
      NovaTownAllFailure(snap);
    } else {
      NovaTownAllSuccess(snap);
    }
  }

  lemma NovaTownAllFailure(snap: Snapshot)
    requires TownAll(snap).Success? && NovaTownAll(snap).Failure?
    ensures NovaTownAll(snap).error == AttributeError
    ensures exists i :: 0 <= i < |snap.towns| && TownAll(snap).value[i].nation.Some?
  {
    var ts := TownAll(snap).value;
    var e := NovaTownAll(snap).error;
    var j :| 0 <= j < |snap.towns| && NovaTownAsWritten(snap, snap.towns[j].0) == Failure(e);
    var key := snap.towns[j].0;
    assert InitTown(snap, key) == Success(ts[j]);
    NovaTownAgrees(snap, key);
    assert ts[j].nation.Some?;
  }

  lemma NovaTownAllSuccess(snap: Snapshot)
    requires TownAll(snap).Success? && NovaTownAll(snap).Success?
    ensures forall i :: 0 <= i < |snap.towns| ==> NovaTownAll(snap).value[i] == TownAll(snap).value[i]
    ensures forall i :: 0 <= i < |snap.towns| ==> TownAll(snap).value[i].nation.None?
  {
    var ts := TownAll(snap).value;
    var vs := NovaTownAll(snap).value;
    forall i | 0 <= i < |snap.towns|
      ensures vs[i] == ts[i] && ts[i].nation.None?
    {
      NovaTownBuilt(snap, snap.towns[i].0, ts[i], vs[i]);
    }
  }

  lemma NovaTownBuilt(snap: Snapshot, key: string, t: Town, v: Town)
    requires InitTown(snap, key) == Success(t) && NovaTownAsWritten(snap, key) == Success(v)
    ensures v == t && t.nation.None?
  {
    NovaTownAgrees(snap, key);
  }

  /** The nova `Resident(name, data=data)` as written: it builds its town
      with the nova `Town`. */
  function NovaResidentAsWritten(snap: Snapshot, name: string): (r: Result<Resident, Error>)
    ensures r.Success? ==> r.value.nation.None?
  {
    var found :- ScanTowns(snap.towns, name);
    var (online, position, hidden) := Presence(snap.players, name);
    match found
    case None => Success(Resident(name, online, position, hidden, None, None, IsNpc(name)))
    case Some(i) =>
      match NovaTownAsWritten(snap, snap.towns[i].0)
      case Failure(e) => Failure(FromGenerator(e))
      case Success(town) =>
        Success(Resident(name, online, position, hidden, Some(town.key), town.nation, IsNpc(name)))
  }

  /** A resident the corrected constructor builds is built the same by the
      nova one when it has no nation, and raises `AttributeError` when it
      has. */
  lemma NovaResidentAgrees(snap: Snapshot, name: string)
    requires InitResident(snap, name).Success?
    ensures InitResident(snap, name).value.nation.None? ==>
              NovaResidentAsWritten(snap, name) == InitResident(snap, name)
    ensures InitResident(snap, name).value.nation.Some? ==>
              NovaResidentAsWritten(snap, name) == Failure(AttributeError)
  {
    var found := ScanTowns(snap.towns, name).value;
    if found.Some? {
      NovaTownAgrees(snap, snap.towns[found.value].0);
    }
  }

  /** The nova `Resident.all_online(data=data)`. */
  function NovaResidentAllOnline(snap: Snapshot): (r: Result<seq<Resident>, Error>)
    ensures r.Success? ==> |r.value| == |snap.players|
    ensures r.Success? ==> forall i :: 0 <= i < |snap.players| ==>
              NovaResidentAsWritten(snap, snap.players[i].account) == Success(r.value[i])
    ensures r.Failure? ==>
              exists i :: 0 <= i < |snap.players| &&
                NovaResidentAsWritten(snap, snap.players[i].account) == Failure(r.error)
  {
    MapResult((n: string) => NovaResidentAsWritten(snap, n), Accounts(snap.players))
  }

  /** The nova `Resident.all(data=data)`. */
  function NovaResidentAll(snap: Snapshot): (r: Result<seq<Resident>, Error>)
    ensures r.Success? ==> NovaTownAll(snap).Success? && r.value == Citizens(NovaTownAll(snap).value)
    ensures r.Success? ==> forall c :: c in r.value ==> c.nation.None?
    ensures NovaTownAll(snap).Failure? ==> r == Failure(NovaTownAll(snap).error)
  {
    var towns :- NovaTownAll(snap);
    Success(Citizens(towns))
  }

  /** The nova `Nation.all(data=data)`: the names as the corrected one
      lists them, each built with the nova `Nation`. */
  function NovaNationAll(snap: Snapshot): (r: Result<seq<Nation>, Error>)
    ensures r.Success? ==> NationNames(snap) == Success([]) && r.value == []
    ensures NationNames(snap).Failure? ==> r == Failure(MissingToken)
  {
    var names :- NationNames(snap);
    MapResult((n: string) => NovaNationAsWritten(snap, n), names)
  }

  /** The nova `Nation.all` raises `AttributeError` as soon as any town
      claims a nation. */
  lemma NovaNationAllFails(snap: Snapshot)
    requires NationNames(snap).Success? && NationNames(snap).value != []
    ensures NovaNationAll(snap) == Failure(AttributeError)
  {
    NationNamesMeaning(snap);
    var names := NationNames(snap).value;
    var r := MapResult((n: string) => NovaNationAsWritten(snap, n), names);
    var i :| 0 <= i < |names| && NovaNationAsWritten(snap, names[i]) == Failure(r.error);
    NovaNationOfClaimed(snap, names[i]);
  }

  /** A one-town map: town "t" of nation "N", its own capital. */
  function OneTownMap(): Snapshot {
    var toks := ["T (N)", "Mayor", "Bob", "Residents", "Bob", "x", "x",
                 "pvp: true", "mobs: true", "x", "explosion: true", "fire: true", "capital: true"];
    Snapshot([("t", Area("T", "#ff0000", [0, 16, 16], [0, 0, 16], Parts(toks)))], [])
  }

  /** The one town claims "N" and is the only one. */
  lemma OneTownClaims()
    ensures NationKeys(OneTownMap().towns, "N") == Success(["t"])
  {
    var snap := OneTownMap();
    var a := snap.towns[0].1;
    ReadingsAgree("T", "N");
    assert a.desc.tokens[0] == "T (N)";
    assert TokensOf(a.desc)[0] == "T (N)";
    assert "T (N)" == "T" + " (" + "N" + ")";
    assert Claims(a, "N");
    assert snap.towns[1..] == [];
    assert NationKeys(snap.towns[1..], "N") == Success([]);
    assert [snap.towns[0].0] + [] == ["t"];
  }

  /** The one town builds, flagged as a capital. */
  lemma OneTownBuilds()
    ensures TownWithNation(OneTownMap(), "t", "N").Success?
    ensures TownWithNation(OneTownMap(), "t", "N").value.flags.capital
  {
    var snap := OneTownMap();
    var a := snap.towns[0].1;
    assert Lower("t") == "t";
    assert Lookup(snap.towns, "t") == Some(a);
    assert |Zip(a.x, a.z)| == 3;
    assert |TokensOf(a.desc)| == 13;
  }

  /** On the one-town map the corrected constructor builds nation "N" and
      the nova one raises `AttributeError`. */
  lemma NovaNationCounterexample()
    ensures BuildNation(OneTownMap(), "N").Success?
    ensures NovaNationAsWritten(OneTownMap(), "N") == Failure(AttributeError)
  {
    var snap := OneTownMap();
    OneTownClaims();
    OneTownBuilds();
    var f := (k: string) => TownWithNation(snap, k, "N");
    MapResultSingle(f, "t");
    var t := f("t").value;
    assert TownsWithNation(snap, ["t"], "N") == Success([t]);
    assert FirstCapital([t]) == Some(0);
    assert BuildNation(snap, "N") == Success(Nation("N", [t], t, t.mayor, t.colour, Citizens([t]), TotalArea([t])));
  }

  /** The one town's residents token names "Bob". */
  lemma OneTownHasBob()
    ensures ScanTowns(OneTownMap().towns, "Bob") == Success(Some(0))
  {
    var a := OneTownMap().towns[0].1;
    assert StartsWith("Bob", "Bob");
    assert Mentions(a, "Bob");
  }

  /** The corrected constructor builds town "t" as part of nation "N". */
  lemma OneTownInNation()
    ensures InitTown(OneTownMap(), "t").Success?
    ensures InitTown(OneTownMap(), "t").value.nation == Some("N")
  {
    var snap := OneTownMap();
    var a := snap.towns[0].1;
    assert Lower("t") == "t";
    assert LookupTown(snap, "t") == Success(("t", a));
    OneTownReadsN();
    NovaNationCounterexample();
    assert BuildNation(snap, "N").value.name == "N";
    OneTownBuilds();
    assert TownFields("t", a, snap.players, Some("N")).Success?;
  }

  /** The one town's first token names nation "N". */
  lemma OneTownReadsN()
    ensures TownNationName(TokensOf(OneTownMap().towns[0].1.desc)[0]) == "N"
  {
    ReadingsAgree("T", "N");
    assert "T (N)" == "T" + " (" + "N" + ")";
  }

  /** On the one-town map the corrected constructor places "Bob" in town
      "t" of nation "N"; the nova one raises `AttributeError`. */
  lemma NovaResidentCounterexample()
    ensures InitResident(OneTownMap(), "Bob").Success?
    ensures InitResident(OneTownMap(), "Bob").value.nation == Some("N")
    ensures NovaResidentAsWritten(OneTownMap(), "Bob") == Failure(AttributeError)
  {
    var snap := OneTownMap();
    OneTownHasBob();
    OneTownInNation();
    assert snap.towns[0].0 == "t";
    NovaResidentAgrees(snap, "Bob");
  }
}
