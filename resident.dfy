/** `Resident(name, data=...)`, `Resident.all_online` and `Resident.all`
    (pythmc/resident.py). A resident built without a preset town takes the
    first town whose residents token contains its name. */
module Residents {
  import opened Wrappers
  import opened PyStr
  import opened Fetch
  import opened Entities
  import opened Towns

  /** The residents token of a town mentions the name, as a substring. */
  predicate Mentions(a: Area, name: string) {
    |TokensOf(a.desc)| >= 5 && Contains(TokensOf(a.desc)[4], name)
  }

  /** The generator inside `next(..., None)`: the first key whose town
      mentions `name`; an `IndexError` when a town with fewer than five
      tokens is reached before a match. */
  function ScanTowns(towns: seq<(string, Area)>, name: string): (r: Result<Option<nat>, Error>)
    ensures r.Success? && r.value.Some? ==> r.value.value < |towns| && Mentions(towns[r.value.value].1, name)
    ensures r.Success? ==> forall j :: 0 <= j < |towns| && (r.value.None? || j < r.value.value) ==>
              |TokensOf(towns[j].1.desc)| >= 5 && !Mentions(towns[j].1, name)
    ensures r.Failure? ==> r.error == MissingToken
    ensures r.Failure? ==> exists j :: (0 <= j < |towns| && |TokensOf(towns[j].1.desc)| < 5
              && forall j' :: 0 <= j' < j ==> !Mentions(towns[j'].1, name))
  {
    if towns == [] then Success(None)
    else if |TokensOf(towns[0].1.desc)| < 5 then Failure(MissingToken)
    else if Mentions(towns[0].1, name) then Success(Some(0))
    else
      var rest := ScanTowns(towns[1..], name);
      assert forall j :: 1 <= j < |towns| ==> towns[j] == towns[1..][j - 1];
      match rest
      case Failure(e) =>
        var j :| 0 <= j < |towns[1..]| && |TokensOf(towns[1..][j].1.desc)| < 5
                 && forall j' :: 0 <= j' < j ==> !Mentions(towns[1..][j'].1, name);
        assert forall j' :: 0 <= j' < j + 1 ==> !Mentions(towns[j'].1, name) by {
          forall j' | 1 <= j' < j + 1
            ensures !Mentions(towns[j'].1, name)
          {
            assert towns[j'] == towns[1..][j' - 1];
          }
        }
        assert |TokensOf(towns[j + 1].1.desc)| < 5;
        Failure(e)
      case Success(None) => Success(None)
      case Success(Some(i)) => Success(Some(i + 1))
  }

  /** An exception leaving a generator's frame: Python turns a
      `StopIteration` into a `RuntimeError` (PEP 479) and lets any other
      pass. */
  function FromGenerator(e: Error): (g: Error)
    ensures g != NoCapital
    ensures e != NoCapital ==> g == e
  {
    if e == NoCapital then RuntimeError else e
  }

  /** `Resident(name, data=data)`. The town is built inside the generator
      that `next` drains, so a capital-less nation's `StopIteration` surfaces
      as a `RuntimeError`. */
  function InitResident(snap: Snapshot, name: string): (r: Result<Resident, Error>)
    ensures r.Success? ==> r.value.name == name && (r.value.online, r.value.position, r.value.hidden) == Presence(snap.players, name)
    ensures r.Success? ==> (r.value.npc <==> IsNpc(name))
    ensures r.Success? && r.value.town.None? ==> r.value.nation.None?
    ensures ScanTowns(snap.towns, name).Failure? ==> r == Failure(MissingToken)
    ensures ScanTowns(snap.towns, name) == Success(None) ==> r.Success? && r.value.town.None?
    ensures ScanTowns(snap.towns, name).Success? && ScanTowns(snap.towns, name).value.Some? ==>
              var t := InitTown(snap, snap.towns[ScanTowns(snap.towns, name).value.value].0);
              && (r.Success? <==> t.Success?)
              && (t.Failure? ==> r.error == FromGenerator(t.error))
              && (t.Success? ==> r.value.town == Some(t.value.key) && r.value.nation == t.value.nation)
    ensures r.Failure? ==> r.error != NoCapital
  {
    var found :- ScanTowns(snap.towns, name);
    var (online, position, hidden) := Presence(snap.players, name);
    match found
    case None => Success(Resident(name, online, position, hidden, None, None, IsNpc(name)))
    case Some(i) =>
      match InitTown(snap, snap.towns[i].0)
      case Failure(e) => Failure(FromGenerator(e))
      case Success(town) =>
        Success(Resident(name, online, position, hidden, Some(town.key), town.nation, IsNpc(name)))
  }

  function Accounts(players: seq<Player>): (names: seq<string>)
    ensures |names| == |players| && forall i :: 0 <= i < |players| ==> names[i] == players[i].account
  {
    seq(|players|, i requires 0 <= i < |players| => players[i].account)
  }

  /** `Resident.all_online(data=data)`: one resident per live player. */
  function ResidentAllOnline(snap: Snapshot): (r: Result<seq<Resident>, Error>)
    ensures r.Success? ==> |r.value| == |snap.players|
    ensures r.Success? ==> forall i :: 0 <= i < |snap.players| ==>
              InitResident(snap, snap.players[i].account) == Success(r.value[i])
    ensures r.Failure? ==>
              exists i :: 0 <= i < |snap.players| &&
                InitResident(snap, snap.players[i].account) == Failure(r.error)
    ensures r.Failure? ==> r.error != NoCapital
  {
    MapResult((n: string) => InitResident(snap, n), Accounts(snap.players))
  }

  /** `Resident.all(data=data)`: the residents of every town, town by town. */
  function ResidentAll(snap: Snapshot): (r: Result<seq<Resident>, Error>)
    ensures r.Success? ==> TownAll(snap).Success? && r.value == Citizens(TownAll(snap).value)
    ensures TownAll(snap).Failure? ==> r == Failure(TownAll(snap).error)
  {
    var towns :- TownAll(snap);
    Success(Citizens(towns))
  }

  // ---------------------------------------------------------- lemmas

  /** Where a resident built without a town lives: nowhere when no town
      mentions it, else the first town that does, and the resident's nation
      is that town's. */
  lemma ResidentTown(snap: Snapshot, name: string)
    requires InitResident(snap, name).Success?
    ensures ScanTowns(snap.towns, name).Success?
    ensures InitResident(snap, name).value.town.None? <==> ScanTowns(snap.towns, name).value.None?
    ensures ScanTowns(snap.towns, name).value.Some? ==>
              var i := ScanTowns(snap.towns, name).value.value;
              && Mentions(snap.towns[i].1, name)
              && InitTown(snap, snap.towns[i].0).Success?
              && InitResident(snap, name).value.town == Some(InitTown(snap, snap.towns[i].0).value.key)
              && InitResident(snap, name).value.nation == InitTown(snap, snap.towns[i].0).value.nation
  {
  }

  /** The town test is a substring test: "Bob" is found in a town whose
      residents are "Bobby, Alice", ahead of the town that lists "Bob". */
  lemma SubstringMatch(a: Area, b: Area)
    requires a.desc == Parts(["A (N)", "Mayor", "Bobby", "Residents", "Bobby, Alice"])
    requires b.desc == Parts(["B (N)", "Mayor", "Bob", "Residents", "Bob"])
    ensures ScanTowns([("a", a), ("b", b)], "Bob") == Success(Some(0))
  {
    assert StartsWith("Bobby, Alice", "Bob");
  }

  /** `Resident.all_online` gives one online resident per live player, each
      named after its account. */
  lemma AllOnlineAreOnline(snap: Snapshot)
    requires ResidentAllOnline(snap).Success?
    ensures forall i :: 0 <= i < |snap.players| ==>
              ResidentAllOnline(snap).value[i].name == snap.players[i].account
              && ResidentAllOnline(snap).value[i].online
              && ResidentAllOnline(snap).value[i].position.Some?
  {
    var rs := ResidentAllOnline(snap).value;
    forall i | 0 <= i < |snap.players|
      ensures rs[i].name == snap.players[i].account && rs[i].online && rs[i].position.Some?
    {
      assert InitResident(snap, snap.players[i].account) == Success(rs[i]);
      assert exists j :: 0 <= j < |snap.players| && snap.players[j].account == snap.players[i].account;
    }
  }

  /** `Resident.all` is every town's residents, each naming its town. */
  lemma ResidentAllMembers(snap: Snapshot)
    requires ResidentAll(snap).Success?
    ensures forall c :: c in ResidentAll(snap).value <==>
              exists t :: t in TownAll(snap).value && c in t.residents
    ensures forall c :: c in ResidentAll(snap).value ==>
              exists t :: t in TownAll(snap).value && c.town == Some(t.key) && c.nation == t.nation
  {
    TownAllCoherent(snap);
    CitizensOfTowns(TownAll(snap).value);
  }
}
