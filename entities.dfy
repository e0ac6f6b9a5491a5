/** The records the library builds from a snapshot (pythmc/town.py,
    pythmc/resident.py, pythmc/nation.py), and the two construction paths
    that receive their back-reference ready-made: `Resident._with_town` and
    `Town._with_nation`.

    Back-references are kept as names: a resident names the key of its
    town, a town and a resident name their nation. */
module Entities {
  import opened Wrappers
  import opened PyStr
  import opened Geometry
  import opened Fetch

  /** The exceptions the constructors end in: `TownNotFoundException`,
      `NationNotFoundException`, an `IndexError` on a short description,
      the `StopIteration` of a nation without a capital, the polygon
      library's refusal of a ring with fewer than three vertices, the
      `AttributeError` of the nova package's nation constructor, and the
      `RuntimeError` Python raises in place of a `StopIteration` that
      escapes a generator (PEP 479). */
  datatype Error = TownNotFound | NationNotFound | MissingToken | NoCapital | BadGeometry | AttributeError | RuntimeError

  datatype Flags = Flags(pvp: bool, mobs: bool, explosions: bool, fire: bool, capital: bool)

  datatype Resident = Resident(
    name: string,
    online: bool,
    position: Option<(int, int, int)>,
    hidden: bool,
    town: Option<string>,
    nation: Option<string>,
    npc: bool)

  /** A town; `key` is the map key it was built from. */
  datatype Town = Town(
    key: string,
    name: string,
    nation: Option<string>,
    colour: string,
    mayor: Resident,
    residents: seq<Resident>,
    flags: Flags,
    area: nat,
    bounds: Bounds,
    position: (int, int),
    ruins: bool)

  datatype Nation = Nation(
    name: string,
    towns: seq<Town>,
    capital: Town,
    leader: Resident,
    colour: string,
    citizens: seq<Resident>,
    area: nat)

  // --------------------------------------------------------- tokens

  /** Indexing `desc`: a token list gives its tokens; a description still in
      text form is indexed character by character, as Python indexes a str. */
  function TokensOf(desc: Desc): (toks: seq<string>)
    ensures desc.Parts? ==> toks == desc.tokens
    ensures desc.Text? ==> |toks| == |desc.text| && forall i :: 0 <= i < |toks| ==> toks[i] == [desc.text[i]]
  {
    match desc
    case Parts(tokens) => tokens
    case Text(text) => seq(|text|, i requires 0 <= i < |text| => [text[i]])
  }

  /** What a town cites as its nation: `desc[0][:-1].split("(")[-1]`. */
  function TownNationName(t0: string): string {
    LastPiece(DropLast(t0, 1), "(")
  }

  /** What a nation matches its towns by: `desc[0][:-1].split(" (")[-1]`. */
  function NationNameOf(t0: string): string {
    LastPiece(DropLast(t0, 1), " (")
  }

  /** The town's reading of its nation is what follows the last "(" of the
      first token, closing character dropped; with no "(" it is the whole
      token less its last character. */
  lemma TownNationNameMeaning(t0: string)
    ensures EndsWith(DropLast(t0, 1), TownNationName(t0)) && !Contains(TownNationName(t0), "(")
    ensures !Contains(DropLast(t0, 1), "(") ==> TownNationName(t0) == DropLast(t0, 1)
  {
    LastPieceMeaning(DropLast(t0, 1), "(");
  }

  /** The nation's reading is the same with " (" as the separator. */
  lemma NationNameOfMeaning(t0: string)
    ensures EndsWith(DropLast(t0, 1), NationNameOf(t0)) && !Contains(NationNameOf(t0), " (")
    ensures !Contains(DropLast(t0, 1), " (") ==> NationNameOf(t0) == DropLast(t0, 1)
  {
    LastPieceMeaning(DropLast(t0, 1), " (");
  }

  /** The separator of the residents token. */
  const ListSep: string := ", "

  // -------------------------------------------------------- residents

  /** The first live player with the account name. */
  function FindPlayer(players: seq<Player>, name: string): (r: Option<nat>)
    ensures r.Some? ==> r.value < |players| && players[r.value].account == name
    ensures r.Some? ==> forall j :: 0 <= j < r.value ==> players[j].account != name
    ensures r.None? ==> forall j :: 0 <= j < |players| ==> players[j].account != name
  {
    if players == [] then None
    else if players[0].account == name then Some(0)
    else match FindPlayer(players[1..], name)
      case None => None
      case Some(i) =>
        assert players[1..][i] == players[i + 1];
        Some(i + 1)
  }

  /** The spot hidden players are reported at. */
  const HiddenSpot: (int, int, int) := (0, 64, 0)

  /** `online`, `position` and `hidden` of a resident. */
  function Presence(players: seq<Player>, name: string): (p: (bool, Option<(int, int, int)>, bool))
    ensures p.0 <==> exists j :: 0 <= j < |players| && players[j].account == name
    ensures p.0 ==> p.1.Some? && (p.2 <==> p.1.value == HiddenSpot)
    ensures p.0 ==> exists j :: 0 <= j < |players| && players[j].account == name
                      && p.1.value == (players[j].x, players[j].y, players[j].z)
                      && forall j' :: 0 <= j' < j ==> players[j'].account != name
    ensures !p.0 ==> p.1.None? && p.2
  {
    match FindPlayer(players, name)
    case Some(i) =>
      var pos := (players[i].x, players[i].y, players[i].z);
      (true, Some(pos), pos == HiddenSpot)
    case None => (false, None, true)
  }

  /** `name.startswith("NPC") and name[3:].isdigit()` */
  predicate IsNpc(name: string): (b: bool)
    ensures b ==> |name| >= 4 && forall i :: 3 <= i < |name| ==> IsDigit(name[i])
  {
    StartsWith(name, "NPC") && IsDigits(name[3..])
  }

  /** `Resident._with_town(name, data, town)`: the town and, through it, the
      nation are given; the rest comes from the player feed. */
  function ResidentWithTown(players: seq<Player>, name: string, town: string, nation: Option<string>): (r: Resident)
    ensures r.name == name && r.town == Some(town) && r.nation == nation
    ensures (r.online, r.position, r.hidden) == Presence(players, name)
    ensures r.npc <==> StartsWith(name, "NPC") && IsDigits(name[3..])
  {
    var (online, position, hidden) := Presence(players, name);
    Resident(name, online, position, hidden, Some(town), nation, IsNpc(name))
  }

  function Names(rs: seq<Resident>): (names: seq<string>)
    ensures |names| == |rs| && forall i :: 0 <= i < |rs| ==> names[i] == rs[i].name
  {
    seq(|rs|, i requires 0 <= i < |rs| => rs[i].name)
  }

  // ------------------------------------------------------------ towns

  /** The flags a town's description spells out; token 9 is not read. */
  function FlagsOf(toks: seq<string>): (f: Flags)
    requires |toks| >= 13
    ensures f == RuinFlags <==>
              && toks[7] == "pvp: true" && toks[8] == "mobs: true" && toks[10] == "explosion: true"
              && toks[11] == "fire: true" && toks[12] != "capital: true"
  {
    Flags(toks[7] == "pvp: true", toks[8] == "mobs: true", toks[10] == "explosion: true",
          toks[11] == "fire: true", toks[12] == "capital: true")
  }

  /** The flags that, with a lone NPC mayor, mark a town in ruins. */
  const RuinFlags: Flags := Flags(true, true, true, true, false)

  /** The residents named in token 4, each told its town and nation. */
  function ResidentsOf(players: seq<Player>, token: string, key: string, nation: Option<string>): (rs: seq<Resident>)
    ensures |rs| == |SplitOn(token, ListSep)|
    ensures forall i :: 0 <= i < |rs| ==>
              rs[i] == ResidentWithTown(players, SplitOn(token, ListSep)[i], key, nation)
  {
    var names := SplitOn(token, ListSep);
    seq(|names|, i requires 0 <= i < |names| => ResidentWithTown(players, names[i], key, nation))
  }

  /** What every constructed town keeps: its people name it and its
      nation, the ruins flag follows the ruins rule, and the position lies
      in the bounding box. */
  ghost predicate Coherent(t: Town) {
    && t.mayor.town == Some(t.key) && t.mayor.nation == t.nation
    && (forall r :: r in t.residents ==> r.town == Some(t.key) && r.nation == t.nation)
    && (t.ruins <==> |t.residents| == 1 && t.mayor.npc && t.flags == RuinFlags)
    && t.bounds.minX <= t.position.0 <= t.bounds.maxX
    && t.bounds.minY <= t.position.1 <= t.bounds.maxY
  }

  /** The rest of `Town.__init__` once the key is found and the nation is
      settled: the fields read from the description and the polygon. */
  function TownFields(key: string, a: Area, players: seq<Player>, nation: Option<string>): (r: Result<Town, Error>)
    ensures r.Failure? <==> |TokensOf(a.desc)| < 13 || |Zip(a.x, a.z)| < 3
    ensures r.Failure? ==> r.error == if |TokensOf(a.desc)| < 13 then MissingToken else BadGeometry
    ensures r.Success? ==>
              && r.value.key == key && r.value.name == a.title && r.value.colour == a.fillcolor
              && r.value.nation == nation
              && r.value.mayor == ResidentWithTown(players, TokensOf(a.desc)[2], key, nation)
              && r.value.residents == ResidentsOf(players, TokensOf(a.desc)[4], key, nation)
              && r.value.flags == FlagsOf(TokensOf(a.desc))
    ensures r.Success? ==>
              && r.value.area * 512 <= TwiceArea(Zip(a.x, a.z)) < (r.value.area + 1) * 512
              && r.value.bounds == BoundsOf(Zip(a.x, a.z))
              && r.value.position == Midpoint(r.value.bounds)
              && (forall v :: v in Zip(a.x, a.z) ==>
                    r.value.bounds.minX <= v.0 <= r.value.bounds.maxX
                    && r.value.bounds.minY <= v.1 <= r.value.bounds.maxY)
              && r.value.bounds.minX <= r.value.position.0 <= r.value.bounds.maxX
              && r.value.bounds.minY <= r.value.position.1 <= r.value.bounds.maxY
    ensures r.Success? ==> Coherent(r.value)
  {
    var toks := TokensOf(a.desc);
    if |toks| < 13 then Failure(MissingToken)
    else
      var vs := Zip(a.x, a.z);
      if |vs| < 3 then Failure(BadGeometry)
      else
        var mayor := ResidentWithTown(players, toks[2], key, nation);
        var residents := ResidentsOf(players, toks[4], key, nation);
        var flags := FlagsOf(toks);
        var bounds := BoundsOf(vs);
        MidpointWithinBounds(bounds);
        var ruins := |residents| == 1 && mayor.npc && flags == RuinFlags;
        Success(Town(key, a.title, nation, a.fillcolor, mayor, residents, flags,
                     ChunkArea(vs), bounds, Midpoint(bounds), ruins))
  }

  /** `name.lower()` looked up in the town map. */
  function LookupTown(snap: Snapshot, name: string): (r: Result<(string, Area), Error>)
    ensures r.Failure? <==> !HasKey(snap.towns, Lower(name))
    ensures r.Failure? ==> r.error == TownNotFound
    ensures r.Success? ==> r.value.0 == Lower(name) && Lookup(snap.towns, Lower(name)) == Some(r.value.1)
  {
    var key := Lower(name);
    match Lookup(snap.towns, key)
    case None => Failure(TownNotFound)
    case Some(a) => Success((key, a))
  }

  /** `Town._with_nation(name, data, nation)`: the nation is given. */
  function TownWithNation(snap: Snapshot, name: string, nation: string): (r: Result<Town, Error>)
    ensures !HasKey(snap.towns, Lower(name)) ==> r == Failure(TownNotFound)
    ensures r.Success? ==> r.value.key == Lower(name) && r.value.nation == Some(nation) && Coherent(r.value)
    ensures r.Failure? ==> r.error in {TownNotFound, MissingToken, BadGeometry}
  {
    var (key, a) :- LookupTown(snap, name);
    TownFields(key, a, snap.players, Some(nation))
  }

  // --------------------------------------------------------- nations

  /** The residents of the towns, town after town. */
  function Citizens(towns: seq<Town>): (rs: seq<Resident>)
    ensures towns != [] ==> rs == towns[0].residents + Citizens(towns[1..])
    ensures forall i, c :: 0 <= i < |towns| && c in towns[i].residents ==> c in rs
    ensures forall c :: c in rs ==> exists i :: 0 <= i < |towns| && c in towns[i].residents
  {
    if towns == [] then [] else towns[0].residents + Citizens(towns[1..])
  }

  /** The sum of the towns' areas. */
  function TotalArea(towns: seq<Town>): (a: nat)
    ensures forall i :: 0 <= i < |towns| ==> towns[i].area <= a
    ensures a == 0 <==> forall i :: 0 <= i < |towns| ==> towns[i].area == 0
  {
    if towns == [] then 0 else towns[0].area + TotalArea(towns[1..])
  }

  /** The first town flagged as a capital. */
  function FirstCapital(towns: seq<Town>): (r: Option<nat>)
    ensures r.Some? ==> r.value < |towns| && towns[r.value].flags.capital
    ensures r.Some? ==> forall j :: 0 <= j < r.value ==> !towns[j].flags.capital
    ensures r.None? ==> forall j :: 0 <= j < |towns| ==> !towns[j].flags.capital
  {
    if towns == [] then None
    else if towns[0].flags.capital then Some(0)
    else match FirstCapital(towns[1..])
      case None => None
      case Some(i) =>
        assert towns[1..][i] == towns[i + 1];
        Some(i + 1)
  }

  // ---------------------------------------------------------- lemmas

  /** The NPC test on sample names: digits after "NPC" are needed, and at
      least one of them. */
  lemma NpcExamples()
    ensures IsNpc("NPC123") && IsNpc("NPC0")
    ensures !IsNpc("NPC12a") && !IsNpc("NPC") && !IsNpc("Steve") && !IsNpc("npc7")
  {
    assert "NPC123"[..3] == "NPC" && "NPC123"[3..] == "123";
    assert IsDigits("123");
    assert "NPC0"[..3] == "NPC" && "NPC0"[3..] == "0";
    assert "NPC12a"[3..][2] == 'a';
    assert "NPC"[3..] == "";
    assert "npc7"[..3] != "NPC" by {
      assert "npc7"[..3][0] == 'n';
    }
    assert "Steve"[..3] != "NPC" by {
      assert "Steve"[..3][0] == 'S';
    }
  }

  /** "NPC" followed by any number is an NPC name. */
  lemma NumberedNpc(n: nat)
    ensures IsNpc("NPC" + NatToString(n))
  {
    NatToStringDigits(n);
    assert ("NPC" + NatToString(n))[3..] == NatToString(n);
  }

  /** The residents of a town carry, in order, the names of token 4; joined
      back with ", " they give the token. */
  lemma ResidentNames(players: seq<Player>, token: string, key: string, nation: Option<string>)
    ensures Names(ResidentsOf(players, token, key, nation)) == SplitOn(token, ListSep)
    ensures Join(Names(ResidentsOf(players, token, key, nation)), ListSep) == token
  {
    SplitJoin(token, ListSep);
  }

  /** The flags read tokens 7, 8, 10, 11 and 12 and nothing else. */
  lemma FlagsReadFiveTokens(t: seq<string>, u: seq<string>)
    requires |t| >= 13 && |u| >= 13
    requires t[7] == u[7] && t[8] == u[8] && t[10] == u[10] && t[11] == u[11] && t[12] == u[12]
    ensures FlagsOf(t) == FlagsOf(u)
  {
  }

  /** A town in ruins is never a capital and has every hazard on. */
  lemma RuinsAreNoCapital(t: Town)
    requires Coherent(t) && t.ruins
    ensures !t.flags.capital && t.flags.pvp && t.flags.mobs && t.flags.explosions && t.flags.fire
    ensures |t.residents| == 1 && t.mayor.npc
  {
  }

  /** A resident is in the citizens exactly when some town lists it. */
  lemma {:induction false} CitizensOf(towns: seq<Town>, c: Resident)
    ensures c in Citizens(towns) <==> exists t :: t in towns && c in t.residents
    decreases |towns|
  {
    if towns != [] {
      CitizensOf(towns[1..], c);
      assert forall t :: t in towns <==> t == towns[0] || t in towns[1..];
    }
  }

  /** The citizens of coherent towns are the residents of some town, each
      naming that town and its nation. */
  lemma CitizensOfTowns(towns: seq<Town>)
    requires forall t :: t in towns ==> Coherent(t)
    ensures forall c :: c in Citizens(towns) <==> exists t :: t in towns && c in t.residents
    ensures forall c :: c in Citizens(towns) ==> exists t :: t in towns && c.town == Some(t.key) && c.nation == t.nation
  {
    forall c
      ensures c in Citizens(towns) <==> exists t :: t in towns && c in t.residents
    {
      CitizensOf(towns, c);
    }
  }

  /** There are as many citizens as the towns have residents together. */
  lemma {:induction false} CitizensCount(towns: seq<Town>)
    ensures |Citizens(towns)| == ResidentCount(towns)
    decreases |towns|
  {
    if towns != [] {
      CitizensCount(towns[1..]);
    }
  }

  function ResidentCount(towns: seq<Town>): nat {
    if towns == [] then 0 else |towns[0].residents| + ResidentCount(towns[1..])
  }

  /** A nation's area is at least the area of each of its towns. */
  lemma {:induction false} TotalAreaCovers(towns: seq<Town>, t: Town)
    requires t in towns
    ensures t.area <= TotalArea(towns)
    decreases |towns|
  {
    if towns[0] != t {
      assert t in towns[1..];
      TotalAreaCovers(towns[1..], t);
    }
  }

  /** The area of a list of towns is the sum over its parts. */
  lemma {:induction false} TotalAreaAppend(a: seq<Town>, b: seq<Town>)
    ensures TotalArea(a + b) == TotalArea(a) + TotalArea(b)
    decreases |a|
  {
    if a == [] {
      assert a + b == b;
    } else {
      assert (a + b)[0] == a[0];
      assert (a + b)[1..] == a[1..] + b;
      TotalAreaAppend(a[1..], b);
    }
  }

  /** On the usual first token "Town (Nation)", with no parenthesis in
      either name, the town's and the nation's readings agree. */
  lemma ReadingsAgree(town: string, nation: string)
    requires '(' !in town && '(' !in nation
    ensures TownNationName(town + " (" + nation + ")") == nation
    ensures NationNameOf(town + " (" + nation + ")") == nation
  {
    var s := town + " (" + nation + ")";
    assert DropLast(s, 1) == town + " (" + nation;
    assert town + " (" + nation == (town + " ") + "(" + nation;
    MissingCharNotContained(town, " (", 1);
    MissingCharNotContained(town + " ", "(", 0);
    MissingCharNotContained(nation, " (", 1);
    MissingCharNotContained(nation, "(", 0);
    SplitAfterPiece(town, " (", nation);
    SplitAfterPiece(town + " ", "(", nation);
    SplitWithoutSep(nation, " (");
    SplitWithoutSep(nation, "(");
  }

  /** A nation name holding a parenthesis reads differently: the town cuts
      at the last "(", the nation at the last " (". */
  lemma ReadingsDiverge()
    ensures TownNationName("T (N(x))") == "x)"
    ensures NationNameOf("T (N(x))") == "N(x)"
  {
    TownReadingNested();
    NationReadingNested();
  }

  /** The town's reading of "T (N(x))" splits "T (N(x)" at both "(". */
  lemma TownReadingNested()
    ensures TownNationName("T (N(x))") == "x)"
  {
    assert DropLast("T (N(x))", 1) == "T (N(x)";
    assert "T (N(x)" == "T " + "(" + ("N" + "(" + "x)");
    MissingCharNotContained("T ", "(", 0);
    MissingCharNotContained("N", "(", 0);
    MissingCharNotContained("x)", "(", 0);
    SplitAfterPiece("T ", "(", "N" + "(" + "x)");
    SplitAfterPiece("N", "(", "x)");
    SplitWithoutSep("x)", "(");
  }

  /** The nation's reading of "T (N(x))" splits "T (N(x)" at its one " (". */
  lemma NationReadingNested()
    ensures NationNameOf("T (N(x))") == "N(x)"
  {
    assert DropLast("T (N(x))", 1) == "T (N(x)";
    assert "T (N(x)" == "T" + " (" + "N(x)";
    MissingCharNotContained("T", " (", 1);
    MissingCharNotContained("N(x)", " (", 0);
    SplitAfterPiece("T", " (", "N(x)");
    SplitWithoutSep("N(x)", " (");
  }
}
