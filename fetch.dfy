/** `get_data` after the two HTTP responses have been decoded, `map_link`
    and the `Bounds` record (pythmc/get.py; pythmc/nova/get.py is the same
    with the server fixed to nova).

    The area feed is an ordered dictionary from marker name to area record;
    the model keeps it as a sequence of (name, record) pairs in feed order,
    since the order of the resulting town map is observable (a resident's
    town is the first match in map order). */
module Fetch {
  import opened Wrappers
  import opened PyStr
  import Markup

  // ------------------------------------------------------------ records

  /** A record's `desc` entry: the marker text as the feed delivers it, or
      the token list `get_data` puts in its place. */
  datatype Desc = Text(text: string) | Parts(tokens: seq<string>)

  /** An area record: the marker's `label` (here `title`), fill colour, vertex coordinates, and
      the description. */
  datatype Area = Area(title: string, fillcolor: string, x: seq<int>, z: seq<int>, desc: Desc)

  /** One entry of the live player feed. */
  datatype Player = Player(account: string, x: int, y: int, z: int)

  /** What `get_data` returns: the town map and the player list. */
  datatype Snapshot = Snapshot(towns: seq<(string, Area)>, players: seq<Player>)

  predicate DistinctKeys(d: seq<(string, Area)>) {
    forall i, j :: 0 <= i < j < |d| ==> d[i].0 != d[j].0
  }

  // ------------------------------------------------ key normalisation

  /** Marker names of town areas end in "__0". */
  const AreaSuffix: string := "__0"

  /** `name[:-3].lower()` */
  function TownKey(name: string): string {
    Lower(DropLast(name, 3))
  }

  /** The position of key `k` in a dictionary, if present. */
  function IndexOf(d: seq<(string, Area)>, k: string): (r: Option<nat>)
    ensures r.Some? ==> r.value < |d| && d[r.value].0 == k
    ensures r.Some? ==> forall j :: 0 <= j < r.value ==> d[j].0 != k
    ensures r.None? ==> forall j :: 0 <= j < |d| ==> d[j].0 != k
  {
    if d == [] then None
    else if d[0].0 == k then Some(0)
    else match IndexOf(d[1..], k)
      case None => None
      case Some(i) =>
        assert d[1..][i] == d[i + 1];
        Some(i + 1)
  }

  /** `k in d` */
  predicate HasKey(d: seq<(string, Area)>, k: string) {
    IndexOf(d, k).Some?
  }

  /** `d.get(k)` */
  function Lookup(d: seq<(string, Area)>, k: string): (r: Option<Area>)
    ensures r.Some? <==> HasKey(d, k)
    ensures r.Some? ==> (k, r.value) in d
  {
    match IndexOf(d, k)
    case None => None
    case Some(i) => Some(d[i].1)
  }

  /** `d[k] = v` on a Python dictionary: an existing key keeps its place and
      takes the new value; a new key goes at the end. */
  function Store(d: seq<(string, Area)>, k: string, v: Area): (r: seq<(string, Area)>)
    ensures |r| == if HasKey(d, k) then |d| else |d| + 1
    ensures forall j :: 0 <= j < |d| ==> r[j].0 == d[j].0
    ensures forall j :: 0 <= j < |d| && d[j].0 != k ==> r[j] == d[j]
    ensures HasKey(d, k) ==> r[IndexOf(d, k).value] == (k, v)
    ensures !HasKey(d, k) ==> r[|d|] == (k, v)
  {
    match IndexOf(d, k)
    case Some(i) => d[i := (k, v)]
    case None => d + [(k, v)]
  }

  /** `{name[:-3].lower(): area for name, area in feed if name.endswith("__0")}` */
  function NormaliseKeys(feed: seq<(string, Area)>): (r: seq<(string, Area)>)
    ensures |r| <= |feed|
    ensures forall j :: 0 <= j < |r| ==> LastListing(feed, r[j].0).Some?
    decreases |feed|
  {
    if feed == [] then []
    else
      var d := NormaliseKeys(feed[..|feed| - 1]);
      var (name, area) := feed[|feed| - 1];
      if EndsWith(name, AreaSuffix) then Store(d, TownKey(name), area) else d
  }

  /** The feed entry `i` is a town area stored under key `k`. */
  predicate ListedAs(feed: seq<(string, Area)>, i: int, k: string) {
    0 <= i < |feed| && EndsWith(feed[i].0, AreaSuffix) && TownKey(feed[i].0) == k
  }

  /** The last feed entry listed under key `k`, if any. */
  function LastListing(feed: seq<(string, Area)>, k: string): (r: Option<nat>)
    ensures r.Some? ==> ListedAs(feed, r.value, k)
    ensures r.Some? ==> forall i :: r.value < i < |feed| ==> !ListedAs(feed, i, k)
    ensures r.None? ==> forall i :: !ListedAs(feed, i, k)
    decreases |feed|
  {
    if feed == [] then None
    else if ListedAs(feed, |feed| - 1, k) then Some(|feed| - 1)
    else
      var front := feed[..|feed| - 1];
      assert forall i :: 0 <= i < |front| ==> (ListedAs(front, i, k) <==> ListedAs(feed, i, k));
      LastListing(front, k)
  }

  /** `IndexOf` finds the first entry with the key. */
  lemma IndexOfFirst(d: seq<(string, Area)>, k: string, i: nat)
    requires i < |d| && d[i].0 == k
    requires forall j :: 0 <= j < i ==> d[j].0 != k
    ensures IndexOf(d, k) == Some(i)
  {
  }

  /** Reading back after a store. */
  lemma StoreLookup(d: seq<(string, Area)>, k: string, v: Area, x: string)
    ensures Lookup(Store(d, k, v), x) == if x == k then Some(v) else Lookup(d, x)
  {
    var s := Store(d, k, v);
    match IndexOf(d, k)
    case Some(i) =>
      assert s == d[i := (k, v)];
      IndexOfFirst(s, k, i);
      if x != k {
        match IndexOf(d, x)
        case Some(y) =>
          IndexOfFirst(s, x, y);
        case None =>
          assert forall j :: 0 <= j < |s| ==> s[j].0 != x;
      }
    case None =>
      assert s == d + [(k, v)];
      if x == k {
        IndexOfFirst(s, k, |d|);
      } else {
        match IndexOf(d, x)
        case Some(y) =>
          IndexOfFirst(s, x, y);
        case None =>
          assert forall j :: 0 <= j < |s| ==> s[j].0 != x;
      }
  }

  /** Storing a key keeps the keys distinct; every key of the result was
      there before or is the stored one. */
  lemma StoreKeys(d: seq<(string, Area)>, k: string, v: Area)
    requires DistinctKeys(d)
    ensures DistinctKeys(Store(d, k, v))
    ensures forall j :: 0 <= j < |Store(d, k, v)| ==>
              Store(d, k, v)[j].0 == k || (j < |d| && Store(d, k, v)[j].0 == d[j].0)
  {
  }

  /** The stored keys are distinct and lower case. */
  lemma {:induction false} NormaliseKeysDistinct(feed: seq<(string, Area)>)
    ensures DistinctKeys(NormaliseKeys(feed))
    ensures forall j :: 0 <= j < |NormaliseKeys(feed)| ==> IsLower(NormaliseKeys(feed)[j].0)
    decreases |feed|
  {
    if feed != [] {
      var front := feed[..|feed| - 1];
      NormaliseKeysDistinct(front);
      var (name, area) := feed[|feed| - 1];
      if EndsWith(name, AreaSuffix) {
        StoreKeys(NormaliseKeys(front), TownKey(name), area);
        LowerIsLower(DropLast(name, 3));
      }
    }
  }

  /** Dictionary semantics of the comprehension: a key is present exactly
      when some marker name ending in "__0" has it as its lower-cased stem,
      and it holds the record of the last such marker. */
  lemma {:induction false} NormaliseKeysLookup(feed: seq<(string, Area)>, k: string)
    ensures Lookup(NormaliseKeys(feed), k) ==
              match LastListing(feed, k)
              case None => None
              case Some(i) => Some(feed[i].1)
    decreases |feed|
  {
    if feed != [] {
      var front := feed[..|feed| - 1];
      NormaliseKeysLookup(front, k);
      LookupStep(feed, k);
      if !ListedAs(feed, |feed| - 1, k) {
        match LastListing(front, k)
        case None =>
        case Some(i) => assert feed[i] == front[i];
      }
    }
  }

  /** One more feed entry: it sets key `k` when it is listed under it and
      leaves `k` alone otherwise. */
  lemma LookupStep(feed: seq<(string, Area)>, k: string)
    requires feed != []
    ensures Lookup(NormaliseKeys(feed), k) ==
              if ListedAs(feed, |feed| - 1, k) then Some(feed[|feed| - 1].1)
              else Lookup(NormaliseKeys(feed[..|feed| - 1]), k)
  {
    var (name, area) := feed[|feed| - 1];
    if EndsWith(name, AreaSuffix) {
      StoreLookup(NormaliseKeys(feed[..|feed| - 1]), TownKey(name), area, k);
    }
  }

  /** The first feed entry listed under key `k`, if any. */
  function FirstListing(feed: seq<(string, Area)>, k: string): (r: Option<nat>)
    ensures r.Some? ==> ListedAs(feed, r.value, k)
    ensures r.Some? ==> forall i :: 0 <= i < r.value ==> !ListedAs(feed, i, k)
    ensures r.None? ==> forall i :: !ListedAs(feed, i, k)
    decreases |feed|
  {
    if feed == [] then None
    else
      var front := feed[..|feed| - 1];
      assert forall i :: 0 <= i < |front| ==> (ListedAs(front, i, k) <==> ListedAs(feed, i, k));
      match FirstListing(front, k)
      case Some(i) => Some(i)
      case None => if ListedAs(feed, |feed| - 1, k) then Some(|feed| - 1) else None
  }

  /** Dictionary order of the comprehension: the keys stand in the order
      of their first listing in the feed, so a repeated key keeps the place
      its first marker gave it. */
  lemma {:induction false} NormaliseKeysOrder(feed: seq<(string, Area)>)
    ensures forall j :: 0 <= j < |NormaliseKeys(feed)| ==> FirstListing(feed, NormaliseKeys(feed)[j].0).Some?
    ensures forall j1, j2 :: 0 <= j1 < j2 < |NormaliseKeys(feed)| ==>
              && FirstListing(feed, NormaliseKeys(feed)[j1].0).Some?
              && FirstListing(feed, NormaliseKeys(feed)[j2].0).Some?
              && FirstListing(feed, NormaliseKeys(feed)[j1].0).value < FirstListing(feed, NormaliseKeys(feed)[j2].0).value
    decreases |feed|
  {
    if feed != [] {
      var front := feed[..|feed| - 1];
      NormaliseKeysOrder(front);
      var d := NormaliseKeys(front);
      var r := NormaliseKeys(feed);
      forall j | 0 <= j < |d|
        ensures FirstListing(feed, d[j].0) == FirstListing(front, d[j].0)
      {
        FirstListingStep(feed, d[j].0);
      }
      var (name, area) := feed[|feed| - 1];
      if EndsWith(name, AreaSuffix) && !HasKey(d, TownKey(name)) {
        NewKeyListedLast(feed);
      }
      OrderAfterStore(feed, d);
    }
  }

  /** A key already listed before the last entry keeps its first listing. */
  lemma FirstListingStep(feed: seq<(string, Area)>, k: string)
    requires feed != [] && FirstListing(feed[..|feed| - 1], k).Some?
    ensures FirstListing(feed, k) == FirstListing(feed[..|feed| - 1], k)
  {
  }

  /** A key the last entry adds was never listed before it. */
  lemma NewKeyListedLast(feed: seq<(string, Area)>)
    requires feed != [] && EndsWith(feed[|feed| - 1].0, AreaSuffix)
    requires !HasKey(NormaliseKeys(feed[..|feed| - 1]), TownKey(feed[|feed| - 1].0))
    ensures FirstListing(feed, TownKey(feed[|feed| - 1].0)) == Some(|feed| - 1)
  {
    var front := feed[..|feed| - 1];
    var k := TownKey(feed[|feed| - 1].0);
    NormaliseKeysLookup(front, k);
    assert LastListing(front, k).None?;
  }

  /** The order step: the keys of the front keep their first listings, and
      a new key comes last with the last listing. */
  lemma OrderAfterStore(feed: seq<(string, Area)>, d: seq<(string, Area)>)
    requires feed != [] && d == NormaliseKeys(feed[..|feed| - 1])
    requires forall j :: 0 <= j < |d| ==>
               && FirstListing(feed[..|feed| - 1], d[j].0).Some?
               && FirstListing(feed, d[j].0) == FirstListing(feed[..|feed| - 1], d[j].0)
    requires forall j1, j2 :: 0 <= j1 < j2 < |d| ==>
               && FirstListing(feed[..|feed| - 1], d[j1].0).Some?
               && FirstListing(feed[..|feed| - 1], d[j2].0).Some?
               && FirstListing(feed[..|feed| - 1], d[j1].0).value < FirstListing(feed[..|feed| - 1], d[j2].0).value
    requires EndsWith(feed[|feed| - 1].0, AreaSuffix) && !HasKey(d, TownKey(feed[|feed| - 1].0)) ==>
               FirstListing(feed, TownKey(feed[|feed| - 1].0)) == Some(|feed| - 1)
    ensures forall j :: 0 <= j < |NormaliseKeys(feed)| ==> FirstListing(feed, NormaliseKeys(feed)[j].0).Some?
    ensures forall j1, j2 :: 0 <= j1 < j2 < |NormaliseKeys(feed)| ==>
              && FirstListing(feed, NormaliseKeys(feed)[j1].0).Some?
              && FirstListing(feed, NormaliseKeys(feed)[j2].0).Some?
              && FirstListing(feed, NormaliseKeys(feed)[j1].0).value < FirstListing(feed, NormaliseKeys(feed)[j2].0).value
  {
    var front := feed[..|feed| - 1];
    var r := NormaliseKeys(feed);
    var (name, area) := feed[|feed| - 1];
    forall j | 0 <= j < |d|
      ensures FirstListing(front, d[j].0).value < |feed| - 1
    {
    }
    if EndsWith(name, AreaSuffix) {
      assert r == Store(d, TownKey(name), area);
    } else {
      assert r == d;
    }
  }

  /** In a dictionary with distinct keys each entry is what its key looks up. */
  lemma LookupEntry(d: seq<(string, Area)>, j: nat)
    requires DistinctKeys(d) && j < |d|
    ensures IndexOf(d, d[j].0) == Some(j)
    ensures Lookup(d, d[j].0) == Some(d[j].1)
  {
  }

  // -------------------------------------------------------- get_data

  /** The tokens `get_data` stores for a description still in text form. */
  function Tokenised(a: Area): Area
    requires a.desc.Text?
  {
    a.(desc := Parts(Markup.Tokenise(a.desc.text)))
  }

  /** A snapshot as `get_data` leaves it: distinct lower-case keys, every
      description replaced by its token list. */
  predicate WellFormed(snap: Snapshot) {
    && Keyed(snap.towns)
    && (forall j :: 0 <= j < |snap.towns| ==> snap.towns[j].1.desc.Parts?)
  }

  /** Distinct keys, all in lower case, as the comprehension leaves them. */
  predicate Keyed(d: seq<(string, Area)>) {
    DistinctKeys(d) && forall j :: 0 <= j < |d| ==> IsLower(d[j].0)
  }

  /** `get_data` from the decoded responses on: normalise the keys, then
      rewrite each record's `desc` in place with its token list. */
  method GetData(feed: seq<(string, Area)>, players: seq<Player>) returns (snap: Snapshot)
    requires forall i :: 0 <= i < |feed| ==> feed[i].1.desc.Text?
    ensures snap.players == players
    ensures |snap.towns| == |NormaliseKeys(feed)|
    ensures forall j :: 0 <= j < |snap.towns| ==>
              snap.towns[j].0 == NormaliseKeys(feed)[j].0
              && NormaliseKeys(feed)[j].1.desc.Text?
              && snap.towns[j].1 == Tokenised(NormaliseKeys(feed)[j].1)
    ensures WellFormed(snap)
  {
    var towns := NormaliseKeys(feed);
    NormaliseKeysDistinct(feed);
    NormalisedText(feed);
    ghost var keyed := towns;
    var i := 0;
    while i < |towns|
      invariant 0 <= i <= |towns| == |keyed|
      invariant forall j :: 0 <= j < |towns| ==> towns[j].0 == keyed[j].0
      invariant forall j :: 0 <= j < i ==> towns[j].1 == Tokenised(keyed[j].1)
      invariant forall j :: i <= j < |towns| ==> towns[j].1 == keyed[j].1
    {
      var (key, area) := towns[i];
      towns := towns[i := (key, area.(desc := Parts(Markup.Tokenise(area.desc.text))))];
      i := i + 1;
    }
    snap := Snapshot(towns, players);
    SameKeysKeyed(keyed, towns);
  }

  /** Every record the comprehension keeps comes from the feed, so its
      description is still text. */
  lemma NormalisedText(feed: seq<(string, Area)>)
    requires forall i :: 0 <= i < |feed| ==> feed[i].1.desc.Text?
    ensures forall j :: 0 <= j < |NormaliseKeys(feed)| ==> NormaliseKeys(feed)[j].1.desc.Text?
  {
    var keyed := NormaliseKeys(feed);
    NormaliseKeysDistinct(feed);
    forall j | 0 <= j < |keyed|
      ensures keyed[j].1.desc.Text?
    {
      LookupEntry(keyed, j);
      NormaliseKeysLookup(feed, keyed[j].0);
    }
  }

  /** Rewriting the records in place keeps the keys `Keyed`. */
  lemma SameKeysKeyed(a: seq<(string, Area)>, b: seq<(string, Area)>)
    requires Keyed(a) && |a| == |b|
    requires forall j :: 0 <= j < |a| ==> a[j].0 == b[j].0
    ensures Keyed(b)
  {
  }

  // -------------------------------------------------------- map_link

  datatype Server = Nova | Aurora {
    function Name(): string {
      match this
      case Nova => "nova"
      case Aurora => "aurora"
    }
  }

  const MapRoot: string := "https://earthmc.net/map/"

  /** `map_link(server, position, zoom)`: a link to the web map centred on
      the first and last coordinate of `position`. */
  function MapLink(server: Server, position: seq<int>, zoom: int := 6): (link: string)
    requires |position| >= 1
    ensures ParseMapLink(link) == Some((server, zoom, position[0], position[|position| - 1]))
  {
    var x, z := position[0], position[|position| - 1];
    IntToStringRoundTrip(zoom);
    IntToStringRoundTrip(x);
    IntToStringRoundTrip(z);
    DigitsHaveNoAmpersand(zoom);
    DigitsHaveNoAmpersand(x);
    DigitsHaveNoAmpersand(z);
    LinkOfDigits(server, IntToString(zoom), IntToString(x), IntToString(z));
    MapRoot + server.Name() + "/?zoom=" + IntToString(zoom)
      + "&x=" + IntToString(position[0]) + "&z=" + IntToString(position[|position| - 1])
  }

  /** `map_link(position, zoom)` of the nova package: the server is fixed. */
  function NovaMapLink(position: seq<int>, zoom: int := 6): (link: string)
    requires |position| >= 1
    ensures link == MapLink(Nova, position, zoom)
    ensures ParseMapLink(link) == Some((Nova, zoom, position[0], position[|position| - 1]))
  {
    NovaRoot();
    "https://earthmc.net/map/nova/?zoom=" + IntToString(zoom)
      + "&x=" + IntToString(position[0]) + "&z=" + IntToString(position[|position| - 1])
  }

  /** Reads "<name>/?zoom=<int>" back. */
  function ParseHead(head: string): Option<(Server, int)> {
    var server :=
      if StartsWith(head, "nova/?zoom=") then Some(Nova)
      else if StartsWith(head, "aurora/?zoom=") then Some(Aurora)
      else None;
    if server.None? then None
    else match ParseInt(head[|server.value.Name() + "/?zoom="|..])
      case None => None
      case Some(zoom) => Some((server.value, zoom))
  }

  /** Reads "<axis>=<int>" back. */
  function ParseField(axis: char, field: string): Option<int> {
    if |field| < 2 || field[0] != axis || field[1] != '=' then None
    else ParseInt(field[2..])
  }

  /** Reads the server, zoom, x and z back out of a map link. */
  function ParseMapLink(link: string): Option<(Server, int, int, int)> {
    if !StartsWith(link, MapRoot) then None
    else
      var fields := SplitOn(link[|MapRoot|..], "&");
      if |fields| != 3 then None
      else match (ParseHead(fields[0]), ParseField('x', fields[1]), ParseField('z', fields[2]))
        case (Some((server, zoom)), Some(x), Some(z)) => Some((server, zoom, x, z))
        case _ => None
  }

  lemma AmpersandAbsent(s: string)
    requires '&' !in s
    ensures !Contains(s, "&")
  {
    MissingCharNotContained(s, "&", 0);
  }

  lemma DigitsHaveNoAmpersand(n: int)
    ensures '&' !in IntToString(n)
  {
    IntToStringRoundTrip(n);
  }

  lemma HeadRoundTrip(server: Server, digits: string)
    requires ParseInt(digits).Some? && '&' !in digits
    ensures ParseHead(server.Name() + "/?zoom=" + digits) == Some((server, ParseInt(digits).value))
    ensures '&' !in server.Name() + "/?zoom=" + digits
  {
    match server
    case Nova => NovaHead(digits);
    case Aurora => AuroraHead(digits);
  }

  /** A nova head reads back as nova and its zoom. */
  lemma NovaHead(digits: string)
    requires ParseInt(digits).Some? && '&' !in digits
    ensures ParseHead(Nova.Name() + "/?zoom=" + digits) == Some((Nova, ParseInt(digits).value))
    ensures '&' !in Nova.Name() + "/?zoom=" + digits
  {
    var head := Nova.Name() + "/?zoom=" + digits;
    assert Nova.Name() + "/?zoom=" == "nova/?zoom=";
    assert head[..|"nova/?zoom="|] == "nova/?zoom=";
    assert head[|Nova.Name() + "/?zoom="|..] == digits;
  }

  /** An aurora head reads back as aurora and its zoom. */
  lemma AuroraHead(digits: string)
    requires ParseInt(digits).Some? && '&' !in digits
    ensures ParseHead(Aurora.Name() + "/?zoom=" + digits) == Some((Aurora, ParseInt(digits).value))
    ensures '&' !in Aurora.Name() + "/?zoom=" + digits
  {
    var head := Aurora.Name() + "/?zoom=" + digits;
    assert Aurora.Name() + "/?zoom=" == "aurora/?zoom=";
    assert !StartsWith(head, "nova/?zoom=") by {
      assert head[0] == 'a';
    }
    assert head[..|"aurora/?zoom="|] == "aurora/?zoom=";
    assert head[|Aurora.Name() + "/?zoom="|..] == digits;
  }

  lemma FieldRoundTrip(axis: char, digits: string)
    requires axis != '&' && ParseInt(digits).Some? && '&' !in digits
    ensures ParseField(axis, [axis, '='] + digits) == ParseInt(digits)
    ensures '&' !in [axis, '='] + digits
  {
    assert ([axis, '='] + digits)[2..] == digits;
  }

  /** A link made of a root, a head and two fields reads back as its parts. */
  lemma ParseLinkOf(head: string, fx: string, fz: string)
    requires '&' !in head && '&' !in fx && '&' !in fz
    requires ParseHead(head).Some? && ParseField('x', fx).Some? && ParseField('z', fz).Some?
    ensures ParseMapLink(MapRoot + (head + "&" + fx + "&" + fz))
            == Some((ParseHead(head).value.0, ParseHead(head).value.1,
                     ParseField('x', fx).value, ParseField('z', fz).value))
  {
    var tail := head + "&" + fx + "&" + fz;
    PrefixThenRest(MapRoot, tail);
    ThreeFields(head, fx, fz);
  }

  /** A prefix followed by a rest starts with the prefix and leaves the rest. */
  lemma PrefixThenRest(prefix: string, rest: string)
    ensures StartsWith(prefix + rest, prefix) && (prefix + rest)[|prefix|..] == rest
  {
    assert (prefix + rest)[..|prefix|] == prefix;
  }

  /** Three fields without '&', joined by '&', split back into themselves. */
  lemma ThreeFields(a: string, b: string, c: string)
    requires '&' !in a && '&' !in b && '&' !in c
    ensures SplitOn(a + "&" + b + "&" + c, "&") == [a, b, c]
  {
    AmpersandAbsent(a);
    AmpersandAbsent(b);
    AmpersandAbsent(c);
    assert [a, b, c][1..] == [b, c] && [b, c][1..] == [c];
    assert Join([c], "&") == c;
    assert Join([b, c], "&") == b + "&" + c;
    assert Join([a, b, c], "&") == a + "&" + (b + "&" + c) == a + "&" + b + "&" + c;
    assert "&"[1..] == [];
    JoinSplit([a, b, c], "&");
  }

  /** The round trip for any printed zoom and coordinates. */
  lemma LinkOfDigits(server: Server, sz: string, sx: string, sn: string)
    requires ParseInt(sz).Some? && ParseInt(sx).Some? && ParseInt(sn).Some?
    requires '&' !in sz && '&' !in sx && '&' !in sn
    ensures ParseMapLink(MapRoot + server.Name() + "/?zoom=" + sz + "&x=" + sx + "&z=" + sn)
            == Some((server, ParseInt(sz).value, ParseInt(sx).value, ParseInt(sn).value))
  {
    var head := server.Name() + "/?zoom=" + sz;
    var fx, fz := ['x', '='] + sx, ['z', '='] + sn;
    HeadRoundTrip(server, sz);
    FieldRoundTrip('x', sx);
    FieldRoundTrip('z', sn);
    ParseLinkOf(head, fx, fz);
    LinkShape(MapRoot, server.Name(), sz, sx, sn);
  }

  /** The printed link regrouped as root, head and the two fields. */
  lemma LinkShape(root: string, name: string, sz: string, sx: string, sn: string)
    ensures root + name + "/?zoom=" + sz + "&x=" + sx + "&z=" + sn
            == root + ((name + "/?zoom=" + sz) + "&" + (['x', '='] + sx) + "&" + (['z', '='] + sn))
  {
    assert "&x=" == "&" + ['x', '='];
    assert "&z=" == "&" + ['z', '='];
  }

  /** The nova package's fixed link prefix is the general one for nova. */
  lemma NovaRoot()
    ensures MapRoot + Nova.Name() + "/?zoom=" == "https://earthmc.net/map/nova/?zoom="
  {
  }

  /** Zoom 6 is what a link gets when no zoom is given. */
  lemma MapLinkDefaultZoom(server: Server, position: seq<int>)
    requires |position| >= 1
    ensures ParseMapLink(MapLink(server, position)) == Some((server, 6, position[0], position[|position| - 1]))
    ensures ParseMapLink(NovaMapLink(position)) == Some((Nova, 6, position[0], position[|position| - 1]))
  {
  }
}
