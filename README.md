# PythMC core, modelled in Dafny

PythMC is a client library for the EarthMC Minecraft server's web map. It
reads two documents:

- the map's area feed, with one marker per town carrying a label, a fill
  colour, the polygon's vertices and an HTML description;
- the live player feed.

From these it builds `Town`, `Nation` and `Resident` objects. This project
models what the library does once both documents have been decoded:

- `get_data` turns the area feed into the town map. It normalises the marker
  names into lower-case town keys, then rewrites each description in place
  as the list of text tokens between its markup tags.
- `map_link` builds web-map links.
- The three constructors read a town's fields by position from its tokens.
  They derive its area, bounding box and midpoint from the polygon. They
  build a nation from the towns that claim it, and place a resident in the
  first town that mentions it.
- The "known parent" factories `_with_nation` and `_with_town` hand a
  half-built town its nation, or a resident its town.
- The bulk `all` and `all_online` enumerations.

The same code appears in several copies:

- pythmc/nation.py and pythmc/aurora/nation_.py hold the same class.
- pythmc/nova/__init__.py repeats pythmc/town.py and pythmc/resident.py.
- pythmc/nova/get.py is pythmc/get.py with the server fixed to nova.

The copies differ in three ways:

- The `all` and `all_online` methods of pythmc/resident.py and
  pythmc/nation.py take `(self, cls, ...)` and call `self.get_data()`; the
  nova copy has plain class methods that call `get.get_data()`. The model
  follows the plain class methods (see "## Left out").
- pythmc/nova/__init__.py:22 has a typo, listed under "## Findings". The
  corrected behaviour is the model of pythmc/nation.py.
- The nova `Town` and `Resident` repeat the code of pythmc/town.py and
  pythmc/resident.py but build the nova `Nation`, so the typo reaches them
  too. `Nova` models the nova package's constructors and `all` methods as
  written and proves where they part from the corrected ones.

Layout, in dependency order:

| file | module | contents |
|---|---|---|
| wrappers.dfy | `Wrappers` | `Option`, `Result`, and `MapResult`: a comprehension whose elements may raise |
| pystr.dfy | `PyStr` | the Python `str` operations the source uses: `lower`, `startswith`/`endswith`, `s[:-n]`, `in`, `split`, `[-1]`, `isdigit`, `str(int)` |
| markup.dfy | `Markup` | `re.split(r"<[^<>]*>", desc)` and the empty-piece filter |
| geometry.dfy | `Geometry` | area in chunks, bounding box, midpoint |
| fetch.dfy | `Fetch` | the snapshot records, the key comprehension with Python's dictionary semantics, the in-place `desc` rewrite of `get_data`, `map_link` |
| entities.dfy | `Entities` | the `Town`, `Nation` and `Resident` records, token reading, player lookup, `Resident._with_town`, `Town._with_nation` |
| nation.dfy | `Nations` | `Nation.__init__` and `Nation.all` |
| town.dfy | `Towns` | `Town.__init__` and `Town.all` |
| resident.dfy | `Residents` | `Resident.__init__`, `Resident.all_online` and `Resident.all` |
| nova.dfy | `Nova` | the nova package's `Nation`, `Town` and `Resident` and their `all` methods, as written |

Design:

- The constructors become functions returning `Result<_, Error>`. Each
  exception the source can raise is an `Error` case:
  - `TownNotFound` and `NationNotFound` for the library's own exceptions;
  - `MissingToken` for an `IndexError` on a short description;
  - `NoCapital` for the `StopIteration` of `next` without a capital;
  - `BadGeometry` for a polygon with fewer than three vertices;
  - `AttributeError`;
  - `RuntimeError` for a `StopIteration` that escapes a generator. Python
    raises it in place of the `StopIteration` (PEP 479). A resident builds
    its town inside the generator given to `next` (pythmc/resident.py:33),
    so the capital-less nation of that town ends the resident in
    `RuntimeError`. Elsewhere the `StopIteration` stays as it is.
    `Town(...)` calls `Nation(...)` directly from its own body
    (pythmc/town.py:33), and the `next` of pythmc/nation.py:26 runs in
    `Nation.__init__` itself, outside any generator. `Town.all` and
    `Nation.all` build in set comprehensions, which are not generators.
- An `__init__` assigns each field once, and no code changes a field
  afterwards. So an entity is a value (`datatype`), not a `class`.
- The `hasattr` pre-set of the factories becomes an explicit parameter.
  `Entities.TownWithNation` and `Entities.ResidentWithTown` take the parent
  as given.
- Back-references are names, not object cycles:
  - a resident keeps its town's key;
  - a town and a resident keep their nation's name.
- The town map is an ordered sequence of (key, record) pairs. Three things
  depend on its order:
  - a resident's town is the first match in map order;
  - a nation's capital is chosen by `next` over its towns;
  - a repeated key in the dictionary comprehension keeps its first position
    and its last value.
- `get_data`'s loop changes each record in place. It is a `method` with a
  `while` loop, proved against the function that describes the normalised
  map.
- `desc` is text before `get_data` rewrites it and a token list after. In
  `Fetch.Desc` it is therefore either `Text` or `Parts`. Indexing a text desc
  yields single characters, as Python indexes a `str`.
- The Python sets the source builds for `Nation.towns`, `Nation.citizens`,
  `Town.all`, `Nation.all`, `Resident.all` and `Resident.all_online` are
  sequences in map order or player order.

Behaviour the model keeps exactly as the code has it, although a reader might
expect otherwise:

- A nation matches its towns by `split(" (")`. A town finds its nation's
  name by `split("(")`. Both are kept, and two lemmas show where they agree
  and where they do not.
- A resident's town is found by a substring test on the raw residents
  token (`name in desc[4]`), not by list membership.
- The midpoint uses floor division.
- The capital is the first flagged town, not a unique one. A nation without
  one fails with `NoCapital`.
- The mayor (token 2) is not checked to be among the residents (token 4).
  The model proves no such property, because the source does not ensure it.

## Model

| member | source | states |
|---|---|---|
| Wrappers.MapResult | pythmc/town.py:68 | a comprehension over elements that may raise: on success, one result per element in order, each the element's own result; on failure, the error of some element, with every earlier element succeeding |
| PyStr.Lower | pythmc/town.py:25 | `lower()` keeps the length and gives a lower-case string; 'A'..'Z' move to 'a'..'z' and every other character stays |
| PyStr.LowerIsLower | pythmc/town.py:25 | `lower()` keeps the length, gives a lower-case string, and is idempotent |
| PyStr.LowerOfLower | pythmc/town.py:25 | `lower()` leaves a lower-case string unchanged |
| PyStr.DropLast | pythmc/town.py:30 | `s[:-n]` is a prefix of `s`, `n` characters shorter, or empty when `s` has at most `n` characters |
| PyStr.Contains | pythmc/resident.py:33 | `needle in hay` holds only for a needle no longer than the haystack |
| PyStr.ContainsIff | pythmc/resident.py:33 | `needle in hay` exactly when the needle occurs at some position of the haystack |
| PyStr.ContainsWithin | pythmc/resident.py:33 | a string that contains the needle still contains it inside a longer string |
| PyStr.SplitOn | pythmc/town.py:37 | `str.split(sep)` gives at least one piece |
| PyStr.SplitJoin | pythmc/town.py:37 | joining the pieces of `split(sep)` with `sep` gives the string back |
| PyStr.SplitPiecesAvoidSep | pythmc/town.py:37 | no piece of `split(sep)` contains `sep` |
| PyStr.SplitWithoutSep | pythmc/town.py:30 | a string without `sep` splits into itself alone |
| PyStr.SplitAfterPiece | pythmc/nation.py:21 | splitting `p + sep + rest`, where `p` holds no `sep`, gives `p` and then the pieces of `rest` |
| PyStr.JoinSplit | pythmc/town.py:37 | splitting a join of `sep`-free pieces gives the pieces back |
| PyStr.LastPiece | pythmc/town.py:30 | `split(sep)[-1]` does not contain `sep` |
| PyStr.LastPieceMeaning | pythmc/town.py:30 | `split(sep)[-1]` is a suffix without `sep`; it is the whole string when `sep` is absent, and otherwise is preceded by `sep` |
| PyStr.IsDigits | pythmc/resident.py:38 | `isdigit()`: a non-empty string of the ASCII digits '0'..'9' only |
| PyStr.NatToStringDigits | pythmc/get.py:10 | the decimal text of a natural number is all digits and reads back as that number |
| PyStr.IntToStringRoundTrip | pythmc/get.py:10 | `str(n)` of any int reads back as `n` and holds only digits and '-' |
| Markup.CloseTag | pythmc/get.py:21 | the tag body scan ends just past the first '>' with no '<' or '>' before it, or reports that a '<' or the end comes first |
| Markup.TagLength | pythmc/get.py:21 | at the start of a string the pattern matches exactly one tag, or no prefix of the string is a tag |
| Markup.Split | pythmc/get.py:21 | `re.split(r"<[^<>]*>", s)` gives at least one piece, empty pieces included |
| Markup.SplitTagFree | pythmc/get.py:21 | a text without a complete tag splits into itself, with no tag cut out |
| Markup.SplitAfterText | pythmc/get.py:21 | tag-free text followed by a tag splits into that text, then the pieces of what follows the tag |
| Markup.SplitDecomposes | pythmc/get.py:21 | the text is its tag-free pieces interleaved with the matched tags |
| Markup.DecompositionUnique | pythmc/get.py:21 | there is only one way to write the text as tag-free pieces interleaved with tags, so the split is determined by the text |
| Markup.NonEmpty | pythmc/get.py:21 | the filter `if desc != ""` keeps exactly the non-empty pieces and loses no text; its order and repetition are fixed by NonEmptySingle and NonEmptyAppend |
| Markup.NonEmptySingle | pythmc/get.py:21 | one piece is kept exactly when it is not empty |
| Markup.NonEmptyAppend | pythmc/get.py:21 | filtering a concatenation filters each part in turn, so the kept pieces keep their order and their repeats |
| Markup.Tokenise | pythmc/get.py:21 | the tokens are exactly the non-empty pieces of the split, in the split's order and with its repeats (Tokenise is NonEmpty of the split, so NonEmptySingle and NonEmptyAppend apply), and together they hold the split's text in order |
| Markup.TokensAreTagFreeText | pythmc/get.py:21 | no token is empty and none contains a complete tag |
| Markup.TokensRejoin | pythmc/get.py:21 | the description is the pieces woven with its tags, and the tokens concatenate to the pieces: the text with every tag deleted, in order |
| Markup.PlainTextIsOneToken | pythmc/get.py:21 | a non-empty description without '<' is exactly one token, itself |
| Markup.OnlyTagsGiveNoTokens | pythmc/nova/get.py:21 | a description made only of tags gives no token |
| Geometry.Zip | pythmc/town.py:45 | `zip(x, z)` has as many vertices as the shorter list, and vertex i is the pair of the i-th x and the i-th z |
| Geometry.TwiceArea | pythmc/town.py:46 | twice the polygon's area, non-negative; a ring of fewer than three vertices encloses nothing |
| Geometry.DegenerateRing | pythmc/town.py:45-46 | the shoelace sum of a ring of fewer than three vertices is zero |
| Geometry.Translate | pythmc/town.py:45-46 | the ring moved by (dx, dz): each vertex shifted, the length kept |
| Geometry.ShoelaceTranslate | pythmc/town.py:46 | moving the ring changes the shoelace sum from vertex i on only by the telescoped step back to vertex 0 |
| Geometry.TranslateKeepsArea | pythmc/town.py:46 | moving a polygon leaves its area unchanged |
| Geometry.RectangleArea | pythmc/town.py:46 | a w x h rectangle anywhere on the map has twice-area 2wh |
| Geometry.ChunkArea | pythmc/town.py:46 | the area is the whole number of 256-block chunks: `area * 256 <= polygon area < (area + 1) * 256` |
| Geometry.MinOf | pythmc/town.py:47 | the smallest coordinate is one of them and below all others |
| Geometry.MaxOf | pythmc/town.py:47 | the largest coordinate is one of them and above all others |
| Geometry.BoundsOf | pythmc/town.py:47 | `polygon.bounds` holds every vertex, with each of its four sides reached by some vertex |
| Geometry.Midpoint | pythmc/town.py:48 | each coordinate is the floor of half the sum of the box's two sides: `2m <= max + min < 2m + 2` |
| Geometry.MidpointWithinBounds | pythmc/town.py:48 | the floor midpoint of a box lies inside the box |
| Geometry.SquareOfSixteenIsOneChunk | pythmc/town.py:46 | a 16 x 16 square is one chunk |
| Fetch.IndexOf | pythmc/town.py:26 | the position of a key is its first occurrence, or the key is absent |
| Fetch.LastListing | pythmc/get.py:19 | the last marker whose name ends in "__0" and whose lower-cased stem is the key, or none |
| Fetch.Lookup | pythmc/town.py:26 | `d.get(k)` finds a value exactly when `k` is a key, and the value is stored under `k` |
| Fetch.Store | pythmc/get.py:19 | `d[k] = v`: an existing key keeps its place and takes `v`, every other entry is unchanged; a new key goes at the end with `v` |
| Fetch.NormaliseKeys | pythmc/get.py:19 | the town map has no more entries than the feed, and each key has a marker listing it |
| Fetch.FirstListing | pythmc/get.py:19 | the first marker whose name ends in "__0" and whose lower-cased stem is the key, or none |
| Fetch.NormaliseKeysOrder | pythmc/get.py:19 | the keys stand in the order of their first listing in the feed: a repeated key keeps the position its first marker gave it |
| Fetch.IndexOfFirst | pythmc/town.py:26 | the first occurrence of a key is what the key lookup finds |
| Fetch.StoreLookup | pythmc/get.py:19 | after `d[k] = v`, `k` reads `v` and every other key reads what it did before |
| Fetch.StoreKeys | pythmc/get.py:19 | `d[k] = v` keeps the keys distinct, and adds no key other than `k` |
| Fetch.NormaliseKeysDistinct | pythmc/get.py:19 | the town map's keys are distinct and in lower case |
| Fetch.NormaliseKeysLookup | pythmc/get.py:19 | a key is in the town map exactly when some "__0" marker has it as its lower-cased stem, and it holds the record of the last such marker |
| Fetch.LookupEntry | pythmc/get.py:19 | with distinct keys, each entry is what its key looks up |
| Fetch.GetData | pythmc/get.py:19-22 | the result has the normalised map's keys in order, each record with `desc` replaced by its token list; the players are passed through; the snapshot is well formed |
| Fetch.HeadRoundTrip | pythmc/get.py:10 | the server and zoom part of a link reads back |
| Fetch.FieldRoundTrip | pythmc/get.py:10 | an `x=`/`z=` field of a link reads back |
| Fetch.ParseLinkOf | pythmc/get.py:10 | a link made of a root, a head and two fields reads back as its parts |
| Fetch.LinkOfDigits | pythmc/get.py:10 | a link built from any printed zoom and coordinates reads back as them |
| Fetch.MapLink | pythmc/get.py:9-10 | a map link reads back as its server, its zoom, the first coordinate and the last coordinate |
| Fetch.NovaMapLink | pythmc/nova/get.py:9-10 | the nova link is the general link with the server set to nova, and reads back as such |
| Fetch.MapLinkDefaultZoom | pythmc/get.py:9 | a link made without a zoom has zoom 6 |
| Entities.TokensOf | pythmc/town.py:36 | a token list indexes as itself; a description still in text form indexes character by character |
| Entities.TownNationNameMeaning | pythmc/town.py:30 | the town's reading of its nation is a suffix of the first token less its last character, without "("; with no "(" it is all of it |
| Entities.NationNameOfMeaning | pythmc/nation.py:21 | the nation's reading is a suffix of the first token less its last character, without " ("; with no " (" it is all of it |
| Entities.IsNpc | pythmc/resident.py:38 | an NPC name has at least four characters, and everything after "NPC" is a digit |
| Entities.FindPlayer | pythmc/resident.py:22 | the first player with the account name, or none has it |
| Entities.Presence | pythmc/resident.py:22-31 | online iff some player has the account; then the position is the first such player's and hidden iff it is (0, 64, 0); offline means no position and hidden |
| Entities.ResidentWithTown | pythmc/resident.py:40-45 | `_with_town` keeps the given town and its nation; the presence fields come from the player feed; npc iff "NPC" is followed by digits |
| Entities.Names | pythmc/town.py:37 | the names of the residents, in order |
| Entities.ResidentsOf | pythmc/town.py:37 | one resident per piece of `desc[4].split(", ")`, in order, each built by `_with_town` with this town |
| Entities.TownFields | pythmc/town.py:35-55 | fails iff there are fewer than 13 tokens or fewer than 3 vertices; otherwise it reads: label, colour, mayor from token 2, residents from token 4, flags; the area floor; the bounds are the vertices' bounding box; the position is the floor midpoint of the bounds, inside them; the ruins rule |
| Entities.LookupTown | pythmc/town.py:25-27 | fails with TownNotFound iff `name.lower()` is not a key; otherwise it gives that key's record |
| Entities.TownWithNation | pythmc/town.py:57-62 | `_with_nation` keeps the given nation; the town's people name it and its nation; the only errors are TownNotFound, MissingToken and BadGeometry |
| Entities.FirstCapital | pythmc/nation.py:26 | the first town flagged as capital, or none is flagged |
| Entities.FlagsOf | pythmc/town.py:38-44 | the flags are the ruins combination exactly when pvp, mobs, explosion and fire are "true" and the capital flag is not |
| Entities.Citizens | pythmc/nation.py:29 | every resident of every town is a citizen, and every citizen is a resident of some town |
| Entities.TotalArea | pythmc/nation.py:30 | the sum is at least each town's area, and zero exactly when every town's area is zero |
| Entities.NpcExamples | pythmc/resident.py:38 | "NPC123" and "NPC0" are NPCs; "NPC12a", "NPC", "Steve" and "npc7" are not |
| Entities.NumberedNpc | pythmc/resident.py:38 | "NPC" followed by any number is an NPC |
| Entities.ResidentNames | pythmc/town.py:37 | the residents carry the names of `desc[4].split(", ")` in order, and joined with ", " they give token 4 back |
| Entities.FlagsReadFiveTokens | pythmc/town.py:38-44 | the flags depend only on tokens 7, 8, 10, 11 and 12 |
| Entities.RuinsAreNoCapital | pythmc/town.py:49-55 | a coherent town in ruins has exactly one resident, an NPC mayor, every hazard on, and is no capital |
| Entities.CitizensOf | pythmc/nation.py:29 | a resident is a citizen exactly when some town lists it |
| Entities.CitizensCount | pythmc/nation.py:29 | there are as many citizens as the towns have residents together |
| Entities.CitizensOfTowns | pythmc/nation.py:29 | for coherent towns, a citizen is listed by some town and names that town's key and nation |
| Entities.TotalAreaCovers | pythmc/nation.py:30 | the summed area is at least each town's area |
| Entities.TotalAreaAppend | pythmc/nation.py:30 | the area of a concatenation of town lists is the sum of their areas, which with the empty list's 0 makes it the `sum` |
| Entities.ReadingsAgree | pythmc/nation.py:21 | with no '(' in either name, `"T (N)"` gives nation N under both the town's `split("(")` and the nation's `split(" (")` |
| Entities.ReadingsDiverge | pythmc/town.py:30 | on `"T (N(x))"` the town reads nation "x)" and the nation filter reads "N(x)" |
| Nations.NationKeys | pythmc/nation.py:21 | the towns kept are exactly those whose `desc[0][:-1].split(" (")[-1]` is the name; IndexError iff some description is empty |
| Nations.TownsWithNation | pythmc/nation.py:25 | one town per kept key, each what `Town._with_nation` builds for that key; a failure is the failure of some key |
| Nations.TownsWithNationErrors | pythmc/nation.py:25 | building a nation's towns fails only as a town does: TownNotFound, IndexError or too few vertices |
| Nations.BuildNation | pythmc/nation.py:18-30 | on success: the name, non-empty, with towns all built with this nation; the capital is the first flagged town in their order; leader and colour from the capital; citizens the union of residents; area the sum |
| Nations.ClaimedNames | pythmc/nation.py:36 | the name each town claims, in map order; IndexError iff some description is empty |
| Nations.NationNames | pythmc/nation.py:36 | IndexError exactly when some description is empty; otherwise the names are non-empty |
| Nations.DistinctClaims | pythmc/nation.py:36 | each name listed once is claimed by some town, and every claimed non-empty name is listed |
| Nations.Distinct | pythmc/aurora/nation_.py:34 | each name once, exactly the non-empty names given |
| Nations.NationAll | pythmc/nation.py:32-36 | IndexError on an empty description; otherwise as many nations as distinct non-empty claimed names, the i-th named after the i-th name |
| Nations.NationsNamed | pythmc/nation.py:36 | one nation per name, each what `Nation(name)` builds; a failure is the failure of some name |
| Nations.NationAllBuilds | pythmc/nation.py:36 | with every description non-empty, each nation of `all` is what `Nation(name)` builds for its name, and a failure of `all` is the failure of building some name |
| Nations.NationNamesMeaning | pythmc/aurora/nation_.py:34 | the names `all` builds are distinct and non-empty, each claimed by a town, and every claimed non-empty name is among them |
| Nations.NationAllNames | pythmc/nation.py:36 | `Nation.all` lists each nation once, only claimed names, and every claimed non-empty name |
| Nations.NoCapitalIff | pythmc/nation.py:21-26 | NoCapital (the `StopIteration` of `next`) is raised exactly when the filter keeps some town, the name is non-empty, every kept town builds, and none of them is flagged as the capital |
| Nations.NationNotFoundIff | pythmc/nova/__init__.py:18-20 | NationNotFound is raised exactly when every description has a first token and the name is empty or no town claims it |
| Nations.PastTheFilter | pythmc/nation.py:21-25 | once the filter keeps a town and the name is not empty, NationNotFound is not raised |
| Nations.ClaimantKey | pythmc/aurora/nation_.py:19 | a town kept by the filter is in the map under a lower-case key and claims the nation |
| Nations.NationTowns | pythmc/nation.py:21-25 | a nation's towns are exactly the towns that claim it |
| Nations.NationCitizens | pythmc/aurora/nation_.py:27 | every town of a nation is coherent, every citizen names the nation and a town listing it, and there are as many citizens as residents |
| Nations.CapitalNotInRuins | pythmc/aurora/nation_.py:24-28 | the capital is never in ruins, and its area counts towards the nation's |
| Towns.InitTown | pythmc/town.py:22-55 | an absent lower-cased key gives TownNotFound; a built town sits under that key and is coherent |
| Towns.TownAll | pythmc/town.py:64-68 | one town per key in map order, each the town that key builds; a failure is some key's failure |
| Towns.TownAllCoherent | pythmc/town.py:64-68 | every town `Town.all` builds is coherent: its mayor and residents name it and its nation, the ruins rule holds and its position lies within its bounds |
| Towns.Keys | pythmc/town.py:68 | the keys of the town map in order |
| Towns.NationFindsItsTowns | pythmc/nova/__init__.py:18-22 | with lower-case keys, a nation never fails to find one of its own towns |
| Towns.TownNotFoundIff | pythmc/town.py:25-27 | with lower-case keys, TownNotFound is raised exactly when `name.lower()` is not a key |
| Towns.TownNation | pythmc/town.py:28-35 | a town read alone has no nation iff `desc[0][:-1].split("(")[-1]` is empty, otherwise the nation of that name, which builds; label and colour come from the record |
| Towns.TownAllKeys | pythmc/town.py:64-68 | with lower-case keys, `Town.all` builds one town per key, each under its own key |
| Residents.ScanTowns | pythmc/resident.py:33 | the first town in map order whose token 4 contains the name, or none; IndexError exactly when a town with fewer than five tokens comes before any match |
| Residents.InitResident | pythmc/resident.py:19-38 | the name and presence fields; npc iff "NPC" then digits; IndexError when the scan for the town fails; no town found gives a resident without town or nation; a town found gives its key and nation, or that town's error with `StopIteration` turned into RuntimeError, so a resident never fails with NoCapital |
| Residents.Accounts | pythmc/resident.py:51 | the account names of the player feed, in order |
| Residents.ResidentAllOnline | pythmc/resident.py:47-51 | one resident per live player, each built from its account name; a failure is the failure of some player's account, never NoCapital |
| Residents.ResidentAll | pythmc/resident.py:53-57 | the residents of every town of `Town.all`, town by town, or `Town.all`'s error |
| Residents.ResidentTown | pythmc/resident.py:32-37 | a resident read alone lives in the first town mentioning it, or nowhere when none does; its nation is that town's |
| Residents.SubstringMatch | pythmc/resident.py:33 | "Bob" is placed in a town listing only "Bobby, Alice" that comes before the town listing "Bob" |
| Residents.AllOnlineAreOnline | pythmc/resident.py:47-51 | every resident of `all_online` is online, has a position and bears its player's account name |
| Residents.ResidentAllMembers | pythmc/resident.py:53-57 | `Resident.all` is exactly the union of the towns' residents, each naming its town and that town's nation |
| Nova.NovaNationAsWritten | pythmc/nova/__init__.py:15-27 | the nova nation never builds: NationNotFound exactly where the corrected one gives it, AttributeError wherever the corrected one succeeds |
| Nova.NovaTownAsWritten | pythmc/nova/__init__.py:64-97 | a nova town that builds has no nation and is coherent |
| Nova.NovaTownLosesNation | pythmc/nova/__init__.py:76 | every town that builds with a nation in the corrected model raises AttributeError in the nova package |
| Nova.NovaTownAgrees | pythmc/nova/__init__.py:72-76 | a town the corrected constructor builds is the same in the nova package when it has no nation, and raises AttributeError when it has one |
| Nova.NovaNationOfClaimed | pythmc/nova/__init__.py:18-22 | a non-empty name some town claims, on a map with every description present, raises AttributeError in the nova package |
| Nova.NovaTownAll | pythmc/nova/__init__.py:106-110 | one nova town per key in map order, each what the nova `Town` builds for it; a failure is some key's failure |
| Nova.NovaTownAllAgrees | pythmc/nova/__init__.py:106-110 | where the corrected `Town.all` succeeds, the nova one gives the same towns when none has a nation, and raises AttributeError when one has |
| Nova.NovaTownAllFailure | pythmc/nova/__init__.py:106-110 | where the corrected `Town.all` succeeds and the nova one fails, the error is AttributeError and some town has a nation |
| Nova.NovaTownAllSuccess | pythmc/nova/__init__.py:106-110 | where both succeed, they give the same towns, none with a nation |
| Nova.NovaTownBuilt | pythmc/nova/__init__.py:64-97 | a town both constructors build is the same town, without a nation |
| Nova.NovaResidentAsWritten | pythmc/nova/__init__.py:146-165 | a nova resident that builds has no nation |
| Nova.NovaResidentAgrees | pythmc/nova/__init__.py:159-164 | a resident the corrected constructor builds is the same in the nova package when it has no nation, and raises AttributeError when it has one |
| Nova.NovaResidentAllOnline | pythmc/nova/__init__.py:174-178 | one nova resident per live player, each built from its account name; a failure is some account's failure |
| Nova.NovaResidentAll | pythmc/nova/__init__.py:180-184 | the residents of the nova `Town.all`, none with a nation, or its error |
| Nova.NovaNationAll | pythmc/nova/__init__.py:29-33 | IndexError on an empty description; it succeeds only with no claimed name, and then gives no nation |
| Nova.NovaNationAllFails | pythmc/nova/__init__.py:29-33 | as soon as some town claims a name, the nova `Nation.all` raises AttributeError |
| Nova.OneTownClaims | pythmc/nova/__init__.py:18 | on the one-town map the filter keeps the town for nation "N" |
| Nova.OneTownBuilds | pythmc/nova/__init__.py:100-104 | on the one-town map the town builds with a known nation and is a capital |
| Nova.NovaNationCounterexample | pythmc/nova/__init__.py:22 | on the one-town map the corrected constructor builds nation "N" and the nova one raises AttributeError |
| Nova.OneTownHasBob | pythmc/nova/__init__.py:160 | on the one-town map the scan for "Bob" stops at the one town |
| Nova.OneTownReadsN | pythmc/nova/__init__.py:72-76 | the one town's first token names nation "N" |
| Nova.OneTownInNation | pythmc/nova/__init__.py:64-97 | the corrected constructor builds the one town as part of nation "N" |
| Nova.NovaResidentCounterexample | pythmc/nova/__init__.py:160 | on the one-town map the corrected constructor puts "Bob" in nation "N", and the nova `Resident("Bob")` raises AttributeError |

## Left out

- HTTP: `requests.get`, `raise_for_status` and `.json()` in `get_data` are not modelled. `Fetch.GetData` starts from the decoded area feed and player list, and the server name only chooses the URL.
- The `data is None` paths that fetch a snapshot are not modelled. `get.get_data()` is called there without its server argument, and the `get_data` methods of the base classes return None, so these paths are I/O that is also broken.
- pythmc/aurora/__init__.py is not part of this model. It passes `data` positionally to a keyword-only parameter.
- The circular imports of town.py, resident.py and nation.py are not modelled, nor is the `all(self, cls, ...)` signature of the `all` methods in resident.py and nation.py. The model treats `all` as the plain class method that the nova copy has.
- `__str__` and `__repr__` are left out; they only format text.
- Floating point: coordinates, vertices and positions are integers. `map_link` prints integers, so its float formatting is not modelled. The `int(...)` truncation of float bounds has no counterpart.
- The shapely polygon is replaced by the integer shoelace formula on the closed ring. A ring with fewer than three vertices fails with `BadGeometry`. Other ring validation by shapely (self-intersection and the like) is not modelled.
- Python sets, and their identity hashing, are modelled as sequences. Duplicates are kept and the order is map order or player order. So the capital is the first flagged town in map order, where set iteration order would decide in the source.
- `lower()` and `isdigit()` are modelled on ASCII; Unicode case mapping and Unicode digits are not.
- Back-references are the parent's key or name, not the parent object.
- `Town.key`, the map key a town was built from, is a field the source does not have. The model uses it to state which town a resident lives in.
- Towns.InitTown: it states TownNotFound only for an absent key, not "exactly when". The nation a town builds raises TownNotFound itself when the map holds a key that is not in lower case. `Towns.TownNotFoundIff` proves both directions for maps whose keys are lower case, as `get_data` leaves them.
- Residents.ResidentAllOnline, Residents.ResidentAll, Nations.NationAll and Towns.TownAll: they return sequences where the source returns sets. Each lemma about membership states it as membership in the sequence.

## Findings

| source | as written | input that shows it | evidently intended | confidence | as-written member | corrected member |
|---|---|---|---|---|---|---|
| pythmc/nova/__init__.py:22 | `town.Town._with_nation(town, data, self)`, where `town` is the comprehension's key, a `str`: the attribute lookup `town.Town` raises `AttributeError` on the first kept town | `Nova.OneTownMap()`: one town "t" with first token "T (N)" and 13 tokens, flagged capital, 16 x 16 triangle; `Nation("N", data=...)` | `Town._with_nation(town, data, self)`, as pythmc/nation.py:25 has it | not executed | Nova.NovaNationAsWritten | Nations.BuildNation |
