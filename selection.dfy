/** select_characters (DataCleaning.js) and the pipeline that feeds it: each
    cleaned record whose name was already seen is marked with the exclusion
    sentinel "x", every location is then rewritten by a first-match-wins
    chain to a canonical town or "x", and the records that keep a location
    and a usable gender are collected in order. */
module Selection {
  import opened DataCleaning

  /** The exclusion sentinel. */
  const Excluded: string := "x"

  /** Every location the rewriting chain can leave on a record other than "x".
      "Stonehills" and "Shor's Stone" are here because their branches compare
      instead of assigning, which leaves those two locations as they were. */
  const CanonicalSettlements: set<string> := {
    "Solitude", "Helgen", "Rorikstead", "Morthal", "Kynesgrove", "Riverwood",
    "Karthwasten", "Ivarstead", "Dawnstar", "Dragon Bridge", "Falkreath Sanctuary",
    "Riften", "Windhelm", "Winterhold", "The Cloud District", "Whiterun",
    "Stonehills", "Shor's Stone", "Markarth"
  }

  /** The locations each multi-way branch of the chain recognises. */
  const SolitudeAliases: set<string> := {"Solitude", "Castle Dour", "Solitude Sewers",
    "Solitude then Windhelm", "Wandering the streets near the Bards College"}
  const HelgenAliases: set<string> := {"Helgen", "Helgen Keep", "Helgen/Helgen Keep"}
  const FalkreathAliases: set<string> := {"Falkreath", "Falkreath Jail"}
  const DawnstarAliases: set<string> := {"Dawnstar", "Outside Dawnstar or Riften"}
  const SanctuaryAliases: set<string> := {"Dark Brotherhood Sanctuary", "Dawnstar Sanctuary"}
  const RiftenAliases: set<string> := {"Riften", "Riften (After his quest)", "Riften Docks",
    "Riften Jail", "The Ragged Flagon - Cistern", "The Ratway"}
  const WindhelmAliases: set<string> := {"Windhelm", "Northern Maiden (Windhelm)",
    "Outside Windhelm or Solitude"}
  const WinterholdAliases: set<string> := {"Winterhold", "The Midden", "The Midden Dark"}
  const WhiterunAliases: set<string> := {"Whiterun", "The Bannered Mare"}
  const MarkarthAliases: set<string> := {"Markarth", "Markarth Ruins", "Outside Whiterun or Markarth",
    "Silver-Blood Inn", "Temple of Dibella", "Understone Keep", "Left Hand Mine",
    "Left Hand Miner's Barracks"}

  /** The if/else chain of select_characters, for a record named `name` whose
      current location is `loc`. The branch order is the source's: the
      "Nazeem" override is consulted only after the Winterhold branch, and
      "Falkreath" goes to "Dawnstar". */
  function CanonicalLocation(loc: string, name: string): (r: string)
    ensures r == Excluded || r in CanonicalSettlements
  {
    if loc in SolitudeAliases then "Solitude"
    else if loc in HelgenAliases then "Helgen"
    else if loc == "Rorikstead" then "Rorikstead"
    else if loc == "Morthal" then "Morthal"
    else if loc == "Kynesgrove" then "Kynesgrove"
    else if loc == "Riverwood" then "Riverwood"
    else if loc == "Karthwasten" then "Karthwasten"
    else if loc == "Ivarstead" then "Ivarstead"
    else if loc in FalkreathAliases then "Dawnstar"
    else if loc == "Dragon Bridge" then "Dragon Bridge"
    else if loc in DawnstarAliases then "Dawnstar"
    else if loc in SanctuaryAliases then "Falkreath Sanctuary"
    else if loc in RiftenAliases then "Riften"
    else if loc in WindhelmAliases then "Windhelm"
    else if loc in WinterholdAliases then "Winterhold"
    else if name == "Nazeem" then "The Cloud District"
    else if loc in WhiterunAliases then "Whiterun"
    else if loc == "Stonehills" then loc
    else if loc == "Shor's Stone" then loc
    else if loc in MarkarthAliases then "Markarth"
    else Excluded
  }

  /** The locations the branches before the "Nazeem" override recognise. */
  predicate RecognisedBeforeOverride(loc: string)
  {
    || loc in SolitudeAliases || loc in HelgenAliases
    || loc in {"Rorikstead", "Morthal", "Kynesgrove", "Riverwood", "Karthwasten", "Ivarstead"}
    || loc in FalkreathAliases || loc == "Dragon Bridge" || loc in DawnstarAliases
    || loc in SanctuaryAliases || loc in RiftenAliases || loc in WindhelmAliases
    || loc in WinterholdAliases
  }

  /** The locations some branch of the chain recognises. */
  predicate Recognised(loc: string)
  {
    || RecognisedBeforeOverride(loc)
    || loc in WhiterunAliases || loc in {"Stonehills", "Shor's Stone"} || loc in MarkarthAliases
  }

  /** A location no branch recognises falls through to "x", unless the
      override for "Nazeem" catches it first. */
  lemma UnrecognisedExcluded(loc: string, name: string)
    requires !Recognised(loc)
    ensures CanonicalLocation(loc, name) ==
      if name == "Nazeem" then "The Cloud District" else Excluded
  {
  }

  /** "Falkreath" and "Falkreath Jail" are sent to "Dawnstar", whatever the
      name. */
  lemma FalkreathGoesToDawnstar(name: string)
    ensures CanonicalLocation("Falkreath", name) == "Dawnstar"
    ensures CanonicalLocation("Falkreath Jail", name) == "Dawnstar"
  {
  }

  /** The "Stonehills" and "Shor's Stone" branches only compare, so these
      locations are kept (for any name but "Nazeem", whose override comes
      first). */
  lemma StonehillsAndShorsStoneKept(name: string)
    requires name != "Nazeem"
    ensures CanonicalLocation("Stonehills", name) == "Stonehills"
    ensures CanonicalLocation("Shor's Stone", name) == "Shor's Stone"
  {
  }

  /** The "Nazeem" override is consulted after the Winterhold branch: a
      "Nazeem" in Solitude stays there, one in Whiterun is moved to "The
      Cloud District". */
  lemma NazeemOverrideComesLate()
    ensures CanonicalLocation("Solitude", "Nazeem") == "Solitude"
    ensures CanonicalLocation("Whiterun", "Nazeem") == "The Cloud District"
  {
  }

  /** The "Nazeem" override applies exactly when no branch before it
      matched; a location those branches recognise is rewritten the same
      way whatever the name. */
  lemma NazeemOverrideOrder(loc: string, name: string)
    ensures CanonicalLocation(loc, "Nazeem") == "The Cloud District" <==> !RecognisedBeforeOverride(loc)
    ensures RecognisedBeforeOverride(loc) ==> CanonicalLocation(loc, name) == CanonicalLocation(loc, "Nazeem")
  {
  }

  /** An unknown location such as "Atmora", and the empty location an empty
      "Home City" gives, are excluded for any name but "Nazeem". */
  lemma UnknownLocationsExcluded(name: string)
    requires name != "Nazeem"
    ensures CanonicalLocation("Atmora", name) == Excluded
    ensures CanonicalLocation("", name) == Excluded
  {
  }

  /** The sentinel is none of the locations before the "Nazeem" override. */
  lemma SentinelBeforeOverride()
    ensures Excluded !in SolitudeAliases && Excluded !in HelgenAliases
    ensures Excluded !in FalkreathAliases && Excluded !in DawnstarAliases
    ensures Excluded !in SanctuaryAliases && Excluded !in RiftenAliases
    ensures Excluded !in WindhelmAliases && Excluded !in WinterholdAliases
    ensures Excluded !in {"Rorikstead", "Morthal", "Kynesgrove", "Riverwood", "Karthwasten",
                          "Ivarstead", "Dragon Bridge"}
  {
  }

  /** The sentinel is none of the locations after the "Nazeem" override. */
  lemma SentinelAfterOverride()
    ensures Excluded !in WhiterunAliases && Excluded !in MarkarthAliases
    ensures Excluded !in {"Stonehills", "Shor's Stone"}
  {
  }

  /** A record already marked "x" stays excluded, unless the override for
      "Nazeem" applies. */
  lemma ExcludedStaysExcluded(name: string)
    ensures CanonicalLocation(Excluded, name) ==
      if name == "Nazeem" then "The Cloud District" else Excluded
  {
    SentinelBeforeOverride();
    SentinelAfterOverride();
  }

  /** The names of the records in `s`. */
  function Names(s: seq<Character>): set<string>
  {
    set i | 0 <= i < |s| :: s[i].name
  }

  /** The location of record `i` after the dedup step: "x" when its name was
      already seen at an earlier index. */
  function MarkedLocation(s: seq<Character>, i: nat): string
    requires i < |s|
  {
    if s[i].name in Names(s[..i]) then Excluded else s[i].location
  }

  /** The records after the first loop of select_characters: only the
      locations change, and the array keeps its length. */
  function Canonicalized(s: seq<Character>): (r: seq<Character>)
    ensures |r| == |s|
    ensures forall i :: 0 <= i < |s| ==> r[i] == s[i].(location := r[i].location)
  {
    seq(|s|, i requires 0 <= i < |s| => s[i].(location := CanonicalLocation(MarkedLocation(s, i), s[i].name)))
  }

  /** The survival test of the second loop. */
  predicate Selectable(c: Character)
  {
    c.location != Excluded && c.gender != "none" && c.gender != "Radiant"
  }

  /** The records that pass the survival test, in order. */
  function Survivors(s: seq<Character>): (r: seq<Character>)
    ensures |r| <= |s|
  {
    if s == [] then []
    else Survivors(s[..|s| - 1]) + (if Selectable(s[|s| - 1]) then [s[|s| - 1]] else [])
  }

  /** What select_characters returns for the cleaned records `s`. */
  function Selected(s: seq<Character>): seq<Character>
  {
    Survivors(Canonicalized(s))
  }

  /** A record whose name occurs at an earlier index is marked "x" before
      the chain runs, so it ends up excluded, or in "The Cloud District"
      when the name is "Nazeem". */
  lemma DuplicateMarked(s: seq<Character>, i: nat, j: nat)
    requires i < j < |s| && s[i].name == s[j].name
    ensures Canonicalized(s)[j].location ==
      if s[j].name == "Nazeem" then "The Cloud District" else Excluded
  {
    assert s[..j][i] == s[i];
    assert s[j].name in Names(s[..j]);
    ExcludedStaysExcluded(s[j].name);
  }

  /** The first record with a given name keeps its own location through the
      dedup step, which then only goes through the chain. */
  lemma FirstOccurrenceRewritten(s: seq<Character>, j: nat)
    requires j < |s|
    requires forall i :: 0 <= i < j ==> s[i].name != s[j].name
    ensures Canonicalized(s)[j].location == CanonicalLocation(s[j].location, s[j].name)
  {
    assert s[j].name !in Names(s[..j]);
  }

  /** The survivors are exactly the records of `s` that pass the test. */
  lemma {:induction false} SurvivorsMembership(s: seq<Character>, c: Character)
    ensures c in Survivors(s) <==> c in s && Selectable(c)
  {
    if s != [] {
      SurvivorsMembership(s[..|s| - 1], c);
      assert s == s[..|s| - 1] + [s[|s| - 1]];
    }
  }

  /** Filtering distributes over concatenation, so the survivors keep the
      order they had in `s`. */
  lemma {:induction false} SurvivorsAppend(a: seq<Character>, b: seq<Character>)
    ensures Survivors(a + b) == Survivors(a) + Survivors(b)
  {
    if b == [] {
      assert a + b == a;
    } else {
      SurvivorsAppend(a, b[..|b| - 1]);
      assert (a + b)[..|a + b| - 1] == a + b[..|b| - 1];
    }
  }

  /** Each survivor is a record of `s`, at an index no smaller than its own. */
  lemma {:induction false} SurvivorOrigin(s: seq<Character>, p: nat) returns (i: nat)
    requires p < |Survivors(s)|
    ensures p <= i < |s| && Survivors(s)[p] == s[i]
  {
    var t := s[..|s| - 1];
    if p < |Survivors(t)| {
      i := SurvivorOrigin(t, p);
    } else {
      i := |s| - 1;
    }
  }

  /** Two survivors come from records in the same order. */
  lemma {:induction false} SurvivorOrigins(s: seq<Character>, p: nat, q: nat) returns (i: nat, j: nat)
    requires p < q < |Survivors(s)|
    ensures i < j < |s|
    ensures Survivors(s)[p] == s[i] && Survivors(s)[q] == s[j]
  {
    var t := s[..|s| - 1];
    if q < |Survivors(t)| {
      i, j := SurvivorOrigins(t, p, q);
    } else {
      i := SurvivorOrigin(t, p);
      j := |s| - 1;
    }
  }

  /** Every selected record has a canonical settlement and a usable gender,
      and every canonicalized record that passes the test is selected. */
  lemma SelectedRecords(s: seq<Character>)
    ensures forall c :: c in Selected(s) ==>
      c.location in CanonicalSettlements && c.gender != "none" && c.gender != "Radiant"
    ensures forall c :: c in Canonicalized(s) && Selectable(c) ==> c in Selected(s)
  {
    var r := Canonicalized(s);
    forall c | c in Selected(s)
      ensures c.location in CanonicalSettlements && c.gender != "none" && c.gender != "Radiant"
    {
      SurvivorsMembership(r, c);
    }
    forall c | c in r && Selectable(c) ensures c in Selected(s) {
      SurvivorsMembership(r, c);
    }
  }

  /** Two selected records never share a name, except "Nazeem": the
      override rescues every later "Nazeem" from the "x" mark. */
  lemma SelectedNamesUnique(s: seq<Character>, p: nat, q: nat)
    requires p < q < |Selected(s)|
    requires Selected(s)[p].name == Selected(s)[q].name
    ensures Selected(s)[p].name == "Nazeem"
  {
    var r := Canonicalized(s);
    var i, j := SurvivorOrigins(r, p, q);
    SurvivorsMembership(r, r[j]);
    DuplicateMarked(s, i, j);
  }

  /** A later "Nazeem" with a usable gender is selected, so a duplicate
      pair named "Nazeem" can both survive. */
  lemma NazeemDuplicatesSurvive(s: seq<Character>, i: nat, j: nat)
    requires i < j < |s| && s[i].name == "Nazeem" && s[j].name == "Nazeem"
    requires s[j].gender != "none" && s[j].gender != "Radiant"
    ensures Canonicalized(s)[j] in Selected(s)
    ensures Canonicalized(s)[j].location == "The Cloud District"
  {
    DuplicateMarked(s, i, j);
    SurvivorsMembership(Canonicalized(s), Canonicalized(s)[j]);
  }

  /** When the first record with a name other than "Nazeem" is excluded by
      the chain, every later record with that name is excluded too, so no
      record with that name is selected. */
  lemma ExcludedFirstOccurrence(s: seq<Character>, i: nat)
    requires i < |s| && s[i].name != "Nazeem"
    requires forall k :: 0 <= k < i ==> s[k].name != s[i].name
    requires CanonicalLocation(s[i].location, s[i].name) == Excluded
    ensures forall c :: c in Selected(s) ==> c.name != s[i].name
  {
    var r := Canonicalized(s);
    forall c | c in Selected(s) ensures c.name != s[i].name {
      SurvivorsMembership(r, c);
      var k :| 0 <= k < |r| && r[k] == c;
      if k == i {
        FirstOccurrenceRewritten(s, i);
      } else if i < k && s[k].name == s[i].name {
        DuplicateMarked(s, i, k);
      }
    }
  }

  /** select_characters: rewrites the locations of `characters` in place
      and returns the survivors. */
  method SelectCharacters(characters: array<Character>) returns (selected: seq<Character>)
    modifies characters
    ensures characters[..] == Canonicalized(old(characters[..]))
    ensures selected == Survivors(characters[..])
  {
    MarkAndCanonicalize(characters);
    selected := CollectSelectable(characters);
  }

  /** One step of the first loop: the names seen grow by the record's own,
      and the record's rewrite uses the mark the names seen so far give. */
  lemma MarkStep(original: seq<Character>, i: nat, seen: set<string>)
    requires i < |original| && seen == Names(original[..i])
    ensures Names(original[..i + 1]) == seen + {original[i].name}
    ensures Canonicalized(original)[i] == original[i].(location := CanonicalLocation(
      if original[i].name in seen then Excluded else original[i].location, original[i].name))
  {
    assert original[..i + 1] == original[..i] + [original[i]];
  }

  /** The first loop of select_characters: marks every record whose name was
      already seen with "x", then rewrites its location by the chain. */
  method MarkAndCanonicalize(characters: array<Character>)
    modifies characters
    ensures characters[..] == Canonicalized(old(characters[..]))
  {
    ghost var original := characters[..];
    var seen: set<string> := {};
    for i := 0 to characters.Length
      invariant seen == Names(original[..i])
      invariant forall k :: 0 <= k < i ==> characters[k] == Canonicalized(original)[k]
      invariant forall k :: i <= k < characters.Length ==> characters[k] == original[k]
    {
      MarkStep(original, i, seen);
      var c := characters[i];
      var loc := c.location;
      if c.name !in seen {
        seen := seen + {c.name};
      } else {
        loc := Excluded;
      }
      characters[i] := c.(location := CanonicalLocation(loc, c.name));
    }
    assert characters[..] == Canonicalized(original);
  }

  /** The second loop of select_characters: collects, in order, the records
      that pass the survival test. */
  method CollectSelectable(characters: array<Character>) returns (selected: seq<Character>)
    ensures selected == Survivors(characters[..])
  {
    selected := [];
    for i := 0 to characters.Length
      invariant selected == Survivors(characters[..i])
    {
      assert characters[..i + 1][..i] == characters[..i];
      if Selectable(characters[i]) {
        selected := selected + [characters[i]];
      }
    }
    assert characters[..characters.Length] == characters[..];
  }

  /** The cleaned records: `characters_raw.map(clean_character)`. */
  function CleanAll(raw: seq<RawRecord>): (r: seq<Character>)
    ensures |r| == |raw|
    ensures forall i :: 0 <= i < |raw| ==> r[i] == CleanCharacter(raw[i])
  {
    seq(|raw|, i requires 0 <= i < |raw| => CleanCharacter(raw[i]))
  }

  /** get_JSON_character_objects once the file is read: clean every raw
      record into a fresh array, then select. A failed load leaves `raw`
      empty. */
  method GetJsonCharacterObjects(raw: seq<RawRecord>) returns (selected: seq<Character>)
    ensures selected == Selected(CleanAll(raw))
  {
    var cleaned := new Character[|raw|](i requires 0 <= i < |raw| => CleanCharacter(raw[i]));
    assert cleaned[..] == CleanAll(raw);
    selected := SelectCharacters(cleaned);
  }
}
