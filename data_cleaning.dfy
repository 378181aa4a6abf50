/** clean_character (DataCleaning.js): one raw JSON record becomes a
    Character. Its keys are fixed first (fix_spaces_in_json_keys), then the
    location (get_location), the text fields, the factions, the primary
    skill and the stats are read from it. select_characters, the other half
    of that file, is in selection.dfy. */
module DataCleaning {
  import opened JsBuiltins

  /** A raw record as `for...in` visits it: its keys, in visiting order, with
      their (string) values. */
  type RawRecord = seq<(string, string)>

  /** A record after key fixing: a JavaScript object, keyed by property name. */
  type FixedRecord = map<string, string>

  const NoBreakSpace: char := '\U{00A0}'

  /** The key fix of fix_spaces_in_json_keys: split the key on U+00A0 and
      join the pieces with an ordinary space. */
  function FixKey(key: string): string
  {
    Join(Split(key, [NoBreakSpace]), " ")
  }

  /** What FixKey does to one character. */
  function SpaceFor(c: char): char
  {
    if c == NoBreakSpace then ' ' else c
  }

  /** Splitting on U+00A0 and joining with ' ' replaces every U+00A0 by an
      ordinary space and keeps every other character where it was. */
  lemma {:induction false} FixKeyCharwise(key: string)
    ensures |FixKey(key)| == |key|
    ensures forall k :: 0 <= k < |key| ==> FixKey(key)[k] == SpaceFor(key[k])
    decreases |key|
  {
    var sep := [NoBreakSpace];
    match IndexOf(key, sep, 0)
    case None =>
      assert FixKey(key) == key;
      forall k: nat | k < |key| ensures key[k] != NoBreakSpace {
        assert key[k] == NoBreakSpace ==> OccursAt(key, sep, k);
      }
    case Some(i) =>
      var tail := key[i + 1..];
      FixKeyUnfold(key, i);
      FixKeyCharwise(tail);
      forall k: nat | k < |key| ensures FixKey(key)[k] == SpaceFor(key[k]) {
        if k < i {
          assert key[k] == NoBreakSpace ==> OccursAt(key, sep, k);
        } else if k == i {
          assert OccursAt(key, sep, i);
        } else {
          assert key[k] == tail[k - i - 1];
        }
      }
  }

  /** One step of the split: the text before the first U+00A0, a space, and
      the fix of the rest. */
  lemma FixKeyUnfold(key: string, i: nat)
    requires IndexOf(key, [NoBreakSpace], 0) == Some(i)
    ensures FixKey(key) == key[..i] + " " + FixKey(key[i + 1..])
  {
    var sep := [NoBreakSpace];
    var rest := Split(key[i + 1..], sep);
    assert Split(key, sep) == [key[..i]] + rest;
    assert ([key[..i]] + rest)[1..] == rest;
  }

  /** A fixed key has no U+00A0 left in it. */
  lemma FixKeyRemovesNoBreakSpaces(key: string)
    ensures NoBreakSpace !in FixKey(key)
  {
    FixKeyCharwise(key);
  }

  /** Fixing a key twice is fixing it once, and a key with no U+00A0 is kept. */
  lemma FixKeyIdempotent(key: string)
    ensures FixKey(FixKey(key)) == FixKey(key)
    ensures NoBreakSpace !in key ==> FixKey(key) == key
  {
    FixKeyCharwise(key);
    FixKeyCharwise(FixKey(key));
  }

  /** The object fix_spaces_in_json_keys builds: each visited key, fixed, is
      (re)assigned its value, so a later key overwrites an earlier one that
      fixes to the same name. */
  function FixedKeys(raw: RawRecord): FixedRecord
  {
    if raw == [] then map[]
    else FixedKeys(raw[..|raw| - 1])[FixKey(raw[|raw| - 1].0) := raw[|raw| - 1].1]
  }

  /** fix_spaces_in_json_keys: fills a fresh object key by key. */
  method FixSpacesInJsonKeys(raw: RawRecord) returns (fixed: FixedRecord)
    ensures fixed == FixedKeys(raw)
  {
    fixed := map[];
    for i := 0 to |raw|
      invariant fixed == FixedKeys(raw[..i])
    {
      assert raw[..i + 1][..i] == raw[..i];
      fixed := fixed[FixKey(raw[i].0) := raw[i].1];
    }
    assert raw[..|raw|] == raw;
  }

  /** The fixed record has exactly the fixed names of the raw keys, none of
      them with a U+00A0 in it. */
  lemma {:induction false} FixedKeysDomain(raw: RawRecord)
    ensures forall k :: k in FixedKeys(raw) <==> exists i :: 0 <= i < |raw| && FixKey(raw[i].0) == k
    ensures forall k :: k in FixedKeys(raw) ==> NoBreakSpace !in k
  {
    if raw != [] {
      var init := raw[..|raw| - 1];
      FixedKeysDomain(init);
      FixKeyRemovesNoBreakSpaces(raw[|raw| - 1].0);
      forall k | k in FixedKeys(raw) ensures exists i :: 0 <= i < |raw| && FixKey(raw[i].0) == k {
        if k != FixKey(raw[|raw| - 1].0) {
          assert k in FixedKeys(init);
          var i :| 0 <= i < |init| && FixKey(init[i].0) == k;
          assert raw[i] == init[i];
        }
      }
      forall k | exists i :: 0 <= i < |raw| && FixKey(raw[i].0) == k ensures k in FixedKeys(raw) {
        var i :| 0 <= i < |raw| && FixKey(raw[i].0) == k;
        if i < |init| {
          assert init[i] == raw[i];
        }
      }
    }
  }

  /** When two keys collide after fixing, the one visited later wins: a key
      that no later key fixes to the same name keeps its value. */
  lemma {:induction false} FixedKeysLastWins(raw: RawRecord, i: nat)
    requires i < |raw|
    requires forall j :: i < j < |raw| ==> FixKey(raw[j].0) != FixKey(raw[i].0)
    ensures FixKey(raw[i].0) in FixedKeys(raw)
    ensures FixedKeys(raw)[FixKey(raw[i].0)] == raw[i].1
  {
    if i < |raw| - 1 {
      var init := raw[..|raw| - 1];
      assert init[i] == raw[i];
      FixedKeysLastWins(init, i);
    }
  }

  /** A raw record with every key already fixed. */
  function FixAllKeys(raw: RawRecord): (r: RawRecord)
    ensures |r| == |raw|
  {
    seq(|raw|, i requires 0 <= i < |raw| => (FixKey(raw[i].0), raw[i].1))
  }

  lemma {:induction false} FixedKeysOfFixed(raw: RawRecord)
    ensures FixedKeys(FixAllKeys(raw)) == FixedKeys(raw)
  {
    if raw != [] {
      var last := raw[|raw| - 1];
      assert FixAllKeys(raw)[..|raw| - 1] == FixAllKeys(raw[..|raw| - 1]);
      FixedKeysOfFixed(raw[..|raw| - 1]);
      FixKeyIdempotent(last.0);
    }
  }

  /** The `faction` field: the string "none" or an array of faction names. */
  datatype FactionField = NoFaction | Factions(names: seq<string>)

  /** A cleaned character record; a stat is None where parseInt gave NaN. */
  datatype Character = Character(
    name: string,
    location: string,
    race: string,
    gender: string,
    characterClass: string,
    morality: string,
    aggression: string,
    faction: FactionField,
    skill: string,
    health: Option<int>,
    magicka: Option<int>,
    stamina: Option<int>)

  /** `character[key] ? character[key].trim() : "none"`: a string is truthy
      when it is not empty. */
  function TextField(c: FixedRecord, key: string): (r: string)
    ensures IsTrimmed(r)
    ensures key !in c || c[key] == "" ==> r == "none"
    ensures key in c && c[key] != "" ==> r == Trim(c[key])
  {
    if key in c && c[key] != "" then Trim(c[key]) else "none"
  }

  /** get_location: the first of "Home City", "Home Town", "Location" that is
      PRESENT (an empty value still wins), else "none"; cut before the
      first ", ". */
  function GetLocation(c: FixedRecord): (r: string)
    ensures "Home City" in c ==> IsFirstPiece(r, c["Home City"], ", ")
    ensures "Home City" !in c && "Home Town" in c ==> IsFirstPiece(r, c["Home Town"], ", ")
    ensures "Home City" !in c && "Home Town" !in c && "Location" in c ==>
      IsFirstPiece(r, c["Location"], ", ")
    ensures "Home City" !in c && "Home Town" !in c && "Location" !in c ==> r == "none"
    ensures !Contains(r, ", ")
  {
    var location :=
      if "Home City" in c then c["Home City"]
      else if "Home Town" in c then c["Home Town"]
      else if "Location" in c then c["Location"]
      else "none";
    SplitHead(location, ", ");
    assert !Contains("none", ", ") by { WithoutFirstCharacter("none", ", "); }
    Split(location, ", ")[0]
  }

  /** The `faction` field: the "; "-separated pieces, each trimmed. */
  function FactionsOf(c: FixedRecord): (r: FactionField)
    ensures r.Factions? <==> "Faction(s)" in c && c["Faction(s)"] != ""
    ensures r.Factions? ==> |r.names| == |Split(c["Faction(s)"], "; ")|
    ensures r.Factions? ==> forall k :: 0 <= k < |r.names| ==> IsTrimmed(r.names[k])
    ensures r.Factions? ==> forall k :: 0 <= k < |r.names| ==>
      r.names[k] == Trim(Split(c["Faction(s)"], "; ")[k])
  {
    if "Faction(s)" in c && c["Faction(s)"] != "" then
      var pieces := Split(c["Faction(s)"], "; ");
      Factions(seq(|pieces|, k requires 0 <= k < |pieces| => Trim(pieces[k])))
    else NoFaction
  }

  /** The `skill` field: the first ", "-separated entry of "Primary Skills". */
  function SkillOf(c: FixedRecord): (r: string)
    ensures IsTrimmed(r)
    ensures !Contains(r, ", ")
    ensures "Primary Skills" !in c || c["Primary Skills"] == "" ==> r == "none"
    ensures "Primary Skills" in c && c["Primary Skills"] != "" ==>
      exists p :: IsFirstPiece(p, c["Primary Skills"], ", ") && r == Trim(p)
  {
    if "Primary Skills" in c && c["Primary Skills"] != "" then
      var first := Split(c["Primary Skills"], ", ")[0];
      SplitHead(c["Primary Skills"], ", ");
      TrimOmits(first, ", ");
      Trim(first)
    else
      assert !Contains("none", ", ") by { WithoutFirstCharacter("none", ", "); }
      "none"
  }

  /** `parseInt(character[key])`: parseInt(undefined) is NaN. */
  function StatOf(c: FixedRecord, key: string): Option<int>
  {
    if key in c then ParseInt(c[key]) else None
  }

  /** A string missing the first character of `sep` cannot contain `sep`. */
  lemma WithoutFirstCharacter(s: string, sep: string)
    requires sep != [] && sep[0] !in s
    ensures !Contains(s, sep)
  {
    forall k: nat | k <= |s| ensures !OccursAt(s, sep, k) {
      if k + |sep| <= |s| {
        assert s[k..k + |sep|][0] == s[k];
      }
    }
  }

  /** Trimming a string that does not contain `sep` leaves one that does not. */
  lemma TrimOmits(s: string, sep: string)
    requires !Contains(s, sep)
    ensures !Contains(Trim(s), sep)
  {
    var t := TrimStart(s);
    InfixOmits(s, sep, |s| - |t|, |s|);
    assert s[|s| - |t|..|s|] == t;
    InfixOmits(t, sep, 0, |Trim(s)|);
    assert t[0..|Trim(s)|] == Trim(s);
  }

  /** clean_character: the record's keys are fixed, then each field is picked
      and cleaned. Every text field comes out trimmed, the location and the
      skill hold no ", ", and there is one trimmed faction per "; "-piece. */
  function CleanCharacter(raw: RawRecord): (ch: Character)
    ensures IsTrimmed(ch.name) && IsTrimmed(ch.location) && IsTrimmed(ch.race)
    ensures IsTrimmed(ch.gender) && IsTrimmed(ch.characterClass)
    ensures IsTrimmed(ch.morality) && IsTrimmed(ch.aggression) && IsTrimmed(ch.skill)
    ensures !Contains(ch.location, ", ") && !Contains(ch.skill, ", ")
    ensures ch.name == "none" <== "Name" !in FixedKeys(raw) || FixedKeys(raw)["Name"] == ""
    ensures ch.faction.Factions? ==> forall k :: 0 <= k < |ch.faction.names| ==> IsTrimmed(ch.faction.names[k])
    ensures var c := FixedKeys(raw);
      && ch.name == TextField(c, "Name") && ch.race == TextField(c, "Race")
      && ch.gender == TextField(c, "Gender") && ch.characterClass == TextField(c, "Class")
      && ch.morality == TextField(c, "Morality") && ch.aggression == TextField(c, "Aggression")
      && ch.location == Trim(GetLocation(c)) && ch.faction == FactionsOf(c)
      && ch.skill == SkillOf(c)
      && ch.health == StatOf(c, "Health") && ch.magicka == StatOf(c, "Magicka")
      && ch.stamina == StatOf(c, "Stamina")
  {
    var c := FixedKeys(raw);
    TrimOmits(GetLocation(c), ", ");
    Character(
      name := TextField(c, "Name"),
      location := Trim(GetLocation(c)),
      race := TextField(c, "Race"),
      gender := TextField(c, "Gender"),
      characterClass := TextField(c, "Class"),
      morality := TextField(c, "Morality"),
      aggression := TextField(c, "Aggression"),
      faction := FactionsOf(c),
      skill := SkillOf(c),
      health := StatOf(c, "Health"),
      magicka := StatOf(c, "Magicka"),
      stamina := StatOf(c, "Stamina"))
  }

  /** A key spelled with U+00A0 (say "Home Town") is read exactly as the
      same key spelled with ordinary spaces. */
  lemma CleanCharacterIgnoresNoBreakSpaces(raw: RawRecord)
    ensures CleanCharacter(FixAllKeys(raw)) == CleanCharacter(raw)
  {
    FixedKeysOfFixed(raw);
  }

  /** Location precedence is by key presence, not truthiness: an empty
      "Home City" beats any "Home Town" or "Location" and gives "". */
  lemma LocationByPresence(raw: RawRecord)
    requires "Home City" in FixedKeys(raw) && FixedKeys(raw)["Home City"] == ""
    ensures CleanCharacter(raw).location == ""
  {
    assert Split("", ", ") == [""];
  }

  /** A stat written as a decimal numeral (possibly followed by text that
      cannot continue it, such as " (leveled)") is read back as its value. */
  lemma StatOfNumeral(c: FixedRecord, key: string, n: int, rest: string)
    requires key in c && c[key] == ToDecimal(n) + rest
    requires rest == [] || (DigitValue(rest[0]) >= 10 && rest[0] != 'x' && rest[0] != 'X')
    ensures StatOf(c, key) == Some(n)
  {
    ParseIntOfDecimal(n, rest);
  }

  /** An absent stat is NaN, never 0. */
  lemma StatOfAbsent(c: FixedRecord, key: string)
    requires key !in c || c[key] == ""
    ensures StatOf(c, key) == None
  {
    if key in c {
      ParseIntOfNonNumeric(c[key]);
    }
  }
}
