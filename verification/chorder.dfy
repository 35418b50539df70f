/** The text expander of `Chording/Chorder.py`: the layout manager's key to
    character conversion, the controller's word buffer and expansion, and the
    profile store (a map of named chord tables, one of them active).  The
    keyboard listener, the text-input back end and the Qt window are left to
    the environment: an expansion is the edit the controller asks the back end
    to make, and the window's actions are the data changes they make. */
module Chorder {
  import opened Text

  // ---------------------------------------------------------------------------
  // Keys and characters

  /** The layout the locale selects: QWERTZ for a German locale, else QWERTY. */
  datatype Layout = Qwerty | Qwertz

  /** A key event: a key carrying a character, space, enter, or any other key
      (including a key whose character is unknown). */
  datatype Key = CharKey(ch: char) | SpaceKey | EnterKey | OtherKey

  /** The layout manager's special mappings for QWERTZ. */
  const QwertzMappings: map<char, char> := map['z' := 'y', 'y' := 'z', '\'' := '#']

  /** `KeyboardLayoutManager.get_char`. */
  function GetChar(layout: Layout, key: Key): (r: string)
    ensures key.CharKey? ==> |r| == 1
    ensures key.CharKey? && layout == Qwerty ==> r == [key.ch]
    ensures key.CharKey? && key.ch !in "zy'" ==> r == [key.ch]
    ensures key == SpaceKey ==> r == " "
    ensures key == EnterKey ==> r == "\n"
    ensures key == OtherKey ==> r == ""
  {
    match key
    case CharKey(c) =>
      if layout == Qwertz && c in QwertzMappings then [QwertzMappings[c]] else [c]
    case SpaceKey => " "
    case EnterKey => "\n"
    case OtherKey => ""
  }

  /** One character of `_apply_qwertz_mapping`. */
  function QwertzChar(c: char): char
  {
    if LowerChar(c) == 'y' then (if IsLower(c) then 'z' else 'Z')
    else if LowerChar(c) == 'z' then (if IsLower(c) then 'y' else 'Y')
    else if c == '\'' then '#'
    else c
  }

  /** `_apply_qwertz_mapping`: the text with every character mapped. */
  function ApplyQwertz(text: string): (r: string)
    ensures |r| == |text|
    ensures forall i :: 0 <= i < |text| ==> r[i] == QwertzChar(text[i])
  {
    seq(|text|, i requires 0 <= i < |text| => QwertzChar(text[i]))
  }

  /** The mapping swaps y and z keeping case, turns the apostrophe into `#`
      and leaves every other character alone. */
  lemma QwertzCharTable(c: char)
    ensures QwertzChar(c) == match c
                             case 'y' => 'z'
                             case 'z' => 'y'
                             case 'Y' => 'Z'
                             case 'Z' => 'Y'
                             case '\'' => '#'
                             case _ => c
  {
  }

  /** Mapping twice gives back any text without an apostrophe. */
  lemma ApplyQwertzTwice(text: string)
    requires '\'' !in text
    ensures ApplyQwertz(ApplyQwertz(text)) == text
  {
    forall i | 0 <= i < |text| ensures ApplyQwertz(ApplyQwertz(text))[i] == text[i] {
      QwertzCharTable(text[i]);
      QwertzCharTable(QwertzChar(text[i]));
    }
  }

  /** On a character key, the QWERTZ `get_char` agrees with the text mapping
      for every character but the capitals Y and Z, which it leaves alone. */
  lemma GetCharAgreesWithQwertz(c: char)
    ensures c != 'Y' && c != 'Z' ==> GetChar(Qwertz, CharKey(c)) == [QwertzChar(c)]
    ensures c == 'Y' || c == 'Z' ==> GetChar(Qwertz, CharKey(c)) == [c] != [QwertzChar(c)]
  {
    QwertzCharTable(c);
  }

  // ---------------------------------------------------------------------------
  // The controller

  /** A request to the text-input back end: delete `delete` characters before
      the cursor, then type `insert`. */
  datatype Edit = Edit(delete: nat, insert: string)

  /** The controller's state.  `names` lists the profile names in the
      dictionary's insertion order; `shortcuts` is the dictionary object the
      controller last bound as active (the same object as `profiles[current]`,
      so a change to one is a change to the other). */
  datatype Controller = Controller(
    layout: Layout,
    names: seq<string>,
    profiles: map<string, map<string, string>>,
    current: string,
    shortcuts: map<string, string>,
    word: string)

  /** `names` are the profile dictionary's keys, each once. */
  predicate WellFormed(c: Controller)
  {
    && (forall i, j :: 0 <= i < j < |c.names| ==> c.names[i] != c.names[j])
    && c.profiles.Keys == set n | n in c.names
  }

  /** The active profile exists and `shortcuts` is its table. */
  predicate Coherent(c: Controller)
  {
    c.current in c.profiles && c.shortcuts == c.profiles[c.current]
  }

  const DefaultNames: seq<string> := ["Default", "Developer", "Medical", "Legal", "Student"]

  /** `DEFAULT_PROFILES`. */
  const DefaultProfiles: map<string, map<string, string>> := map[
    "Default" := map["btw" := "by the way", "idk" := "I don't know", "omw" := "on my way"],
    "Developer" := map["cls" := "class", "fn" := "function", "ret" := "return", "imp" := "import", "pr" := "print"],
    "Medical" := map["pt" := "patient", "rx" := "prescription", "dx" := "diagnosis", "tx" := "treatment", "hx" := "history"],
    "Legal" := map["def" := "defendant", "plt" := "plaintiff", "jdg" := "judgment", "crt" := "court", "att" := "attorney"],
    "Student" := map["asap" := "as soon as possible", "tba" := "to be announced", "tbd" := "to be determined",
                     "eg" := "for example", "ie" := "that is"]]

  /** The constructor with the profiles `_load_profiles` returned: the
      "Default" profile is active and the word buffer empty; without a
      "Default" profile the constructor fails (`None`). */
  function Start(layout: Layout, names: seq<string>, profiles: map<string, map<string, string>>): (r: Option<Controller>)
    ensures r.None? <==> "Default" !in profiles
    ensures r.Some? ==> Coherent(r.value) && r.value.current == "Default" && r.value.word == ""
                        && r.value.names == names && r.value.profiles == profiles && r.value.layout == layout
  {
    if "Default" in profiles then Some(Controller(layout, names, profiles, "Default", profiles["Default"], ""))
    else None
  }

  /** Without a profiles file the controller starts from the five default
      profiles, "Default" active. */
  lemma StartWithDefaults(layout: Layout)
    ensures var r := Start(layout, DefaultNames, DefaultProfiles);
      r.Some? && WellFormed(r.value) && Coherent(r.value) && r.value.shortcuts["btw"] == "by the way"
  {
    var r := Start(layout, DefaultNames, DefaultProfiles);
    assert r.Some?;
    DefaultNamesListKeys();
  }

  lemma DefaultNamesListKeys()
    ensures (forall i, j :: 0 <= i < j < |DefaultNames| ==> DefaultNames[i] != DefaultNames[j])
    ensures DefaultProfiles.Keys == set n | n in DefaultNames
  {
    DefaultNamesDistinct();
    DefaultKeys();
  }

  lemma DefaultKeys()
    ensures DefaultProfiles.Keys == set n | n in DefaultNames
  {
    var ks := {"Default", "Developer", "Medical", "Legal", "Student"};
    assert DefaultProfiles.Keys == ks;
    assert forall n :: n in DefaultNames <==> n in ks;
  }

  lemma DefaultNamesDistinct()
    ensures forall i, j :: 0 <= i < j < |DefaultNames| ==> DefaultNames[i] != DefaultNames[j]
  {
    var d := DefaultNames;
    assert d[0][0] == 'D' && d[1][0] == 'D' && d[2][0] == 'M' && d[3][0] == 'L' && d[4][0] == 'S';
    assert d[0][2] == 'f' && d[1][2] == 'v';
  }

  /** `check_and_expand`: nothing for an empty word, a missing active profile
      or a missing or empty expansion; otherwise delete the word and the
      space typed after it, and type the expansion (QWERTZ-mapped under
      QWERTZ) and a space. */
  function CheckAndExpand(c: Controller): (r: Option<Edit>)
    ensures r.Some? <==> c.word != "" && c.current in c.profiles && Lower(c.word) in c.profiles[c.current]
                         && c.profiles[c.current][Lower(c.word)] != ""
    ensures r.Some? ==>
              var e := c.profiles[c.current][Lower(c.word)];
              r.value.delete == |c.word| + 1
              && r.value.insert == (if c.layout == Qwertz then ApplyQwertz(e) else e) + " "
  {
    if c.word == "" || c.current !in c.profiles then None
    else
      var key := Lower(c.word);
      if key !in c.profiles[c.current] || c.profiles[c.current][key] == "" then None
      else
        var e := c.profiles[c.current][key];
        Some(Edit(|c.word| + 1, (if c.layout == Qwertz then ApplyQwertz(e) else e) + " "))
  }

  /** `on_press`: space expands the buffered word when its lower-case form is
      a chord of the active profile and empties the buffer; an alphanumeric
      character key extends the buffer; any other key changes nothing.  When
      the active profile is missing, space raises inside the handler's `try`
      and the buffer is kept. */
  function OnPress(c: Controller, key: Key): (r: (Controller, Option<Edit>))
    ensures r.0 == c.(word := r.0.word)
    ensures key == SpaceKey && c.current in c.profiles ==> r.0.word == ""
    ensures key == SpaceKey ==> (r.1.Some? <==> CheckAndExpand(c).Some?) && (r.1.Some? ==> r.1 == CheckAndExpand(c))
    ensures key.CharKey? && IsAlnum(key.ch) ==> r.0.word == c.word + [key.ch]
    ensures !(key.CharKey? && IsAlnum(key.ch)) && !(key == SpaceKey && c.current in c.profiles) ==> r.0 == c
    ensures key != SpaceKey ==> r.1 == None
  {
    match key
    case SpaceKey =>
      if c.current !in c.profiles then (c, None)
      else
        var e := if Lower(c.word) in c.profiles[c.current] then CheckAndExpand(c) else None;
        (c.(word := ""), e)
    case CharKey(ch) =>
      if IsAlnum(ch) then (c.(word := c.word + [ch]), None) else (c, None)
    case _ => (c, None)
  }

  /** What the text-input back end does with an edit: remove up to `delete`
      characters from the end of the document, then append `insert`. */
  function ApplyEdit(doc: string, e: Edit): string
  {
    (if e.delete <= |doc| then doc[..|doc| - e.delete] else "") + e.insert
  }

  /** When the buffered word was typed at the end of the document followed by
      the space that triggered the expansion, the edit replaces that word and
      space by the expansion and a space. */
  lemma ExpansionReplacesWord(c: Controller, before: string)
    requires c.layout == Qwerty && CheckAndExpand(c).Some?
    ensures ApplyEdit(before + c.word + " ", CheckAndExpand(c).value)
            == before + c.profiles[c.current][Lower(c.word)] + " "
  {
    var doc := before + c.word + " ";
    assert doc[..|doc| - (|c.word| + 1)] == before;
  }

  /** The buffer after a run of key presses. */
  function Feed(c: Controller, keys: seq<Key>): (r: Controller)
    decreases |keys|
  {
    if |keys| == 0 then c else Feed(OnPress(c, keys[0]).0, keys[1..])
  }

  /** The alphanumeric characters among the character keys, in order. */
  function AlnumChars(keys: seq<Key>): string
  {
    if |keys| == 0 then ""
    else (if keys[0].CharKey? && IsAlnum(keys[0].ch) then [keys[0].ch] else "") + AlnumChars(keys[1..])
  }

  /** Without a space, key presses only append their alphanumeric characters
      to the buffer; with the active profile present, a space ends the word. */
  lemma {:induction false} FeedWord(c: Controller, keys: seq<Key>)
    requires SpaceKey !in keys
    ensures Feed(c, keys) == c.(word := c.word + AlnumChars(keys))
    decreases |keys|
  {
    if |keys| > 0 {
      var c1 := OnPress(c, keys[0]).0;
      assert SpaceKey !in keys[1..] by { assert forall k :: k in keys[1..] ==> k in keys; }
      FeedWord(c1, keys[1..]);
      if keys[0].CharKey? && IsAlnum(keys[0].ch) {
        assert c.word + AlnumChars(keys) == c.word + [keys[0].ch] + AlnumChars(keys[1..]);
      } else {
        assert AlnumChars(keys) == AlnumChars(keys[1..]);
      }
    }
  }

  // ---------------------------------------------------------------------------
  // Profiles

  /** The profile names lower-cased, in order. */
  function LowerNames(names: seq<string>): (r: seq<string>)
    ensures |r| == |names| && forall i :: 0 <= i < |names| ==> r[i] == Lower(names[i])
  {
    seq(|names|, i requires 0 <= i < |names| => Lower(names[i]))
  }

  /** Whether some profile name matches `name` ignoring case. */
  predicate KnownIgnoringCase(names: seq<string>, name: string)
  {
    Lower(name) in LowerNames(names)
  }

  /** `create_profile`: with the stripped name matching no existing profile
      ignoring case, an empty profile of that name is added and becomes
      active; otherwise nothing changes. */
  function CreateProfile(c: Controller, name: string): (r: Controller)
    ensures KnownIgnoringCase(c.names, Strip(name)) ==> r == c
    ensures !KnownIgnoringCase(c.names, Strip(name)) ==>
              && r.names == c.names + [Strip(name)]
              && r.profiles == c.profiles[Strip(name) := map[]]
              && r.current == Strip(name) && Coherent(r)
              && r.word == c.word && r.layout == c.layout
  {
    var n := Strip(name);
    if KnownIgnoringCase(c.names, n) then c
    else c.(names := c.names + [n], profiles := c.profiles[n := map[]], current := n, shortcuts := map[])
  }

  /** Creating a profile keeps the name list in step with the dictionary and
      the active table bound to the active profile. */
  lemma CreateProfileKeeps(c: Controller, name: string)
    requires WellFormed(c) && Coherent(c)
    ensures WellFormed(CreateProfile(c, name)) && Coherent(CreateProfile(c, name))
  {
    var n := Strip(name);
    if !KnownIgnoringCase(c.names, n) {
      UnknownIsFresh(c.names, n);
      AddFresh(c, n);
    }
  }

  /** A name unknown ignoring case is not listed. */
  lemma UnknownIsFresh(names: seq<string>, n: string)
    requires !KnownIgnoringCase(names, n)
    ensures forall i :: 0 <= i < |names| ==> names[i] != n
  {
    forall i | 0 <= i < |names| ensures names[i] != n {
      assert LowerNames(names)[i] == Lower(names[i]);
    }
  }

  /** Adding an unlisted empty profile and activating it keeps the state well formed. */
  lemma AddFresh(c: Controller, n: string)
    requires WellFormed(c) && forall i :: 0 <= i < |c.names| ==> c.names[i] != n
    ensures var r := c.(names := c.names + [n], profiles := c.profiles[n := map[]], current := n, shortcuts := map[]);
      WellFormed(r) && Coherent(r)
  {
    AppendFresh(c.names, n);
  }

  /** Appending a name not yet listed keeps the names distinct. */
  lemma AppendFresh(names: seq<string>, n: string)
    requires forall i, j :: 0 <= i < j < |names| ==> names[i] != names[j]
    requires forall i :: 0 <= i < |names| ==> names[i] != n
    ensures var r := names + [n]; forall i, j :: 0 <= i < j < |r| ==> r[i] != r[j]
    ensures (set x | x in names + [n]) == (set x | x in names) + {n}
  {
  }

  /** The index of the last name equal to `key` once lower-cased: the entry
      the `{k.lower(): k}` comprehension keeps. */
  function LastMatch(names: seq<string>, key: string): (r: Option<nat>)
    ensures r.None? <==> forall i :: 0 <= i < |names| ==> Lower(names[i]) != key
    ensures r.Some? ==> r.value < |names| && Lower(names[r.value]) == key
                        && forall j :: r.value < j < |names| ==> Lower(names[j]) != key
    decreases |names|
  {
    if |names| == 0 then None
    else if Lower(names[|names| - 1]) == key then Some(|names| - 1)
    else LastMatch(names[..|names| - 1], key)
  }

  /** `set_profile`: a present name becomes active; any other is ignored. */
  function SetProfile(c: Controller, name: string): (r: Controller)
    ensures name in c.profiles ==> r == c.(current := name, shortcuts := c.profiles[name])
    ensures name !in c.profiles ==> r == c
  {
    if name in c.profiles then c.(current := name, shortcuts := c.profiles[name]) else c
  }

  /** `switch_profile`: the stripped name resolved ignoring case to its stored
      spelling (the last one, should several differ only in case), or
      "Default" when none matches. */
  function SwitchProfile(c: Controller, name: string): (r: Controller)
    ensures r.names == c.names && r.profiles == c.profiles && r.word == c.word && r.layout == c.layout
  {
    match LastMatch(c.names, Lower(Strip(name)))
    case Some(i) => SetProfile(c, c.names[i])
    case None => SetProfile(c, "Default")
  }

  /** A name known ignoring case activates the stored profile of that
      spelling; an unknown one falls back to "Default". */
  lemma SwitchProfileResolves(c: Controller, name: string)
    requires WellFormed(c)
    ensures KnownIgnoringCase(c.names, Strip(name)) ==>
              var r := SwitchProfile(c, name);
              Coherent(r) && r.current in c.names && Lower(r.current) == Lower(Strip(name))
    ensures !KnownIgnoringCase(c.names, Strip(name)) ==> SwitchProfile(c, name) == SetProfile(c, "Default")
  {
    var key := Lower(Strip(name));
    match LastMatch(c.names, key)
    case Some(i) =>
      assert c.names[i] in c.names;
      assert LowerNames(c.names)[i] == key;
    case None =>
      assert forall i :: 0 <= i < |c.names| ==> LowerNames(c.names)[i] != key;
  }

  /** Switching keeps the state well formed and, with "Default" present,
      always leaves an active profile. */
  lemma SwitchProfileKeeps(c: Controller, name: string)
    requires WellFormed(c) && "Default" in c.profiles
    ensures WellFormed(SwitchProfile(c, name)) && Coherent(SwitchProfile(c, name))
  {
    SwitchProfileResolves(c, name);
  }

  /** `get_profiles`: the profile names in insertion order. */
  function GetProfiles(c: Controller): (r: seq<string>)
    ensures WellFormed(c) ==> forall n :: n in r <==> n in c.profiles
  {
    c.names
  }

  /** The list names every profile exactly once. */
  lemma GetProfilesCount(c: Controller)
    requires WellFormed(c)
    ensures |GetProfiles(c)| == |c.profiles|
  {
    DistinctCount(c.names);
  }

  /** A list of distinct names has as many entries as the set of them. */
  lemma {:induction false} DistinctCount(names: seq<string>)
    requires forall i, j :: 0 <= i < j < |names| ==> names[i] != names[j]
    ensures |(set n | n in names)| == |names|
    decreases |names|
  {
    if |names| > 0 {
      var init := names[..|names| - 1];
      var last := names[|names| - 1];
      assert names == init + [last];
      assert (set n | n in names) == (set n | n in init) + {last};
      assert forall i :: 0 <= i < |init| ==> init[i] == names[i] != last;
      assert last !in (set n | n in init);
      DistinctCount(init);
    }
  }

  /** `names` without `name`. */
  function Remove(names: seq<string>, name: string): (r: seq<string>)
    ensures forall n :: n in r <==> n in names && n != name
  {
    if |names| == 0 then []
    else
      var rest := Remove(names[1..], name);
      if names[0] == name then rest
      else
        assert forall n :: n in [names[0]] + rest <==> n == names[0] || n in rest;
        [names[0]] + rest
  }

  /** Removing a name keeps the other names distinct. */
  lemma {:induction false} RemoveDistinct(names: seq<string>, name: string)
    requires forall i, j :: 0 <= i < j < |names| ==> names[i] != names[j]
    ensures forall i, j :: 0 <= i < j < |Remove(names, name)| ==> Remove(names, name)[i] != Remove(names, name)[j]
    decreases |names|
  {
    if |names| > 0 {
      var rest := Remove(names[1..], name);
      RemoveDistinct(names[1..], name);
      assert forall i, j :: 0 <= i < j < |rest| ==> rest[i] != rest[j];
      if names[0] != name {
        assert forall i :: 0 <= i < |names| - 1 ==> names[1..][i] == names[i + 1] != names[0];
        assert names[0] !in rest;
        var r := [names[0]] + rest;
        assert Remove(names, name) == r;
        forall i, j | 0 <= i < j < |r| ensures r[i] != r[j] {
          assert r[j] == rest[j - 1] && r[j] in rest;
          if i > 0 { assert r[i] == rest[i - 1]; } else { assert r[i] == names[0]; }
        }
      } else {
        assert Remove(names, name) == rest;
      }
    }
  }

  /** The state after a `delete_profile` call: done, or stopped by the
      `KeyError` of looking up the deleted "Default" profile, with the
      changes made before it. */
  datatype Outcome = Done(state: Controller) | KeyError(state: Controller)

  /** `delete_profile`: an unknown name (matched exactly) changes nothing;
      otherwise the profile goes and "Default" becomes active.  Deleting
      "Default" itself removes it and then fails binding the active table. */
  function DeleteProfile(c: Controller, name: string): (r: Outcome)
    ensures name !in c.profiles ==> r == Done(c)
    ensures name in c.profiles ==>
              && r.state.profiles == c.profiles - {name}
              && r.state.names == Remove(c.names, name)
              && r.state.current == "Default"
              && r.state.word == c.word && r.state.layout == c.layout
    ensures name in c.profiles ==> (r.KeyError? <==> "Default" !in c.profiles - {name})
    ensures r.Done? && name in c.profiles ==> Coherent(r.state)
  {
    if name !in c.profiles then Done(c)
    else
      var ps := c.profiles - {name};
      var d := c.(names := Remove(c.names, name), profiles := ps, current := "Default");
      if "Default" in ps then Done(d.(shortcuts := ps["Default"])) else KeyError(d)
  }

  /** Deleting keeps the name list in step; it fails exactly for "Default",
      after which no profile is active. */
  lemma DeleteProfileKeeps(c: Controller, name: string)
    requires WellFormed(c) && "Default" in c.profiles
    ensures WellFormed(DeleteProfile(c, name).state)
    ensures DeleteProfile(c, name).KeyError? <==> name == "Default"
    ensures DeleteProfile(c, name).Done? ==> Coherent(DeleteProfile(c, name).state) || name !in c.profiles
    ensures name == "Default" ==> !Coherent(DeleteProfile(c, name).state)
  {
    RemoveDistinct(c.names, name);
    assert (c.profiles - {name}).Keys == set n | n in Remove(c.names, name);
  }

  /** The window's `add_chord`: with both stripped fields non-empty the chord
      is set in the active profile (through the shared table, so the active
      table changes too); a missing active profile raises. */
  function AddChord(c: Controller, chordText: string, expansionText: string): (r: Outcome)
    ensures Strip(chordText) == "" || Strip(expansionText) == "" ==> r == Done(c)
    ensures r.KeyError? <==> Strip(chordText) != "" && Strip(expansionText) != "" && c.current !in c.profiles
    ensures r.state.names == c.names && r.state.current == c.current && r.state.word == c.word
  {
    var chord := Strip(chordText);
    var expansion := Strip(expansionText);
    if chord == "" || expansion == "" then Done(c)
    else if c.current !in c.profiles then KeyError(c)
    else
      var table := c.profiles[c.current][chord := expansion];
      Done(c.(profiles := c.profiles[c.current := table], shortcuts := table))
  }

  /** With both fields non-empty and the active profile present, the chord
      maps to the expansion in the active profile, every other chord and
      profile is kept, and the active table is the updated profile. */
  lemma AddChordSets(c: Controller, chordText: string, expansionText: string)
    requires Strip(chordText) != "" && Strip(expansionText) != "" && c.current in c.profiles
    ensures var r := AddChord(c, chordText, expansionText);
      && r.Done? && Coherent(r.state) && r.state.profiles.Keys == c.profiles.Keys
      && Strip(chordText) in r.state.profiles[c.current]
      && r.state.profiles[c.current][Strip(chordText)] == Strip(expansionText)
      && forall k :: k in c.profiles[c.current] && k != Strip(chordText) ==>
           k in r.state.profiles[c.current] && r.state.profiles[c.current][k] == c.profiles[c.current][k]
  {
  }

  /** The window's `delete_selected_chord` with the chord text of the first
      selected row, if any row is selected. */
  function DeleteChord(c: Controller, selected: Option<string>): (r: Outcome)
    ensures selected.None? ==> r == Done(c)
    ensures selected.Some? ==> (r.KeyError? <==> c.current !in c.profiles)
    ensures r.Done? && selected.Some? ==>
              r.state.profiles.Keys == c.profiles.Keys
              && selected.value !in r.state.profiles[c.current]
    ensures r.Done? && selected.Some? && c.current in c.profiles ==>
              r.state.profiles[c.current] == c.profiles[c.current] - {selected.value}
    ensures r.Done? && selected.Some? && c.current in c.profiles && selected.value in c.profiles[c.current] ==>
              r.state.shortcuts == r.state.profiles[c.current]
    ensures r.Done? && Coherent(c) ==> Coherent(r.state)
    ensures r.state.names == c.names && r.state.current == c.current && r.state.word == c.word
  {
    match selected
    case None => Done(c)
    case Some(chord) =>
      if c.current !in c.profiles then KeyError(c)
      else if chord !in c.profiles[c.current] then
        assert c.profiles[c.current] - {chord} == c.profiles[c.current];
        Done(c)
      else
        var table := c.profiles[c.current] - {chord};
        Done(c.(profiles := c.profiles[c.current := table], shortcuts := table))
  }

  /** Adding a chord touches only the active profile. */
  lemma AddChordOthers(c: Controller, chordText: string, expansionText: string)
    ensures var r := AddChord(c, chordText, expansionText);
      forall n :: n in c.profiles && n != c.current ==> n in r.state.profiles && r.state.profiles[n] == c.profiles[n]
  {
  }

  /** Deleting a chord touches only the active profile. */
  lemma DeleteChordOthers(c: Controller, selected: Option<string>)
    ensures var r := DeleteChord(c, selected);
      forall n :: n in c.profiles && n != c.current ==> n in r.state.profiles && r.state.profiles[n] == c.profiles[n]
  {
  }

  /** Adding a chord and deleting it again restores a profile that did not
      have it. */
  lemma AddThenDeleteChord(c: Controller, chord: string, expansion: string)
    requires Coherent(c) && Strip(chord) == chord && Strip(expansion) == expansion
    requires chord != "" && expansion != "" && chord !in c.profiles[c.current]
    ensures var a := AddChord(c, chord, expansion);
      a.Done? && DeleteChord(a.state, Some(chord)) == Done(c)
  {
    var a := AddChord(c, chord, expansion);
    var t := c.profiles[c.current][chord := expansion];
    assert t - {chord} == c.profiles[c.current];
    assert c.profiles[c.current := t][c.current := t - {chord}] == c.profiles;
  }
}
