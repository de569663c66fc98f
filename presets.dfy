/** The instruction presets: the saved dict of named instruction texts, how it is read from and
    written to the presets file together with the last chosen preset and model, and the panel
    that loads, saves and deletes presets. */
module Presets {
  import opened Wrappers
  import opened Search
  import opened Text

  /** A dict of strings as its (key, value) pairs in insertion order, the order Python dicts and
      JSON objects keep. */
  type Dict = seq<(string, string)>

  function Keys(d: Dict): seq<string> {
    seq(|d|, i requires 0 <= i < |d| => d[i].0)
  }

  predicate HasKey(d: Dict, k: string) {
    exists i :: 0 <= i < |d| && d[i].0 == k
  }

  predicate UniqueKeys(d: Dict) {
    forall i, j :: 0 <= i < j < |d| ==> d[i].0 != d[j].0
  }

  function IndexOfKey(d: Dict, k: string): (r: Option<nat>)
    ensures r.Some? ==> r.value < |d| && d[r.value].0 == k
    ensures r.Some? ==> forall j :: 0 <= j < r.value ==> d[j].0 != k
    ensures r.None? <==> !HasKey(d, k)
  {
    FirstIndex(d, (e: (string, string)) => e.0 == k)
  }

  /** d.get(k). */
  function Get(d: Dict, k: string): Option<string> {
    match IndexOfKey(d, k)
    case None => None
    case Some(i) => Some(d[i].1)
  }

  /** d[k] = v: an existing key keeps its place, a new key goes last. */
  function Put(d: Dict, k: string, v: string): Dict {
    match IndexOfKey(d, k)
    case None => d + [(k, v)]
    case Some(i) => d[i := (k, v)]
  }

  /** del d[k] (nothing when k is absent). */
  function Remove(d: Dict, k: string): Dict {
    match IndexOfKey(d, k)
    case None => d
    case Some(i) => d[..i] + d[i + 1..]
  }

  /** d.pop(k, None). */
  function Pop(d: Dict, k: string): (Dict, Option<string>) {
    (Remove(d, k), Get(d, k))
  }

  /** In a dict with unique keys, the i-th pair is what Get finds for its key. */
  lemma GetAt(d: Dict, i: nat)
    requires UniqueKeys(d) && i < |d|
    ensures Get(d, d[i].0) == Some(d[i].1)
  {
    assert HasKey(d, d[i].0);
  }

  /** Put keeps keys unique. */
  lemma PutUnique(d: Dict, k: string, v: string)
    requires UniqueKeys(d)
    ensures UniqueKeys(Put(d, k, v))
  {
    match IndexOfKey(d, k) {
      case None =>
      case Some(i) =>
    }
  }

  /** Put stores the value under its key, keeps every other key's value, keeps keys unique, and
      appends the key exactly when it is new. */
  lemma PutProperties(d: Dict, k: string, v: string)
    requires UniqueKeys(d)
    ensures UniqueKeys(Put(d, k, v))
    ensures Get(Put(d, k, v), k) == Some(v)
    ensures forall k' :: k' != k ==> Get(Put(d, k, v), k') == Get(d, k')
    ensures HasKey(d, k) ==> Keys(Put(d, k, v)) == Keys(d)
    ensures !HasKey(d, k) ==> Keys(Put(d, k, v)) == Keys(d) + [k]
  {
    var p := Put(d, k, v);
    match IndexOfKey(d, k)
    case None =>
      GetAt(p, |d|);
      forall k' | k' != k ensures Get(p, k') == Get(d, k') {
        match IndexOfKey(d, k')
        case None =>
          assert !HasKey(p, k');
        case Some(j) =>
          GetAt(p, j);
          GetAt(d, j);
      }
    case Some(i) =>
      GetAt(p, i);
      forall k' | k' != k ensures Get(p, k') == Get(d, k') {
        match IndexOfKey(d, k')
        case None =>
          assert !HasKey(p, k');
        case Some(j) =>
          GetAt(p, j);
          GetAt(d, j);
      }
  }

  /** Where the pairs of a dict sit after the i-th one is deleted. */
  lemma DeleteAt(d: Dict, i: nat)
    requires i < |d|
    ensures var r := d[..i] + d[i + 1..];
            && |r| == |d| - 1
            && (forall j :: 0 <= j < i ==> r[j] == d[j])
            && (forall j :: i <= j < |r| ==> r[j] == d[j + 1])
  {
  }

  /** Deleting a pair of a dict with unique keys keeps them unique and drops its key. */
  lemma DeleteAtUnique(d: Dict, i: nat)
    requires UniqueKeys(d) && i < |d|
    ensures UniqueKeys(d[..i] + d[i + 1..]) && !HasKey(d[..i] + d[i + 1..], d[i].0)
  {
    DeleteAt(d, i);
  }

  /** Removing a key keeps the value of every other key. */
  lemma RemoveGet(d: Dict, k: string, k': string)
    requires UniqueKeys(d) && k' != k
    ensures Get(Remove(d, k), k') == Get(d, k')
  {
    match IndexOfKey(d, k) {
      case None =>
      case Some(i) =>
        var r := Remove(d, k);
        DeleteAt(d, i);
        DeleteAtUnique(d, i);
        match IndexOfKey(d, k') {
          case None =>
            assert !HasKey(r, k');
          case Some(j) =>
            GetAt(d, j);
            if j < i { GetAt(r, j); } else { GetAt(r, j - 1); }
        }
    }
  }

  /** Remove drops the key, keeps every other key's value and order, and does nothing to an absent key. */
  lemma RemoveProperties(d: Dict, k: string)
    requires UniqueKeys(d)
    ensures UniqueKeys(Remove(d, k))
    ensures !HasKey(Remove(d, k), k)
    ensures forall k' :: k' != k ==> Get(Remove(d, k), k') == Get(d, k')
    ensures !HasKey(d, k) ==> Remove(d, k) == d
  {
    match IndexOfKey(d, k) {
      case None =>
      case Some(i) =>
        DeleteAtUnique(d, i);
    }
    forall k' | k' != k ensures Get(Remove(d, k), k') == Get(d, k') {
      RemoveGet(d, k, k');
    }
  }

  /** A key is in a concatenation exactly when it is in one of the parts. */
  lemma HasKeyConcat(a: Dict, b: Dict, k: string)
    ensures HasKey(a + b, k) <==> HasKey(a, k) || HasKey(b, k)
  {
    if HasKey(a, k) {
      var i :| 0 <= i < |a| && a[i].0 == k;
      assert (a + b)[i] == a[i];
    }
    if HasKey(b, k) {
      var i :| 0 <= i < |b| && b[i].0 == k;
      assert (a + b)[|a| + i] == b[i];
    }
    if HasKey(a + b, k) {
      var i :| 0 <= i < |a + b| && (a + b)[i].0 == k;
      if i < |a| { assert a[i] == (a + b)[i]; } else { assert b[i - |a|] == (a + b)[i]; }
    }
  }

  /** The pair for key k when there is a value: what the save adds for a reserved key. */
  function Entry(k: string, o: Option<string>): (r: Dict)
    ensures HasKey(r, k) <==> o.Some?
    ensures forall k' :: k' != k ==> !HasKey(r, k')
  {
    if o.Some? then
      var r := [(k, o.value)];
      assert r[0].0 == k;
      r
    else []
  }

  /** Popping a key that a dict holds once, between two parts without it, gives back the parts and
      the value; popping an absent key gives the dict and None. */
  lemma PopEntry(a: Dict, k: string, o: Option<string>, b: Dict)
    requires !HasKey(a, k) && !HasKey(b, k)
    ensures Pop(a + Entry(k, o) + b, k) == (a + b, o)
  {
    var d := a + Entry(k, o) + b;
    if o.Some? {
      assert d[|a|].0 == k;
      assert forall j :: 0 <= j < |a| ==> d[j] == a[j];
      var r := IndexOfKey(d, k);
      assert r.Some? && r.value <= |a|;
      assert r.value == |a|;
      assert d[..|a|] == a;
      assert d[|a| + 1..] == b;
    } else {
      assert d == a + b;
      HasKeyConcat(a, b, k);
    }
  }

  const LastSelectedKey: string := "_last_selected"
  const LastModelKey: string := "_last_selected_model"

  /** The first entry of the model list, used when no model was saved. */
  const DefaultModel: string := "anthropic/claude-3-opus-20240229"

  /** The text the instruction box starts with. */
  const DefaultInstruction: string := "Suggest clearer, organized names for these items"

  /** The five built-in presets, in order. */
  const DefaultPresets: Dict := [
    ("Clear and organized", "Suggest clearer, organized names for these items"),
    ("Lowercase with underscores", "Convert all names to lowercase and replace spaces with underscores"),
    ("Add date prefix", "Add today's date as a prefix (YYYY-MM-DD) to all names"),
    ("Descriptive names", "Create more descriptive names based on likely content"),
    ("Standardize format", "Standardize naming across all files following a consistent pattern")
  ]

  /** What reading instruction_presets.json gives: no file, a file that cannot be read or
      decoded, or the stored object. */
  datatype PresetFile = Missing | Unreadable | Stored(data: Dict)

  /** load_instructions_presets: the stored presets with the two reserved keys popped off, and their
      values; the built-in presets and nothing when there is no readable file. */
  function Load(f: PresetFile): (Dict, Option<string>, Option<string>) {
    match f
    case Stored(d) =>
      var (d1, last) := Pop(d, LastSelectedKey);
      var (d2, model) := Pop(d1, LastModelKey);
      (d2, last, model)
    case _ => (DefaultPresets, None, None)
  }

  /** The presets read from a file whose object has unique keys have unique keys. */
  lemma LoadUnique(f: PresetFile)
    requires f.Stored? ==> UniqueKeys(f.data)
    ensures UniqueKeys(Load(f).0)
  {
    if f.Stored? {
      RemoveProperties(f.data, LastSelectedKey);
      RemoveProperties(Remove(f.data, LastSelectedKey), LastModelKey);
    } else {
      assert UniqueKeys(DefaultPresets);
    }
  }

  /** The object save_instructions_presets writes: a copy of the presets, plus the chosen preset name
      when it is one of the keys, plus the model when it contains a '/'. */
  function Encode(presets: Dict, current: string, model: string): Dict {
    var d1 := if HasKey(presets, current) then Put(presets, LastSelectedKey, current) else presets;
    if '/' in model then Put(d1, LastModelKey, model) else d1
  }

  /** Writing and then reading the presets file gives back the presets, the chosen preset when it was
      a key, and the model when it contains a '/' (for presets without the reserved names). */
  lemma LoadEncode(p: Dict, current: string, model: string)
    requires UniqueKeys(p) && !HasKey(p, LastSelectedKey) && !HasKey(p, LastModelKey)
    ensures Load(Stored(Encode(p, current, model))) ==
              (p, if HasKey(p, current) then Some(current) else None, if '/' in model then Some(model) else None)
  {
    var os := if HasKey(p, current) then Some(current) else None;
    var om := if '/' in model then Some(model) else None;
    var m := Entry(LastModelKey, om);
    EncodeShape(p, current, model);
    PopEntry(p, LastSelectedKey, os, m);
    PopEntry(p, LastModelKey, om, []);
    assert p + m + [] == p + m;
    assert p + [] == p;
  }

  /** A preset named like one of the two reserved keys does not survive a save and a load: the save
      keeps it or writes the chosen preset or the model over it, and the load pops it off. */
  lemma ReservedPresetLost(p: Dict, current: string, model: string)
    requires UniqueKeys(p) && (HasKey(p, LastSelectedKey) || HasKey(p, LastModelKey))
    ensures var p' := Load(Stored(Encode(p, current, model))).0;
            && !HasKey(p', LastSelectedKey) && !HasKey(p', LastModelKey)
            && p' != p
  {
    var d1 := if HasKey(p, current) then Put(p, LastSelectedKey, current) else p;
    PutUnique(p, LastSelectedKey, current);
    PutUnique(d1, LastModelKey, model);
    var e := Encode(p, current, model);
    RemoveProperties(e, LastSelectedKey);
    var r1 := Remove(e, LastSelectedKey);
    RemoveProperties(r1, LastModelKey);
    assert Get(Remove(r1, LastModelKey), LastSelectedKey) == Get(r1, LastSelectedKey);
  }

  /** The saved object is the presets followed by the reserved pairs, in that order. */
  lemma EncodeShape(p: Dict, current: string, model: string)
    requires !HasKey(p, LastSelectedKey) && !HasKey(p, LastModelKey)
    ensures Encode(p, current, model) ==
              p + Entry(LastSelectedKey, if HasKey(p, current) then Some(current) else None)
                + Entry(LastModelKey, if '/' in model then Some(model) else None)
  {
    var s := Entry(LastSelectedKey, if HasKey(p, current) then Some(current) else None);
    assert IndexOfKey(p, LastSelectedKey).None?;
    HasKeyConcat(p, s, LastModelKey);
    assert IndexOfKey(p + s, LastModelKey).None?;
  }

  /** The preset chosen at start-up: the saved one when it is non-empty and still a key, else the
      first key, else none (""). */
  function InitialPreset(presets: Dict, last: Option<string>): string {
    if last.Some? && last.value != "" && HasKey(presets, last.value) then last.value
    else if |presets| > 0 then presets[0].0
    else ""
  }

  /** The model at start-up: the saved one when non-empty, else the first of the model list. */
  function InitialModel(last: Option<string>): string {
    if last.Some? && last.value != "" then last.value else DefaultModel
  }

  /** The instruction text at start-up: the initial preset's text when there is one, else the default. */
  function InitialInstructions(presets: Dict, preset: string): string {
    if preset != "" && HasKey(presets, preset) then Get(presets, preset).value else DefaultInstruction
  }

  /** Restarting after an orderly close brings back the same presets, the chosen preset (when it
      was a non-empty key) and the model (when it contains a '/'). */
  lemma RestartRestores(p: Dict, current: string, model: string)
    requires UniqueKeys(p) && !HasKey(p, LastSelectedKey) && !HasKey(p, LastModelKey)
    ensures var (p', last, m') := Load(Stored(Encode(p, current, model)));
            && p' == p
            && (current != "" && HasKey(p, current) ==> InitialPreset(p', last) == current)
            && InitialModel(m') == if '/' in model then model else DefaultModel
  {
    LoadEncode(p, current, model);
  }

  /** The initial preset is always a key or "", and its instruction text is the stored text. */
  lemma InitialPresetIsKey(presets: Dict, last: Option<string>)
    ensures var ip := InitialPreset(presets, last);
            ip == "" || HasKey(presets, ip)
    ensures |presets| > 0 && (last.None? || last.value == "" || !HasKey(presets, last.value)) ==>
              InitialPreset(presets, last) == presets[0].0
  {
  }

  /** What a preset button shows. */
  datatype PanelNotice = Warning(text: string) | Saved(text: string) | Deleted(text: string) | NoNotice

  /** The preset controls: the presets, the preset combobox, the instruction text box, the model
      combobox, and the presets file as last written. */
  class PresetPanel {
    var presets: Dict
    var presetVar: string
    var instructions: string
    var modelVar: string
    var disk: PresetFile

    predicate Valid()
      reads this`presets
    {
      UniqueKeys(presets)
    }

    /** Start-up: load the presets file, choose the initial model and preset, and load that preset's
        text into the instruction box (which starts with the default instruction). */
    constructor (file: PresetFile)
      requires file.Stored? ==> UniqueKeys(file.data)
      ensures Valid()
      ensures presets == Load(file).0
      ensures presetVar == InitialPreset(presets, Load(file).1)
      ensures modelVar == InitialModel(Load(file).2)
      ensures instructions == InitialInstructions(presets, presetVar)
      ensures disk == file
    {
      var (p, last, model) := Load(file);
      LoadUnique(file);
      presets := p;
      modelVar := InitialModel(model);
      instructions := DefaultInstruction;
      presetVar := "";
      disk := file;
      var initial := InitialPreset(p, last);
      if initial != "" {
        presetVar := initial;
        if HasKey(p, initial) {
          instructions := Get(p, initial).value;
        }
      }
    }

    /** The user picks or types a preset name. */
    method ChoosePreset(name: string)
      modifies this`presetVar
      ensures presetVar == name
    {
      presetVar := name;
    }

    /** The user picks or types a model. */
    method ChooseModel(model: string)
      modifies this`modelVar
      ensures modelVar == model
    {
      modelVar := model;
    }

    /** The user edits the instruction box. */
    method EditInstructions(text: string)
      modifies this`instructions
      ensures instructions == text
    {
      instructions := text;
    }

    /** load_preset: the chosen preset's text replaces the instruction box, when it is a preset. */
    method LoadPreset()
      modifies this`instructions
      ensures instructions == if HasKey(presets, presetVar) then Get(presets, presetVar).value else old(instructions)
    {
      match IndexOfKey(presets, presetVar)
      case None =>
      case Some(i) => instructions := presets[i].1;
    }

    /** save_preset with the dialog's answer (None when cancelled): an empty instruction is refused;
        a non-blank name stores the stripped instruction under the stripped name, chooses it and
        writes the file. */
    method SavePreset(answer: Option<string>) returns (n: PanelNotice)
      requires Valid()
      modifies this`presets, this`presetVar, this`disk
      ensures Valid()
      ensures Strip(instructions) == [] ==>
                n == Warning("Please enter an instruction to save.") && unchanged(this)
      ensures Strip(instructions) != [] && answer.Some? && Strip(answer.value) != [] ==>
                && presets == Put(old(presets), Strip(answer.value), Strip(instructions))
                && presetVar == Strip(answer.value)
                && disk == Stored(Encode(presets, presetVar, modelVar))
                && n == Saved("Preset '" + answer.value + "' saved successfully.")
      ensures Strip(instructions) != [] && (answer.None? || Strip(answer.value) == []) ==>
                n == NoNotice && unchanged(this)
    {
      var current := Strip(instructions);
      if current == [] {
        return Warning("Please enter an instruction to save.");
      }
      if answer.Some? && Strip(answer.value) != [] {
        var name := Strip(answer.value);
        PutUnique(presets, name, current);
        presets := Put(presets, name, current);
        presetVar := name;
        disk := Stored(Encode(presets, presetVar, modelVar));
        return Saved("Preset '" + answer.value + "' saved successfully.");
      }
      return NoNotice;
    }

    /** delete_preset with the confirmation answer: no chosen preset is refused; a confirmed
        deletion of an existing preset removes it, chooses the first remaining preset (or none) and
        writes the file. */
    method DeletePreset(confirmed: bool) returns (n: PanelNotice)
      requires Valid()
      modifies this`presets, this`presetVar, this`disk
      ensures Valid()
      ensures old(presetVar) == "" ==> n == Warning("Please select a preset to delete.") && unchanged(this)
      ensures old(presetVar) != "" && confirmed && HasKey(old(presets), old(presetVar)) ==>
                && presets == Remove(old(presets), old(presetVar))
                && !HasKey(presets, old(presetVar))
                && presetVar == (if |presets| > 0 then presets[0].0 else "")
                && disk == Stored(Encode(presets, presetVar, modelVar))
                && n == Deleted("Preset '" + old(presetVar) + "' deleted successfully.")
      ensures old(presetVar) != "" && !(confirmed && HasKey(old(presets), old(presetVar))) ==>
                n == NoNotice && unchanged(this)
    {
      var name := presetVar;
      if name == "" {
        return Warning("Please select a preset to delete.");
      }
      if confirmed && HasKey(presets, name) {
        RemoveProperties(presets, name);
        presets := Remove(presets, name);
        presetVar := if |presets| > 0 then presets[0].0 else "";
        disk := Stored(Encode(presets, presetVar, modelVar));
        return Deleted("Preset '" + name + "' deleted successfully.");
      }
      return NoNotice;
    }

    /** on_closing: the presets are written with the chosen preset and model. */
    method Close()
      modifies this`disk
      ensures disk == Stored(Encode(presets, presetVar, modelVar))
    {
      disk := Stored(Encode(presets, presetVar, modelVar));
    }
  }
}
