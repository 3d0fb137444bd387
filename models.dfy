/** The model catalogue: the five preset models, display names, validation
    of a user-entered custom model id, removal of a saved custom model, and
    the merge of the custom models listed in `config.json`. */
module Models {
  import opened Wrappers
  import opened Collections
  import opened Text

  /** One entry of the fixed preset list. */
  datatype PresetModel = PresetModel(id: string, name: string, description: string, icon: string, badge: string)

  /** The model a fresh session starts with. */
  const DefaultModel: string := "openai/gpt-3.5-turbo"

  /** The preset list, in display order. */
  const PresetModels: seq<PresetModel> := [
    PresetModel("openai/gpt-3.5-turbo", "GPT-3.5 Turbo", "Fast & cost-effective", "fa-bolt", "Popular"),
    PresetModel("openai/gpt-4", "GPT-4", "Most capable", "fa-crown", "Premium"),
    PresetModel("anthropic/claude-3-haiku", "Claude 3 Haiku", "Fast & efficient", "fa-leaf", "New"),
    PresetModel("google/gemini-pro", "Gemini Pro", "Great for reasoning", "fa-gem", "Google"),
    PresetModel("meta-llama/llama-3.1-70b-instruct", "Llama 3.1 70B", "Open-source power", "fa-dragon", "Open")
  ]

  /** Some preset has this id. */
  predicate IsPresetId(id: string) {
    exists k :: 0 <= k < |PresetModels| && PresetModels[k].id == id
  }

  /** `presetModels.find(m => m.id === id)`. */
  function FindPreset(id: string): (r: Option<PresetModel>)
    ensures r.None? <==> !IsPresetId(id)
    ensures r.Some? ==> r.value in PresetModels && r.value.id == id
  {
    var k := FindFirst(PresetModels, (m: PresetModel) => m.id == id);
    if k >= 0 then Some(PresetModels[k]) else None
  }

  /** `id.split('/').pop()`: the part after the last slash. */
  function LastSegment(id: string): (r: string)
    ensures '/' !in r
    ensures |r| <= |id| && id[|id| - |r|..] == r
    ensures |r| < |id| ==> id[|id| - |r| - 1] == '/'
  {
    LastPieceIsSuffix(id, '/');
    var parts := Split(id, '/');
    parts[|parts| - 1]
  }

  /** `getModelName`: a preset's display name, else the id's last segment. */
  function ModelName(id: string): (r: string)
    ensures forall k :: 0 <= k < |PresetModels| && PresetModels[k].id == id ==> r == PresetModels[k].name
    ensures !IsPresetId(id) ==> r == LastSegment(id)
  {
    PresetIdsDistinct();
    match FindPreset(id)
    case Some(preset) => preset.name
    case None => LastSegment(id)
  }

  /** What `addCustomModel` does with the text in the input box. */
  datatype AddOutcome =
    | Blank          // nothing but white space: silently ignored
    | MissingSlash   // "Please enter a valid model ID ..."
    | AlreadyExists  // "Model already exists"
    | Added(id: string)

  /** The checks of `addCustomModel`, in the order the source makes them. */
  function CheckCustomModel(input: string, customModels: seq<string>): (r: AddOutcome)
    ensures r == Blank <==> forall k :: 0 <= k < |input| ==> IsSpace(input[k])
    ensures r == MissingSlash <==> Trim(input) != "" && '/' !in Trim(input)
    ensures r == AlreadyExists <==> '/' in Trim(input) && (IsPresetId(Trim(input)) || Trim(input) in customModels)
    ensures r.Added? ==> r.id == Trim(input) && '/' in r.id && !IsPresetId(r.id) && r.id !in customModels
  {
    var id := Trim(input);
    if id == "" then Blank
    else if '/' !in id then MissingSlash
    else if FindPreset(id).Some? || id in customModels then AlreadyExists
    else Added(id)
  }

  /** The custom-model list after `addCustomModel`: the id appended, or unchanged. */
  function AddedModels(input: string, customModels: seq<string>): (r: seq<string>)
    ensures CheckCustomModel(input, customModels).Added? ==> r == customModels + [Trim(input)]
    ensures !CheckCustomModel(input, customModels).Added? ==> r == customModels
  {
    match CheckCustomModel(input, customModels)
    case Added(id) => customModels + [id]
    case _ => customModels
  }

  /** `removeSavedModel`: every occurrence of `id` filtered out. */
  function WithoutModel(customModels: seq<string>, id: string): (r: seq<string>)
    ensures id !in r
    ensures forall k :: 0 <= k < |customModels| && customModels[k] != id ==> customModels[k] in r
    ensures forall m :: m in r ==> m in customModels
  {
    Filter(customModels, (m: string) => m != id)
  }

  /** The merge in `loadConfig`: the config's models not already present are appended. */
  function MergeConfigModels(customModels: seq<string>, config: seq<string>): (r: seq<string>)
    ensures |customModels| <= |r| && r[..|customModels|] == customModels
    ensures forall k :: |customModels| <= k < |r| ==> r[k] in config && r[k] !in customModels
  {
    customModels + Filter(config, (m: string) => m !in customModels)
  }

  // ---------------------------------------------------------------------------
  // properties

  /** No two presets share an id, so a preset id names exactly one preset. */
  lemma PresetIdsDistinct()
    ensures forall i, j :: 0 <= i < j < |PresetModels| ==> PresetModels[i].id != PresetModels[j].id
  {
    var ids := seq(|PresetModels|, k requires 0 <= k < |PresetModels| => PresetModels[k].id);
    assert ids[0][11] == '3' && ids[1][11] == '4';
    assert ids[0][0] == 'o' && ids[2][0] == 'a' && ids[3][0] == 'g' && ids[4][0] == 'm';
    assert ids[1][0] == 'o';
  }

  /** Adding never creates a duplicate. */
  lemma AddKeepsNoDups(input: string, customModels: seq<string>)
    requires NoDups(customModels)
    ensures NoDups(AddedModels(input, customModels))
  {
    var r := CheckCustomModel(input, customModels);
    if r.Added? {
      AppendFreshNoDups(customModels, r.id);
    }
  }

  /** Adding the same input twice: the second attempt reports a duplicate. */
  lemma AddTwiceIsRejected(input: string, customModels: seq<string>)
    requires CheckCustomModel(input, customModels).Added?
    ensures CheckCustomModel(input, AddedModels(input, customModels)) == AlreadyExists
  {
    var id := Trim(input);
    assert AddedModels(input, customModels)[|customModels|] == id;
  }

  /** Removing the model just added restores the list. */
  lemma {:induction false} RemoveUndoesAdd(input: string, customModels: seq<string>)
    requires CheckCustomModel(input, customModels).Added?
    ensures WithoutModel(AddedModels(input, customModels), Trim(input)) == customModels
  {
    var id := Trim(input);
    var keep := (m: string) => m != id;
    FilterAppend(customModels, [id], keep);
    FilterKeepsAll(customModels, keep);
    assert Filter([id], keep) == [];
  }

  /** Removing keeps the list duplicate-free and drops nothing else. */
  lemma {:induction false} RemoveKeepsNoDups(customModels: seq<string>, id: string)
    requires NoDups(customModels)
    ensures NoDups(WithoutModel(customModels, id))
  {
    FilterNoDups(customModels, (m: string) => m != id);
  }

  /** Removing an id that is not saved changes nothing. */
  lemma {:induction false} RemoveAbsentIsIdentity(customModels: seq<string>, id: string)
    requires id !in customModels
    ensures WithoutModel(customModels, id) == customModels
  {
    FilterKeepsAll(customModels, (m: string) => m != id);
  }

  /** Removing a saved model from a duplicate-free list takes out exactly
      its one entry and leaves the others in their order. */
  lemma {:induction false} RemoveTakesOutOne(customModels: seq<string>, id: string, k: nat)
    requires NoDups(customModels) && k < |customModels| && customModels[k] == id
    ensures WithoutModel(customModels, id) == customModels[..k] + customModels[k + 1..]
  {
    FilterDropsOne(customModels, (m: string) => m != id, k);
  }

  /** After the merge every configured model is present. */
  lemma MergeContainsConfig(customModels: seq<string>, config: seq<string>)
    ensures forall m :: m in config ==> m in MergeConfigModels(customModels, config)
  {
    var appended := Filter(config, (m: string) => m !in customModels);
    forall m | m in config ensures m in customModels + appended {
      if m !in customModels {
        var k :| 0 <= k < |config| && config[k] == m;
        assert config[k] in appended;
      }
    }
  }

  /** The appended models are the config's new ones, in config order. */
  lemma {:induction false} MergeAppendsInConfigOrder(customModels: seq<string>, config: seq<string>, more: seq<string>)
    ensures MergeConfigModels(customModels, config + more)
         == MergeConfigModels(customModels, config) + Filter(more, (m: string) => m !in customModels)
  {
    FilterAppend(config, more, (m: string) => m !in customModels);
  }

  /** Merging the same config again (the next page load) adds nothing. */
  lemma {:induction false} MergeIsIdempotent(customModels: seq<string>, config: seq<string>)
    ensures MergeConfigModels(MergeConfigModels(customModels, config), config) == MergeConfigModels(customModels, config)
  {
    var once := MergeConfigModels(customModels, config);
    MergeContainsConfig(customModels, config);
    FilterNone(config, (m: string) => m !in once);
  }

  /** A duplicate-free list merged with a duplicate-free config stays duplicate-free. */
  lemma {:induction false} MergeKeepsNoDups(customModels: seq<string>, config: seq<string>)
    requires NoDups(customModels) && NoDups(config)
    ensures NoDups(MergeConfigModels(customModels, config))
  {
    var appended := Filter(config, (m: string) => m !in customModels);
    FilterNoDups(config, (m: string) => m !in customModels);
    var r := customModels + appended;
    forall i, j | 0 <= i < j < |r| ensures r[i] != r[j] {
      if j < |customModels| {
        assert r[i] == customModels[i] && r[j] == customModels[j];
      } else if i < |customModels| {
        assert r[i] in customModels;
        assert r[j] == appended[j - |customModels|];
      } else {
        assert r[i] == appended[i - |customModels|] && r[j] == appended[j - |customModels|];
      }
    }
  }

  /** The merge compares against the old list only: a model listed twice in
      the config is appended twice. */
  lemma MergeKeepsConfigDuplicates()
    ensures MergeConfigModels([], ["org/model", "org/model"]) == ["org/model", "org/model"]
  {
    FilterKeepsAll(["org/model", "org/model"], (m: string) => m !in []);
  }
}
