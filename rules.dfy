/** The directory rule table: node type -> storage directory. */
module Rules {

  type RuleTable = map<string, string>

  /** The built-in table the editor starts with. (The source lists
      ImageOnlyCheckpointLoader twice with the same directory; the later
      entry wins and changes nothing.) */
  const DefaultRules: RuleTable := map[
    "CheckpointLoaderSimple" := "checkpoints",
    "CheckpointLoader" := "checkpoints",
    "ControlNetLoader" := "controlnet",
    "CLIPLoader" := "text_encoders",
    "CLIPVisionLoader" := "clip_vision",
    "DiffusersLoader" := "diffusers",
    "DualCLIPLoader" := "text_encoders",
    "DiffControlNetLoader" := "controlnet",
    "GLIGENLoader" := "gligen",
    "ImageOnlyCheckpointLoader" := "checkpoints",
    "LoraLoader" := "loras",
    "LoraLoaderModelOnly" := "loras",
    "PhotoMakerLoader" := "photomaker",
    "QuadrupleCLIPLoader" := "text_encoders",
    "StyleModelLoader" := "style_models",
    "TripleCLIPLoader" := "text_encoders",
    "UpscaleModelLoader" := "upscale_models",
    "unCLIPCheckpointLoader" := "checkpoints",
    "UNETLoader" := "diffusion_models",
    "VAELoader" := "vae",
    "ModelPatchLoader" := "model_patches",
    "AudioEncoderLoader" := "audio_encoders"
  ]

  /** `nodeType && directoryRules.hasOwnProperty(nodeType)`: the empty type
      never counts as listed, even when "" has been added as a key. */
  predicate InRules(rules: RuleTable, nodeType: string) {
    nodeType != "" && nodeType in rules
  }

  /** `directoryRules[nodeType] || ""`. */
  function DirectoryFor(rules: RuleTable, nodeType: string): (dir: string)
    ensures nodeType !in rules ==> dir == ""
    ensures nodeType in rules ==> dir == rules[nodeType]
    ensures dir != "" ==> nodeType in rules && rules[nodeType] == dir
  {
    if nodeType in rules then rules[nodeType] else ""
  }

  /** Renaming a rule (`createDirectoryRuleElement`, type input): a new,
      different, non-empty type takes over the directory of the old one and
      the old key is removed; anything else leaves the table alone. An old
      type that is not a key gives the new key an undefined directory, which
      reads as "" everywhere it is used. */
  function Renamed(rules: RuleTable, oldType: string, newType: string): (r: RuleTable)
    ensures newType == "" || newType == oldType ==> r == rules
    ensures newType != "" && newType != oldType ==>
      r.Keys == rules.Keys - {oldType} + {newType} && DirectoryFor(r, newType) == DirectoryFor(rules, oldType)
  {
    if newType != "" && newType != oldType then
      rules[newType := DirectoryFor(rules, oldType)] - {oldType}
    else rules
  }

  /** A rename touches no rule but the two it names. */
  lemma RenameKeepsOthers(rules: RuleTable, oldType: string, newType: string, t: string)
    requires t != oldType && t != newType
    ensures (t in Renamed(rules, oldType, newType)) == (t in rules)
    ensures DirectoryFor(Renamed(rules, oldType, newType), t) == DirectoryFor(rules, t)
  {
  }

  /** Renaming a listed type to an unused one and back restores the table. */
  lemma RenameRoundTrip(rules: RuleTable, a: string, b: string)
    requires a != "" && b != "" && a != b && a in rules && b !in rules
    ensures Renamed(Renamed(rules, a, b), b, a) == rules
  {
    var once := Renamed(rules, a, b);
    var twice := Renamed(once, b, a);
    assert twice.Keys == rules.Keys;
    forall t | t in rules
      ensures twice[t] == rules[t]
    {
      if t == a {
        assert DirectoryFor(twice, a) == DirectoryFor(once, b) == DirectoryFor(rules, a);
      }
    }
  }

  /** The blank rule that "Add rule" inserts never lists a node type. */
  lemma BlankRuleListsNothing(rules: RuleTable, t: string)
    ensures InRules(rules["" := ""], t) == InRules(rules, t)
  {
  }
}
