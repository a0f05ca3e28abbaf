/** The extension's settings, as `src/config.ts` reads them from the
    `disable-default-keybinding` configuration section. */
module Config {
  import Sequences

  const SECTION := "disable-default-keybinding"
  const EXTENSIONS_TO_PRESERVE := "extensionsToPreserve"
  /** The source gives this setting the same key as EXTENSIONS_TO_PRESERVE. */
  const COMMANDS_TO_PRESERVE := "extensionsToPreserve"
  const RUN_ON_CHANGE := "runOnChange"

  /** A setting's value as `get` returns it: absent (`undefined`), a boolean,
      a string, an array, or anything else. */
  datatype Setting =
    | Missing
    | BoolValue(b: bool)
    | StringValue(s: string)
    | ArrayValue(items: seq<Setting>)
    | OtherValue

  /** The settings of the section, by key. */
  type Configuration = map<string, Setting>

  function Get(cfg: Configuration, key: string): Setting
  {
    if key in cfg then cfg[key] else Missing
  }

  predicate IsStringArray(v: Setting)
  {
    v.ArrayValue? && forall i :: 0 <= i < |v.items| ==> v.items[i].StringValue?
  }

  /** `validateConfig`: the value itself when it is an array whose elements
      are all strings (`map(typeof v === "string").reduce(&&, true)`), `[]`
      otherwise. */
  function ValidateConfig(v: Setting): (r: Setting)
    ensures r == v <==> IsStringArray(v)
    ensures r != v ==> r == ArrayValue([])
    ensures IsStringArray(r)
  {
    if v.ArrayValue? && AllStrings(v.items) then v else ArrayValue([])
  }

  function AllStrings(items: seq<Setting>): (r: bool)
    ensures r <==> forall i :: 0 <= i < |items| ==> items[i].StringValue?
  {
    var flags := seq(|items|, i requires 0 <= i < |items| => items[i].StringValue?);
    assert forall i :: 0 <= i < |items| ==> flags[i] == items[i].StringValue?;
    Sequences.AndFold(flags)
  }

  /** The strings of a validated list. */
  function Strings(v: Setting): (r: seq<string>)
    requires IsStringArray(v)
    ensures |r| == |v.items|
    ensures forall i :: 0 <= i < |r| ==> v.items[i] == StringValue(r[i])
  {
    seq(|v.items|, i requires 0 <= i < |v.items| => v.items[i].s)
  }

  /** `getExtensionsToPreserveKeybinding`: the configured list when it is a
      list of strings, otherwise the empty list. */
  function ExtensionsToPreserveKeybinding(cfg: Configuration): (r: seq<string>)
    ensures IsStringArray(Get(cfg, EXTENSIONS_TO_PRESERVE)) ==>
      Get(cfg, EXTENSIONS_TO_PRESERVE) == ArrayValue(seq(|r|, i requires 0 <= i < |r| => StringValue(r[i])))
    ensures !IsStringArray(Get(cfg, EXTENSIONS_TO_PRESERVE)) ==> r == []
  {
    var r := Strings(ValidateConfig(Get(cfg, EXTENSIONS_TO_PRESERVE)));
    assert IsStringArray(Get(cfg, EXTENSIONS_TO_PRESERVE)) ==>
      Get(cfg, EXTENSIONS_TO_PRESERVE).items == seq(|r|, i requires 0 <= i < |r| => StringValue(r[i]));
    r
  }

  /** `getCommandsToPreserveKeybinding`: reads COMMANDS_TO_PRESERVE. */
  function CommandsToPreserveKeybinding(cfg: Configuration): (r: seq<string>)
    ensures !IsStringArray(Get(cfg, COMMANDS_TO_PRESERVE)) ==> r == []
  {
    Strings(ValidateConfig(Get(cfg, COMMANDS_TO_PRESERVE)))
  }

  /** Both preserve lists come from the same setting, so they are always equal. */
  lemma PreserveListsCoincide(cfg: Configuration)
    ensures CommandsToPreserveKeybinding(cfg) == ExtensionsToPreserveKeybinding(cfg)
  {
  }

  /** `getRunOnChange`: the stored value when it is a boolean, otherwise false. */
  function RunOnChange(cfg: Configuration): (r: bool)
    ensures r <==> Get(cfg, RUN_ON_CHANGE) == BoolValue(true)
  {
    var v := Get(cfg, RUN_ON_CHANGE);
    if v.BoolValue? then v.b else false
  }
}
